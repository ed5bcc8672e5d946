/** The twelve bytes in front of every packet that the fixtures write. */
module RtpHeader {
  import opened Bytes
  import opened RtpDumpLaws

  /** Version 2 without padding or extension, payload type 96, the marker bit, and the three numbers behind them; the
      source is 7. */
  predicate Headed(raw: bytes, number: nat, time: nat, marker: bool) {
    && |raw| >= 12 && raw[0] == 0x80 && raw[1] % 128 == 96 && (raw[1] >= 128 <==> marker)
    && FromBE(raw[2..4]) == number && FromBE(raw[4..8]) == time && FromBE(raw[8..12]) == 7
  }

  lemma HeaderReads(second: byte, number: nat, time: nat, marker: bool, body: bytes)
    requires number < 0x1_0000 && time < 0x1_0000_0000 && second == if marker then 224 else 96
    ensures var raw := [0x80, second] + BE(2, number) + BE(4, time) + BE(4, 7) + body;
      Headed(raw, number, time, marker) && raw[12..] == body
  {
    Reads16(number);
    Reads32(time);
    Reads32(7);
    FiveParts([0x80, second], BE(2, number), BE(4, time), BE(4, 7), body);
    var raw := [0x80, second] + BE(2, number) + BE(4, time) + BE(4, 7) + body;
    assert raw[0] == raw[..2][0] && raw[1] == raw[..2][1];
  }
}
