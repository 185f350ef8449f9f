/** The lead bytes of UTF-8 and the shift that strdup8to16.c finds their meaning with. */
module LeadBytes {
  import opened Bytes

  /** UTF8_SEQ_LENGTH: what a byte that is not a continuation announces. */
  function SequenceLength(b: Byte): nat {
    if b < 0xc0 then 1 else if b < 0xe0 then 2 else if b < 0xf0 then 3 else 4
  }

  /** The macro as it is written. */
  function ShiftedLength(ch: bv32): bv32 {
    ((0xe500_0000 as bv32 >> ((ch >> 3) & 0x1e)) & 3) + 1
  }

  lemma ShiftedLengthIsTable(ch: bv32)
    ensures ch < 0xc0 ==> ShiftedLength(ch) == 1
    ensures 0xc0 <= ch < 0xe0 ==> ShiftedLength(ch) == 2
    ensures 0xe0 <= ch < 0xf0 ==> ShiftedLength(ch) == 3
    ensures 0xf0 <= ch < 0x100 ==> ShiftedLength(ch) == 4
  {
    var shift := (ch >> 3) & 0x1e;
    assert ch < 0xc0 ==> shift < 24;
    assert 0xc0 <= ch < 0xe0 ==> shift == 24 || shift == 26;
    assert 0xe0 <= ch < 0xf0 ==> shift == 28;
    assert 0xf0 <= ch < 0x100 ==> shift == 30;
  }
}
