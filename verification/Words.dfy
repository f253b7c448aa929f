/** The sign bit of a 64-bit word, between the bit operations and the number the word stands for. */
module Words {

  const SIGN: int := 0x8000_0000_0000_0000

  lemma SignBitIsSet(w: bv64)
    requires w & 0x8000_0000_0000_0000 != 0
    ensures w as int >= SIGN
  {
  }

  lemma SettingTheSign(w: bv64)
    requires w & 0x8000_0000_0000_0000 == 0
    ensures (w | 0x8000_0000_0000_0000) as int == w as int + SIGN
  {
  }

  lemma InRange(w: bv64)
    ensures 0 <= w as int < 2 * SIGN
  {
  }

  lemma SignBitIsClear(w: bv64)
    requires w & 0x8000_0000_0000_0000 == 0
    ensures w as int < SIGN
  {
    SettingTheSign(w);
    InRange(w | 0x8000_0000_0000_0000);
  }

  lemma SignBitOfWord(w: bv64, n: int)
    requires n == w as int
    ensures n >= SIGN <==> w & 0x8000_0000_0000_0000 != 0
    ensures n < SIGN ==> (w | 0x8000_0000_0000_0000) as int == n + SIGN
  {
    if w & 0x8000_0000_0000_0000 == 0 {
      SignBitIsClear(w);
      SettingTheSign(w);
    } else {
      SignBitIsSet(w);
    }
  }

  /** On words, complementing is subtraction from all ones; the key makes it on numbers. */
  lemma ComplementIsSubtraction(w: bv64)
    ensures !w == 0xFFFF_FFFF_FFFF_FFFF - w
  {
  }
}
