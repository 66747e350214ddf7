/** Unsigned 8-bit values. */
module Bytes {
  type byte = x: nat | x < 0x100

  const CAPITALS := "ABCDEFGHIJKLMNOPQRSTUVWXYZ"
  const SMALLS := "abcdefghijklmnopqrstuvwxyz"
  const DIGITS := "0123456789"

  lemma CapitalAt(i: nat)
    requires i < |CAPITALS|
    ensures i < 26 && CAPITALS[i] as int == 65 + i
  {
  }

  lemma SmallAt(i: nat)
    requires i < |SMALLS|
    ensures i < 26 && SMALLS[i] as int == 97 + i
  {
  }

  lemma DigitAt(i: nat)
    requires i < |DIGITS|
    ensures i < 10 && DIGITS[i] as int == 48 + i
  {
  }

  /** Which characters these are. */
  lemma LettersAre(c: byte)
    ensures c as char in CAPITALS <==> 65 <= c <= 90
    ensures c as char in SMALLS <==> 97 <= c <= 122
    ensures c as char in DIGITS <==> 48 <= c <= 57
  {
    if 65 <= c <= 90 {
      CapitalAt(c - 65);
      assert CAPITALS[c - 65] == c as char;
    }
    if 97 <= c <= 122 {
      SmallAt(c - 97);
      assert SMALLS[c - 97] == c as char;
    }
    if 48 <= c <= 57 {
      DigitAt(c - 48);
      assert DIGITS[c - 48] == c as char;
    }
    if i :| 0 <= i < |CAPITALS| && CAPITALS[i] == c as char { CapitalAt(i); }
    if i :| 0 <= i < |SMALLS| && SMALLS[i] == c as char { SmallAt(i); }
    if i :| 0 <= i < |DIGITS| && DIGITS[i] == c as char { DigitAt(i); }
  }
}
