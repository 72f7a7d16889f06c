/** The alphabets of the text codecs, as plugins/src/text_codecs.cpp and plugins/src/base64.c write them. */
module Alphabets {
  import opened Common
  import Base58
  import Base32
  import Base64
  import Ascii85

  const DIGITS: string := "0123456789"
  const UPPER: string := "ABCDEFGHIJKLMNOPQRSTUVWXYZ"
  const LOWER: string := "abcdefghijklmnopqrstuvwxyz"
  const UPPER58: string := "ABCDEFGHJKLMNPQRSTUVWXYZ"
  const LOWER58: string := "abcdefghijkmnopqrstuvwxyz"
  const PUNCTUATION: string := ".-:+=^!/*?&<>()[]{}@%$#"

  const BASE58: string := "123456789" + UPPER58 + LOWER58
  const BASE32: string := "ABCDEFGHIJKLMNOPQRSTUVWXYZ234567"
  const CROCKFORD: string := "0123456789ABCDEFGHJKMNPQRSTVWXYZ"
  const BASE64: string := UPPER + LOWER + DIGITS + "+/"
  const Z85: string := DIGITS + LOWER + UPPER + PUNCTUATION

  function At(s: string, i: int): int
    requires 0 <= i < |s|
  {
    s[i] as int
  }

  lemma DigitAt(i: nat)
    ensures |DIGITS| == 10 && (i < 10 ==> At(DIGITS, i) == 48 + i)
  {
  }

  lemma UpperAt(i: nat)
    ensures |UPPER| == 26 && (i < 26 ==> At(UPPER, i) == 65 + i)
  {
  }

  lemma LowerAt(i: nat)
    ensures |LOWER| == 26 && (i < 26 ==> At(LOWER, i) == 97 + i)
  {
  }

  lemma PunctuationAt(i: nat)
    ensures |PUNCTUATION| == 23 && (i < 23 ==> At(PUNCTUATION, i) == Ascii85.Punctuation(62 + i))
  {
  }

  lemma Upper58At(i: nat)
    ensures |UPPER58| == 24 && (i < 24 ==> At(UPPER58, i) == Base58.Symbol(9 + i))
  {
  }

  lemma Lower58At(i: nat)
    ensures |LOWER58| == 25 && (i < 25 ==> At(LOWER58, i) == Base58.Symbol(33 + i))
  {
  }

  lemma Base58Alphabet(d: nat)
    requires d < 58
    ensures |BASE58| == 58 && At(BASE58, d) == Base58.Symbol(d)
  {
    Upper58At(if d < 9 then 0 else d - 9);
    Lower58At(if d < 33 then 0 else d - 33);
    var a, b := UPPER58, LOWER58;
    if d >= 33 { assert BASE58[d] == b[d - 33]; } else if d >= 9 { assert BASE58[d] == a[d - 9]; }
  }

  lemma Base32Alphabet(d: nat)
    requires d < 32
    ensures |BASE32| == 32 && At(BASE32, d) == Base32.Symbol(d, false)
  {
  }

  lemma CrockfordAlphabet(d: nat)
    requires d < 32
    ensures |CROCKFORD| == 32 && At(CROCKFORD, d) == Base32.Symbol(d, true)
  {
  }

  /** The place of an element in a concatenation of four. */
  lemma InFour(a: string, b: string, c: string, e: string, d: nat)
    requires d < |a| + |b| + |c| + |e|
    ensures (a + b + c + e)[d] ==
            if d < |a| then a[d]
            else if d < |a| + |b| then b[d - |a|]
            else if d < |a| + |b| + |c| then c[d - |a| - |b|]
            else e[d - |a| - |b| - |c|]
  {
  }

  lemma Base64Alphabet(d: nat)
    requires d < 64
    ensures |BASE64| == 64 && At(BASE64, d) == Base64.Symbol(d)
  {
    var upper, lower, digits := UPPER, LOWER, DIGITS;
    UpperAt(d);
    LowerAt(if d < 26 then 0 else d - 26);
    DigitAt(if d < 52 then 0 else d - 52);
    InFour(upper, lower, digits, "+/", d);
  }

  lemma Z85Alphabet(d: nat)
    requires d < 85
    ensures |Z85| == 85 && At(Z85, d) == Ascii85.Symbol(d, true)
  {
    DigitAt(d);
    LowerAt(if d < 10 then 0 else d - 10);
    UpperAt(if d < 36 then 0 else d - 36);
    PunctuationAt(if d < 62 then 0 else d - 62);
    hide Ascii85.Punctuation;
    InFour(DIGITS, LOWER, UPPER, PUNCTUATION, d);
  }

  lemma Ascii85Alphabet(d: nat)
    requires d < 85
    ensures Ascii85.Symbol(d, false) == '!' as int + d <= 'u' as int
  {
  }
}
