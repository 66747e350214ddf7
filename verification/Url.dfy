/** URL encoding as in `AdProtocolBase.h`, on bytes. */
module Url {
  import opened Bytes

  const PLUS: byte := 43
  const PERCENT: byte := 37
  const SPACE: byte := 32

  predicate Digit(c: byte) { 48 <= c <= 57 }
  predicate Upper(c: byte) { 65 <= c <= 90 }
  predicate Lower(c: byte) { 97 <= c <= 122 }

  /** The unreserved characters of RFC 3986, section 2.3: letters, digits, and `-`, `.`, `_`, `~`. */
  predicate Unreserved(c: byte) {
    Digit(c) || Upper(c) || Lower(c) || c in {45, 46, 95, 126}
  }

  predicate UpperHex(c: byte) {
    Digit(c) || 65 <= c <= 70
  }

  function ToHex(x: byte): (h: byte)
    ensures x < 16 ==> UpperHex(h) && forall y :: FromHex(h, y) == x
    ensures x >= 16 ==> h == (x as int + 55) % 0x100
  {
    if x > 9 then (x as int + 55) % 0x100 else x + 48
  }

  /** `y` is what the variable holds before it is set: it is not set unless `x` is a letter or a digit. */
  function FromHex(x: byte, y: byte): byte {
    if Upper(x) then x - 65 + 10
    else if Lower(x) then x - 97 + 10
    else if Digit(x) then x - 48
    else y
  }

  function EncodeByte(c: byte): (t: seq<byte>)
    ensures 1 <= |t| <= 3
  {
    if Unreserved(c) then [c]
    else if c == SPACE then [PLUS]
    else [PERCENT, ToHex(c / 16), ToHex(c % 16)]
  }

  function Encoding(s: seq<byte>): seq<byte> {
    if s == [] then [] else EncodeByte(s[0]) + Encoding(s[1..])
  }

  /** A percent sign without two characters after it is dropped; the product is cut to a byte. */
  function Decoding(t: seq<byte>, y: byte): seq<byte> {
    if t == [] then []
    else if t[0] == PLUS then [SPACE] + Decoding(t[1..], y)
    else if t[0] != PERCENT then [t[0]] + Decoding(t[1..], y)
    else if |t| >= 3 then [(FromHex(t[1], y) as int * 16 + FromHex(t[2], y) as int) % 0x100] + Decoding(t[3..], y)
    else Decoding(t[1..], y)
  }

  /** The text is appended to what the destination holds. */
  method UrlEncode(str: seq<byte>, dst0: seq<byte>) returns (dst: seq<byte>)
    ensures dst == dst0 + Encoding(str)
  {
    hide Encoding, Unreserved, ToHex;
    dst := dst0;
    EncodingNone(str);
    for i := 0 to |str|
      invariant dst + Encoding(str[i..]) == dst0 + Encoding(str)
    {
      var c := str[i];
      ghost var before := dst;
      if Unreserved(c) {
        dst := dst + [c];
      } else if c == SPACE {
        dst := dst + [PLUS];
      } else {
        dst := dst + [PERCENT] + [ToHex(c / 16)] + [ToHex(c % 16)];
      }
      assert dst == before + EncodeByte(c);
      EncodingStep(before, str, i);
    }
  }

  lemma EncodingStep(before: seq<byte>, s: seq<byte>, i: nat)
    requires i < |s|
    ensures before + Encoding(s[i..]) == before + EncodeByte(s[i]) + Encoding(s[i + 1..])
  {
    assert s[i..][1..] == s[i + 1..];
  }

  lemma EncodingNone(s: seq<byte>)
    ensures s[0..] == s && Encoding(s[|s|..]) == []
  {
  }

  method UrlDecode(str: seq<byte>, dst0: seq<byte>, y: byte) returns (dst: seq<byte>)
    ensures dst == dst0 + Decoding(str, y)
  {
    hide Decoding, FromHex;
    dst := dst0;
    var i := 0;
    DecodingNone(str, y);
    while i < |str|
      invariant i <= |str| && dst + Decoding(str[i..], y) == dst0 + Decoding(str, y)
    {
      DecodingStep(dst, str, i, y);
      if str[i] == PLUS {
        dst := dst + [SPACE];
      } else if str[i] == PERCENT {
        if i + 2 < |str| {
          var high := FromHex(str[i + 1], y);
          var low := FromHex(str[i + 2], y);
          dst := dst + [(high as int * 16 + low as int) % 0x100];
          i := i + 2;
        }
      } else {
        dst := dst + [str[i]];
      }
      i := i + 1;
    }
  }

  lemma DecodingStep(before: seq<byte>, t: seq<byte>, i: nat, y: byte)
    requires i < |t|
    ensures before + Decoding(t[i..], y) ==
      if t[i] == PLUS then before + [SPACE] + Decoding(t[i + 1..], y)
      else if t[i] != PERCENT then before + [t[i]] + Decoding(t[i + 1..], y)
      else if i + 2 < |t| then
        before + [(FromHex(t[i + 1], y) as int * 16 + FromHex(t[i + 2], y) as int) % 0x100] + Decoding(t[i + 3..], y)
      else before + Decoding(t[i + 1..], y)
  {
    hide FromHex;
    assert t[i..][1..] == t[i + 1..];
    if i + 2 < |t| { assert t[i..][3..] == t[i + 3..]; }
  }

  lemma DecodingNone(t: seq<byte>, y: byte)
    ensures t[0..] == t && Decoding(t[|t|..], y) == []
  {
  }

  /** Decoding gives back every byte string that was encoded. */
  lemma {:induction false} RoundTrip(s: seq<byte>, y: byte)
    ensures Decoding(Encoding(s), y) == s
  {
    if s != [] {
      var e, rest := EncodeByte(s[0]), Encoding(s[1..]);
      assert (e + rest)[|e|..] == rest;
      RoundTrip(s[1..], y);
    }
  }

  /** Unreserved characters, plus signs and complete triplets with upper-case digits. */
  predicate WellFormed(t: seq<byte>) {
    t == [] ||
    (if t[0] == PERCENT then |t| >= 3 && UpperHex(t[1]) && UpperHex(t[2]) && WellFormed(t[3..])
     else (Unreserved(t[0]) || t[0] == PLUS) && WellFormed(t[1..]))
  }

  /** No triplet stands for a byte that has a shorter form. */
  predicate Shortest(t: seq<byte>)
    requires WellFormed(t)
  {
    t == [] ||
    (if t[0] == PERCENT then
       var c := (FromHex(t[1], 0) as int * 16 + FromHex(t[2], 0) as int) % 0x100;
       !Unreserved(c) && c != SPACE && Shortest(t[3..])
     else Shortest(t[1..]))
  }

  lemma {:induction false} EncodingWellFormed(s: seq<byte>)
    ensures WellFormed(Encoding(s)) && Shortest(Encoding(s))
  {
    if s != [] {
      var e, rest := EncodeByte(s[0]), Encoding(s[1..]);
      assert (e + rest)[|e|..] == rest;
      EncodingWellFormed(s[1..]);
      TripletOf(s[0]);
      hide FromHex, ToHex, UpperHex;
    }
  }

  /** The two digits of a byte. */
  lemma TripletOf(c: byte)
    ensures var h, l := ToHex(c / 16), ToHex(c % 16);
      UpperHex(h) && UpperHex(l) && (FromHex(h, 0) as int * 16 + FromHex(l, 0) as int) % 0x100 == c as int
  {
    assert FromHex(ToHex(c / 16), 0) == c / 16 && FromHex(ToHex(c % 16), 0) == c % 16;
    hide FromHex, ToHex;
    Nibbles(c as int / 16, c as int % 16);
  }

  lemma HexBack(h: byte, y: byte)
    requires UpperHex(h)
    ensures FromHex(h, y) == FromHex(h, 0) < 16 && ToHex(FromHex(h, y)) == h
  {
  }

  lemma TripletBack(h: byte, l: byte, y: byte)
    requires UpperHex(h) && UpperHex(l)
    ensures var c := (FromHex(h, y) as int * 16 + FromHex(l, y) as int) % 0x100;
      c == (FromHex(h, 0) as int * 16 + FromHex(l, 0) as int) % 0x100
      && (!Unreserved(c) && c != SPACE ==> EncodeByte(c) == [PERCENT, h, l])
  {
    HexBack(h, y);
    HexBack(l, y);
    hide FromHex, ToHex, UpperHex, Unreserved;
    Nibbles(FromHex(h, 0) as int, FromHex(l, 0) as int);
  }

  lemma Nibbles(a: nat, b: nat)
    requires a < 16 && b < 16
    ensures (a * 16 + b) % 0x100 == a * 16 + b && (a * 16 + b) / 16 == a && (a * 16 + b) % 16 == b
  {
  }

  /** The encodings are exactly the well-formed texts in shortest form: encoding what such a text stands for gives it
      back. */
  lemma {:induction false} ShortestRoundTrip(t: seq<byte>, y: byte)
    requires WellFormed(t) && Shortest(t)
    ensures Encoding(Decoding(t, y)) == t
  {
    if t != [] {
      if t[0] == PERCENT {
        TripletBack(t[1], t[2], y);
        ShortestRoundTrip(t[3..], y);
        EncodingCons((FromHex(t[1], y) as int * 16 + FromHex(t[2], y) as int) % 0x100, Decoding(t[3..], y));
        hide FromHex, EncodeByte, Encoding, UpperHex, Unreserved;
        assert t == [t[0], t[1], t[2]] + t[3..];
      } else {
        ShortestRoundTrip(t[1..], y);
        EncodingCons(if t[0] == PLUS then SPACE else t[0], Decoding(t[1..], y));
        hide FromHex, Encoding, UpperHex;
        assert t == [t[0]] + t[1..];
      }
    }
  }

  lemma EncodingCons(c: byte, rest: seq<byte>)
    ensures Encoding([c] + rest) == EncodeByte(c) + Encoding(rest)
  {
    assert ([c] + rest)[1..] == rest;
  }

  // ---------- in characters ----------

  /** The unreserved characters of RFC 3986, section 2.3. */
  const UNRESERVED := CAPITALS + SMALLS + DIGITS + "-._~"

  const HEX := "0123456789ABCDEF"
  const LOWER_HEX := "0123456789abcdef"

  lemma UnreservedIs(c: byte)
    ensures Unreserved(c) <==> c as char in UNRESERVED
  {
    LettersAre(c);
    hide CAPITALS, SMALLS, DIGITS;
    assert c as char in "-._~" <==> c in {45, 46, 95, 126} by {
      assert "-._~"[0] == 45 as char && "-._~"[1] == 46 as char && "-._~"[2] == 95 as char && "-._~"[3] == 126 as char;
    }
    InFour(CAPITALS, SMALLS, DIGITS, "-._~", c as char);
  }

  lemma InFour(a: string, b: string, c: string, d: string, x: char)
    ensures x in a + b + c + d <==> x in a || x in b || x in c || x in d
  {
  }

  /** Both cases of a hexadecimal digit have its value, and the upper case stands for it. */
  lemma HexIs(x: byte, y: byte)
    requires x < 16
    ensures ToHex(x) == HEX[x] as int
    ensures FromHex(HEX[x] as int, y) == x && FromHex(LOWER_HEX[x] as int, y) == x
  {
  }

  /** What a byte is encoded as. */
  lemma EncodeByteIs(c: byte)
    ensures EncodeByte(c) ==
      if c as char in UNRESERVED then [c]
      else if c as char == ' ' then ['+' as int]
      else ['%' as int, HEX[c / 16] as int, HEX[c % 16] as int]
  {
    UnreservedIs(c);
    HexIs(c / 16, 0);
    HexIs(c % 16, 0);
    hide Unreserved, ToHex, UNRESERVED, HEX;
  }

  /** A triplet of hexadecimal digits in either case stands for its byte. */
  lemma TripletIs(a: byte, b: byte, h: char, l: char, rest: seq<byte>, y: byte)
    requires a < 16 && b < 16 && h in {HEX[a], LOWER_HEX[a]} && l in {HEX[b], LOWER_HEX[b]}
    ensures h as int < 0x100 && l as int < 0x100
    ensures Decoding(['%' as int, h as int, l as int] + rest, y) == [16 * a as int + b as int] + Decoding(rest, y)
  {
    HexBounds(a);
    HexBounds(b);
    HexIs(a, y);
    HexIs(b, y);
    hide HEX, LOWER_HEX, FromHex;
    var t: seq<byte> := ['%' as int, h as int, l as int] + rest;
    assert t[3..] == rest;
  }

  lemma HexBounds(x: byte)
    requires x < 16
    ensures HEX[x] as int < 0x100 && LOWER_HEX[x] as int < 0x100
  {
  }
}
