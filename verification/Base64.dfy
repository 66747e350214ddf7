/** Base64 as in `AdProtocolBase.h`, on byte buffers. */
module Base64 {
  import opened Bytes

  const AD_FAILURE := -1
  const PAD: byte := 61

  type sextet = x: nat | x < 64

  // ---------- RFC 4648, section 4 ----------

  /** Table 1 of the standard: A-Z, a-z, 0-9, + and /. */
  function Alphabet(v: sextet): byte {
    if v < 26 then 65 + v
    else if v < 52 then 97 + (v - 26)
    else if v < 62 then 48 + (v - 52)
    else if v == 62 then 43
    else 47
  }

  /** Table 1 of the standard as a text. */
  const STANDARD := CAPITALS + SMALLS + DIGITS + "+/"

  lemma AlphabetIs(v: sextet)
    ensures |STANDARD| == 64 && Alphabet(v) == STANDARD[v] as int
  {
    assert |CAPITALS| == 26 && |SMALLS| == 26 && |DIGITS| == 10 && |"+/"| == 2;
    if v < 26 {
      CapitalAt(v);
    } else if v < 52 {
      SmallAt(v - 26);
    } else if v < 62 {
      DigitAt(v - 52);
    }
    hide CAPITALS, SMALLS, DIGITS;
    assert "+/"[0] as int == 43 && "+/"[1] as int == 47;
  }

  /** The four 6-bit digits of a 24-bit group. */
  function Digit(group: nat, k: nat): sextet
    requires k < 4
  {
    (if k == 0 then group / 0x4_0000 else if k == 1 then group / 0x1000 else if k == 2 then group / 0x40
     else group) % 64
  }

  function Group(a: byte, b: byte, c: byte): nat {
    0x1_0000 * a as int + 0x100 * b as int + c as int
  }

  /** One group of up to three bytes, filled with zero bits and padded. */
  function GroupText(s: seq<byte>): (t: seq<byte>)
    requires 1 <= |s| <= 3
    ensures |t| == 4
  {
    var g := Group(s[0], if |s| > 1 then s[1] else 0, if |s| > 2 then s[2] else 0);
    [Alphabet(Digit(g, 0)), Alphabet(Digit(g, 1)),
     if |s| > 1 then Alphabet(Digit(g, 2)) else PAD, if |s| > 2 then Alphabet(Digit(g, 3)) else PAD]
  }

  function Text(s: seq<byte>): seq<byte> {
    if s == [] then []
    else if |s| < 3 then GroupText(s)
    else GroupText(s[..3]) + Text(s[3..])
  }

  /** Four characters for every three bytes begun. */
  lemma {:induction false} TextLength(s: seq<byte>)
    ensures |Text(s)| == 4 * ((|s| + 2) / 3)
  {
    if |s| >= 3 {
      TextLength(s[3..]);
      assert (|s| - 3 + 2) / 3 == (|s| + 2) / 3 - 1;
    }
  }

  /** The weights of the four digits of a group. */
  const SIXES: seq<nat> := [0x4_0000, 0x1000, 0x40, 1]

  /** A digit of the 24 bits of three bytes, the first byte first. */
  function DigitOf(a: byte, b: byte, c: byte, k: nat): sextet
    requires k < 4
  {
    (0x1_0000 * a as int + 0x100 * b as int + c as int) / SIXES[k] % 64
  }

  function ByteAt(s: seq<byte>, i: nat): byte {
    if i < |s| then s[i] else 0
  }

  /** The character that the standard's table gives for a digit. */
  function Standard(v: sextet): byte {
    AlphabetIs(v);
    STANDARD[v] as int
  }

  lemma GroupTextIs(s: seq<byte>, k: nat)
    requires 1 <= |s| <= 3 && k < 4
    ensures GroupText(s)[k]
         == if k <= |s| then Standard(DigitOf(s[0], ByteAt(s, 1), ByteAt(s, 2), k)) else '=' as int
  {
    AlphabetIs(DigitOf(s[0], ByteAt(s, 1), ByteAt(s, 2), k));
    hide STANDARD, Alphabet;
    assert Digit(Group(s[0], ByteAt(s, 1), ByteAt(s, 2)), k) == DigitOf(s[0], ByteAt(s, 1), ByteAt(s, 2), k);
  }

  /** Each character in terms of the standard's table: the digit of its three bytes, or the padding where a byte is
      missing. */
  lemma {:induction false} TextIs(s: seq<byte>, q: nat, k: nat)
    requires 3 * q < |s| && k < 4
    ensures 4 * q + k < |Text(s)|
    ensures Text(s)[4 * q + k] == if 3 * q + k <= |s|
      then Standard(DigitOf(s[3 * q], ByteAt(s, 3 * q + 1), ByteAt(s, 3 * q + 2), k)) else '=' as int
    decreases q
  {
    hide Standard, GroupText, DigitOf;
    if |s| < 3 {
      GroupTextIs(s, k);
    } else if q == 0 {
      GroupTextIs(s[..3], k);
    } else {
      TextIs(s[3..], q - 1, k);
      assert ByteAt(s[3..], 3 * q - 2) == ByteAt(s, 3 * q + 1) && ByteAt(s[3..], 3 * q - 1) == ByteAt(s, 3 * q + 2);
    }
  }

  // ---------- encoding ----------

  lemma Digits(a: nat, b: nat, c: nat)
    requires a < 0x100 && b < 0x100 && c < 0x100
    ensures var g := 0x1_0000 * a + 0x100 * b + c;
      && g / 0x4_0000 % 64 == a / 4 && g / 0x1000 % 64 == a % 4 * 16 + b / 16
      && g / 0x40 % 64 == b % 16 * 4 + c / 64
  {
    FirstDigit(a, 0x100 * b + c);
    SecondDigit(a, b, c);
    ThirdDigit(a, b, c);
  }

  lemma FirstDigit(a: nat, r: nat)
    requires a < 0x100 && r < 0x1_0000
    ensures (0x1_0000 * a + r) / 0x4_0000 == a / 4
  {
  }

  lemma SecondDigit(a: nat, b: nat, c: nat)
    requires b < 0x100 && c < 0x100
    ensures (0x1_0000 * a + 0x100 * b + c) / 0x1000 % 64 == a % 4 * 16 + b / 16
  {
    assert (0x1_0000 * a + 0x100 * b + c) / 0x1000 == 16 * a + b / 16;
    assert 16 * a == 64 * (a / 4) + 16 * (a % 4);
  }

  lemma ThirdDigit(a: nat, b: nat, c: nat)
    requires c < 0x100
    ensures (0x1_0000 * a + 0x100 * b + c) / 0x40 % 64 == b % 16 * 4 + c / 64
  {
    Carry64(1024 * a + 4 * b, c);
    Mod64(1024 * a + 4 * b + c / 64, 16 * a + b / 16, b % 16 * 4 + c / 64);
  }

  lemma Carry64(m: nat, c: nat)
    ensures (64 * m + c) / 64 == m + c / 64
  {
  }

  lemma Mod64(x: nat, q: nat, r: nat)
    requires x == 64 * q + r && r < 64
    ensures x % 64 == r
  {
  }

  lemma FourthDigit(a: nat, b: nat, c: nat)
    ensures (0x1_0000 * a + 0x100 * b + c) % 64 == c % 64
  {
    var m := 1024 * a + 4 * b;
    assert 0x1_0000 * a + 0x100 * b + c == 64 * m + c;
    Carry64(m, c);
  }

  /** The four characters of a full group, as the code takes them from the bytes. */
  lemma FullGroup(a: byte, b: byte, c: byte)
    ensures GroupText([a, b, c])
         == [Alphabet(a / 4), Alphabet(a % 4 * 16 + b / 16), Alphabet(b % 16 * 4 + c / 64), Alphabet(c % 64)]
  {
    hide Alphabet;
    Digits(a, b, c);
    FourthDigit(a, b, c);
  }

  lemma OneByte(a: byte)
    ensures GroupText([a]) == [Alphabet(a / 4), Alphabet(a % 4 * 16), PAD, PAD]
  {
    FullGroup(a, 0, 0);
  }

  lemma TwoBytes(a: byte, b: byte)
    ensures GroupText([a, b]) == [Alphabet(a / 4), Alphabet(a % 4 * 16 + b / 16), Alphabet(b % 16 * 4), PAD]
  {
    FullGroup(a, b, 0);
  }

  method Put4(dst: array<byte>, pos: nat, a: byte, b: byte, c: byte, d: byte)
    requires pos + 4 <= dst.Length
    modifies dst
    ensures dst[..pos + 4] == old(dst[..pos]) + [a, b, c, d]
    ensures forall k :: pos + 4 <= k < dst.Length ==> dst[k] == old(dst[k])
  {
    dst[pos] := a;
    dst[pos + 1] := b;
    dst[pos + 2] := c;
    dst[pos + 3] := d;
  }

  lemma TextStep(before: seq<byte>, s: seq<byte>, p: nat)
    requires p + 3 <= |s|
    ensures before + Text(s[p..])
         == before + [Alphabet(s[p] / 4), Alphabet(s[p] % 4 * 16 + s[p + 1] / 16),
                      Alphabet(s[p + 1] % 16 * 4 + s[p + 2] / 64), Alphabet(s[p + 2] % 64)] + Text(s[p + 3..])
  {
    hide Alphabet;
    assert s[p..][..3] == [s[p], s[p + 1], s[p + 2]] && s[p..][3..] == s[p + 3..];
    FullGroup(s[p], s[p + 1], s[p + 2]);
  }

  lemma TextEnd(s: seq<byte>, p: nat)
    requires p <= |s| < p + 3
    ensures Text(s[p..]) ==
      if |s| == p then []
      else if |s| == p + 1 then [Alphabet(s[p] / 4), Alphabet(s[p] % 4 * 16), PAD, PAD]
      else [Alphabet(s[p] / 4), Alphabet(s[p] % 4 * 16 + s[p + 1] / 16), Alphabet(s[p + 1] % 16 * 4), PAD]
  {
    hide Alphabet;
    if |s| == p + 1 {
      assert s[p..] == [s[p]];
      OneByte(s[p]);
    } else if |s| == p + 2 {
      assert s[p..] == [s[p], s[p + 1]];
      TwoBytes(s[p], s[p + 1]);
    }
  }

  /** What the size test asks for is never less than what is written. */
  lemma SizeTestSuffices(n: nat)
    ensures 4 * ((n + 2) / 3) + 1 <= (n + 3 - n % 3) * 4 / 3 + 1 == 4 * (n / 3 + 1) + 1
  {
    assert n + 3 - n % 3 == 3 * (n / 3 + 1);
  }

  /** The loop over full groups. */
  method EncodeGroups(src: seq<byte>, dst: array<byte>) returns (p: nat, pos: nat)
    requires 4 * (|src| / 3 + 1) + 1 <= dst.Length
    modifies dst
    ensures p <= |src| < p + 3 && pos + 5 <= dst.Length && pos == p / 3 * 4
    ensures dst[..pos] + Text(src[p..]) == Text(src)
    ensures forall k :: pos <= k < dst.Length ==> dst[k] == old(dst[k])
  {
    hide Alphabet, Text;
    p, pos := 0, 0;
    assert src[0..] == src;
    while |src| - p >= 3
      invariant p <= |src| && p % 3 == 0 && pos == p / 3 * 4
      invariant dst[..pos] + Text(src[p..]) == Text(src)
      invariant forall k :: pos <= k < dst.Length ==> dst[k] == old(dst[k])
    {
      Room(p, |src|);
      TextStep(dst[..pos], src, p);
      Put4(dst, pos, Alphabet(src[p] / 4), Alphabet(src[p] % 4 * 16 + src[p + 1] / 16),
           Alphabet(src[p + 1] % 16 * 4 + src[p + 2] / 64), Alphabet(src[p + 2] % 64));
      p, pos := p + 3, pos + 4;
    }
    Room(p, |src|);
  }

  lemma Room(p: nat, n: nat)
    requires p <= n && p % 3 == 0
    ensures p / 3 * 4 + 5 <= 4 * (n / 3 + 1) + 1 && (p + 3) / 3 * 4 == p / 3 * 4 + 4
  {
  }

  /** -1 if the size test fails or there is no buffer; otherwise the text, a zero after it, and nothing else is
      written. */
  method BaseEncode(src: seq<byte>, dst: array?<byte>, iDst: int) returns (len: int)
    requires dst != null ==> iDst <= dst.Length
    modifies dst
    ensures (|src| + 3 - |src| % 3) * 4 / 3 + 1 > iDst || dst == null ==>
      len == AD_FAILURE && (dst != null ==> dst[..] == old(dst[..]))
    ensures (|src| + 3 - |src| % 3) * 4 / 3 + 1 <= iDst && dst != null ==>
      len == |Text(src)| && len + 1 <= iDst && dst[..len] == Text(src) && dst[len] == 0
      && forall k :: len < k < dst.Length ==> dst[k] == old(dst[k])
  {
    hide Alphabet, Text;
    SizeTestSuffices(|src|);
    TextLength(src);
    if (|src| + 3 - |src| % 3) * 4 / 3 + 1 > iDst || dst == null {
      return AD_FAILURE;
    }
    var p, pos := EncodeGroups(src, dst);
    TextEnd(src, p);
    if |src| - p != 0 {
      if |src| - p == 1 {
        Put4(dst, pos, Alphabet(src[p] / 4), Alphabet(src[p] % 4 * 16), PAD, PAD);
      } else {
        Put4(dst, pos, Alphabet(src[p] / 4), Alphabet(src[p] % 4 * 16 + src[p + 1] / 16),
             Alphabet(src[p + 1] % 16 * 4), PAD);
      }
      pos := pos + 4;
    }
    assert dst[..pos] == Text(src);
    len := pos;
    dst[pos] := 0;
  }

  // ---------- decoding ----------

  /** The digit of a character; everything outside the alphabet counts as 0. */
  function Value(c: byte): sextet {
    if 65 <= c <= 90 then c - 65
    else if 97 <= c <= 122 then c - 97 + 26
    else if 48 <= c <= 57 then c - 48 + 52
    else if c == 43 then 62
    else if c == 47 then 63
    else 0
  }

  lemma ValueOfAlphabet(v: sextet)
    ensures Value(Alphabet(v)) == v && Alphabet(v) != PAD && Alphabet(v) != 0
  {
  }

  /** A character of the table has its position as value, every other 0. */
  lemma ValueIs(c: byte)
    ensures c as char in STANDARD ==> STANDARD[Value(c)] == c as char
    ensures c as char !in STANDARD ==> Value(c) == 0
  {
    AlphabetIs(Value(c));
    assert Value(c) != 0 ==> Alphabet(Value(c)) == c;
    if c as char in STANDARD {
      var i :| 0 <= i < 64 && STANDARD[i] == c as char;
      AlphabetIs(i);
      ValueOfAlphabet(i);
    }
  }

  /** The lookup table: only the zero character is marked as no character. */
  function TableOf(c: byte): byte {
    if c == 0 then 0x80 else Value(c)
  }

  method BuildTable() returns (table: array<byte>)
    ensures fresh(table) && table.Length == 256 && forall c :: 0 <= c < 256 ==> table[c] == TableOf(c)
  {
    table := new byte[256] (_ => 0);
    table[0] := 0x80;
    for i := 0 to 64
      invariant forall c :: 0 <= c < 256 ==>
        table[c] == if c == 0 then 0x80 else if Value(c) < i && Alphabet(Value(c)) == c then Value(c) else 0
    {
      ValueOfAlphabet(i);
      table[Alphabet(i)] := i;
    }
    table[PAD] := 0;
  }

  /** The characters that the decoder looks at. */
  function Kept(src: seq<byte>): seq<byte> {
    if src == [] then []
    else Kept(src[..|src| - 1]) + if src[|src| - 1] == 0 then [] else [src[|src| - 1]]
  }

  /** Three bytes from four characters, cut to eight bits each. */
  function Triple(a: byte, b: byte, c: byte, d: byte): seq<byte> {
    [(Value(a) * 4 + Value(b) / 16) % 0x100, (Value(b) * 16 % 0x100 + Value(c) / 4) % 0x100,
     (Value(c) * 64 % 0x100 + Value(d)) % 0x100]
  }

  /** Four digits are 24 bits, which three bytes hold, the first byte first; this holds for any characters. */
  lemma TripleIs(a: byte, b: byte, c: byte, d: byte)
    ensures var g := 0x4_0000 * Value(a) as int + 0x1000 * Value(b) as int + 0x40 * Value(c) as int + Value(d) as int;
      Triple(a, b, c, d) == [g / 0x1_0000, g / 0x100 % 0x100, g % 0x100]
  {
    hide Value;
    BitsOfTriple(Value(a), Value(b), Value(c), Value(d));
  }

  lemma BitsOfTriple(a: sextet, b: sextet, c: sextet, d: sextet)
    ensures var g := 0x4_0000 * a as int + 0x1000 * b as int + 0x40 * c as int + d as int;
      && (a * 4 + b / 16) % 0x100 == g / 0x1_0000 && (b * 16 % 0x100 + c / 4) % 0x100 == g / 0x100 % 0x100
      && (c * 64 % 0x100 + d) % 0x100 == g % 0x100
  {
    var p, q, r, s := b / 16, b % 16, c / 4, c % 4;
    PartsOfTriple(a, p, q, r, s, d);
    assert b == 16 * p + q && c == 4 * r + s;
  }

  lemma PartsOfTriple(a: nat, p: nat, q: nat, r: nat, s: nat, d: nat)
    requires a < 64 && p < 4 && q < 16 && r < 16 && s < 4 && d < 64
    ensures var g := 0x4_0000 * a + 0x1000 * (16 * p + q) + 0x40 * (4 * r + s) + d;
      && (a * 4 + p) % 0x100 == g / 0x1_0000 && ((16 * p + q) * 16 % 0x100 + r) % 0x100 == g / 0x100 % 0x100
      && ((4 * r + s) * 64 % 0x100 + d) % 0x100 == g % 0x100
  {
    var x, y, z := 4 * a + p, 16 * q + r, 64 * s + d;
    assert 0x4_0000 * a + 0x1000 * (16 * p + q) + 0x40 * (4 * r + s) + d == 0x1_0000 * x + 0x100 * y + z;
    ThreeBytes(x, y, z);
    LowPart(p, 16 * q);
    LowPart(r, 64 * s);
    assert (16 * p + q) * 16 == 0x100 * p + 16 * q && (4 * r + s) * 64 == 0x100 * r + 64 * s;
  }

  lemma LowPart(m: nat, x: nat)
    requires x < 0x100
    ensures (0x100 * m + x) % 0x100 == x
  {
  }

  lemma ThreeBytes(x: nat, y: nat, z: nat)
    requires x < 0x100 && y < 0x100 && z < 0x100
    ensures var g := 0x1_0000 * x + 0x100 * y + z;
      g / 0x1_0000 == x && g / 0x100 % 0x100 == y && g % 0x100 == z
  {
    var g := 0x1_0000 * x + 0x100 * y + z;
    assert g / 0x100 == 0x100 * x + y;
  }

  function Triples(k: seq<byte>): (t: seq<byte>)
  {
    if |k| < 4 then [] else Triple(k[0], k[1], k[2], k[3]) + Triples(k[4..])
  }

  lemma {:induction false} TriplesLength(k: seq<byte>)
    ensures |Triples(k)| == |k| / 4 * 3
  {
    if |k| >= 4 {
      TriplesLength(k[4..]);
      assert |k| / 4 == (|k| - 4) / 4 + 1;
    }
  }

  /** How many of the last bytes the padding cancels. */
  function Cut(k: seq<byte>): nat {
    if |k| < 4 then 0 else if k[|k| - 2] == PAD then 2 else if k[|k| - 1] == PAD then 1 else 0
  }

  function Decoded(src: seq<byte>): seq<byte> {
    var k := Kept(src);
    TriplesLength(k);
    Triples(k)[..|k| / 4 * 3 - Cut(k)]
  }

  lemma {:induction false} TriplesWait(k: seq<byte>, c: byte)
    requires |k| % 4 != 3
    ensures Triples(k + [c]) == Triples(k)
  {
    if |k| >= 4 {
      assert (k + [c])[4..] == k[4..] + [c];
      TriplesWait(k[4..], c);
    }
  }

  lemma {:induction false} TriplesNext(k: seq<byte>, c: byte)
    requires |k| % 4 == 3
    ensures Triples(k + [c]) == Triples(k) + Triple(k[|k| - 3], k[|k| - 2], k[|k| - 1], c)
  {
    hide Triple;
    if |k| >= 4 {
      var r := k[4..];
      assert (k + [c])[4..] == r + [c] && |r| % 4 == 3;
      TriplesNext(r, c);
      assert r[|r| - 3] == k[|k| - 3] && r[|r| - 2] == k[|k| - 2] && r[|r| - 1] == k[|k| - 1];
    } else {
      assert (k + [c])[4..] == [] && |k| == 3;
    }
  }

  lemma {:induction false} KeptGrows(src: seq<byte>, i: nat)
    requires i <= |src|
    ensures |Kept(src[..i])| <= |Kept(src)|
    decreases |src| - i
  {
    if i < |src| {
      KeptStep(src, i);
      KeptGrows(src, i + 1);
    } else {
      assert src[..i] == src;
    }
  }

  lemma KeptStep(src: seq<byte>, i: nat)
    requires i < |src|
    ensures Kept(src[..i + 1]) == if src[i] == 0 then Kept(src[..i]) else Kept(src[..i]) + [src[i]]
  {
    assert src[..i + 1][..i] == src[..i];
  }

  method CountKept(src: seq<byte>, table: array<byte>) returns (iCount: nat)
    requires table.Length == 256 && forall c :: 0 <= c < 256 ==> table[c] == TableOf(c)
    ensures iCount == |Kept(src)|
  {
    iCount := 0;
    for i := 0 to |src|
      invariant iCount == |Kept(src[..i])|
    {
      KeptStep(src, i);
      if 0x80 != table[src[i]] {
        iCount := iCount + 1;
      }
    }
    assert src[..|src|] == src;
  }

  /** After the characters `k`: whole blocks are written, the others wait, and the last ones are still there. */
  ghost predicate Fed(k: seq<byte>, text: seq<byte>, chars: seq<byte>, block: seq<byte>, iCount: nat, pos: nat) {
    && |chars| == |block| == 4 && iCount == |k| % 4 && pos == |k| / 4 * 3 <= |text| && text[..pos] == Triples(k)
    && (forall j :: 0 <= j < iCount ==> chars[j] == k[|k| - iCount + j] && block[j] == Value(chars[j]))
    && (iCount == 0 && |k| > 0 ==> chars[2] == k[|k| - 2] && chars[3] == k[|k| - 1])
  }

  lemma FedWait(k: seq<byte>, text: seq<byte>, chars: seq<byte>, block: seq<byte>, iCount: nat, pos: nat, c: byte)
    requires Fed(k, text, chars, block, iCount, pos) && iCount < 3
    ensures Fed(k + [c], text, chars[iCount := c], block[iCount := Value(c)], iCount + 1, pos)
  {
    hide Value;
    TriplesWait(k, c);
  }

  lemma FedBlock(k: seq<byte>, text: seq<byte>, chars: seq<byte>, block: seq<byte>, iCount: nat, pos: nat, c: byte,
                 text': seq<byte>)
    requires Fed(k, text, chars, block, iCount, pos) && iCount == 3 && pos + 3 <= |text'|
    requires text'[..pos] == text[..pos]
    requires text'[pos] == (block[0] as int * 4 + block[1] as int / 16) % 0x100
    requires text'[pos + 1] == (block[1] as int * 16 % 0x100 + block[2] as int / 4) % 0x100
    requires text'[pos + 2] == (block[2] as int * 64 % 0x100 + Value(c) as int) % 0x100
    ensures Fed(k + [c], text', chars[3 := c], block[3 := Value(c)], 0, pos + 3)
  {
    hide Value;
    TriplesNext(k, c);
    var n := |k|;
    assert chars[0] == k[n - 3] && chars[1] == k[n - 2] && chars[2] == k[n - 1];
    assert text'[..pos + 3] == text[..pos] + [text'[pos], text'[pos + 1], text'[pos + 2]];
    assert (n + 1) % 4 == 0 && (n + 1) / 4 * 3 == n / 4 * 3 + 3;
  }

  /** One character that is kept. */
  method Feed(dst: array<byte>, sIn: array<byte>, sBlock: array<byte>, iCount0: nat, pos0: nat, c: byte, tmp: byte,
              ghost k: seq<byte>)
    returns (iCount: nat, pos: nat)
    requires dst != sIn && dst != sBlock && sIn != sBlock && tmp == Value(c)
    requires Fed(k, dst[..], sIn[..], sBlock[..], iCount0, pos0) && (|k| + 1) / 4 * 3 <= dst.Length
    modifies dst, sIn, sBlock
    ensures Fed(k + [c], dst[..], sIn[..], sBlock[..], iCount, pos)
    ensures forall j :: pos <= j < dst.Length ==> dst[j] == old(dst[j])
  {
    hide Value, Triples;
    ghost var text, chars, block := dst[..], sIn[..], sBlock[..];
    iCount, pos := iCount0, pos0;
    sIn[iCount] := c;
    sBlock[iCount] := tmp;
    assert sIn[..] == chars[iCount := c] && sBlock[..] == block[iCount := tmp];
    iCount := iCount + 1;
    if 4 == iCount {
      dst[pos] := (sBlock[0] as int * 4 + sBlock[1] as int / 16) % 0x100;
      dst[pos + 1] := (sBlock[1] as int * 16 % 0x100 + sBlock[2] as int / 4) % 0x100;
      dst[pos + 2] := (sBlock[2] as int * 64 % 0x100 + sBlock[3] as int) % 0x100;
      FedBlock(k, text, chars, block, iCount0, pos, c, dst[..]);
      pos := pos + 3;
      iCount := 0;
    } else {
      FedWait(k, text, chars, block, iCount0, pos, c);
    }
  }

  /** -1 if the characters are not a multiple of four, do not fit, or there is no buffer; otherwise the
      bytes they stand for, and nothing beyond the cells of whole blocks is written. */
  method BaseDecode(src: seq<byte>, dst: array?<byte>, iDst: int) returns (len: int)
    requires dst != null ==> iDst <= dst.Length
    modifies dst
    ensures var n := |Kept(src)|;
      if n % 4 != 0 || n / 4 * 3 > iDst || dst == null then
        len == AD_FAILURE && (dst != null ==> dst[..] == old(dst[..]))
      else
        len == |Decoded(src)| && len <= dst.Length && dst[..len] == Decoded(src)
        && forall j :: n / 4 * 3 <= j < dst.Length ==> dst[j] == old(dst[j])
  {
    hide Value, Triples, Kept;
    var table := BuildTable();
    var n := CountKept(src, table);
    if n % 4 != 0 || n / 4 * 3 > iDst || dst == null {
      return AD_FAILURE;
    }
    var sIn, sBlock := new byte[4] (_ => 0), new byte[4] (_ => 0);
    var pos: nat := 0;
    var iCount: nat := 0;
    FedNone(src, dst[..], sIn[..], sBlock[..]);
    for i := 0 to |src|
      invariant Fed(Kept(src[..i]), dst[..], sIn[..], sBlock[..], iCount, pos)
      invariant forall c :: 0 <= c < 256 ==> table[c] == TableOf(c)
      invariant forall j :: pos <= j < dst.Length ==> dst[j] == old(dst[j])
    {
      KeptStep(src, i);
      KeptGrows(src, i + 1);
      var tmp := table[src[i]];
      if 0x80 != tmp {
        iCount, pos := Feed(dst, sIn, sBlock, iCount, pos, src[i], tmp, Kept(src[..i]));
      }
    }
    assert src[..|src|] == src;
    len := pos;
    if pos > 0 {
      if sIn[2] == PAD {
        len := len - 2;
      } else if sIn[3] == PAD {
        len := len - 1;
      }
    }
  }

  lemma FedNone(src: seq<byte>, text: seq<byte>, chars: seq<byte>, block: seq<byte>)
    requires |chars| == |block| == 4
    ensures Fed(Kept(src[..0]), text, chars, block, 0, 0)
  {
  }

  // ---------- the round trip ----------

  lemma {:induction false} TriplesText(s: seq<byte>)
    ensures s <= Triples(Text(s))
  {
    if s == [] {
    } else if |s| < 3 {
      GroupBack(s);
    } else {
      var g, rest := GroupText(s[..3]), Text(s[3..]);
      GroupBack(s[..3]);
      assert (g + rest)[4..] == rest;
      TriplesText(s[3..]);
      assert s == s[..3] + s[3..];
    }
  }

  lemma GroupBack(s: seq<byte>)
    requires 1 <= |s| <= 3
    ensures var g := GroupText(s); s <= Triple(g[0], g[1], g[2], g[3])
    ensures var g := GroupText(s);
      (g[2] == PAD <==> |s| == 1) && (g[3] == PAD <==> |s| < 3)
      && forall i :: 0 <= i < 4 ==> g[i] != 0
  {
    hide Alphabet, Triple, GroupText;
    ValueOfAlphabet(s[0] / 4);
    if |s| == 1 {
      OneByte(s[0]);
      assert s == [s[0]];
      ValueOfAlphabet(s[0] % 4 * 16);
      TripleBack(GroupText(s), s[0], 0, 0);
    } else if |s| == 2 {
      TwoBytes(s[0], s[1]);
      assert s == [s[0], s[1]];
      ValueOfAlphabet(s[0] % 4 * 16 + s[1] / 16);
      ValueOfAlphabet(s[1] % 16 * 4);
      TripleBack(GroupText(s), s[0], s[1], 0);
    } else {
      FullGroup(s[0], s[1], s[2]);
      assert s == [s[0], s[1], s[2]];
      ValueOfAlphabet(s[0] % 4 * 16 + s[1] / 16);
      ValueOfAlphabet(s[1] % 16 * 4 + s[2] / 64);
      ValueOfAlphabet(s[2] % 64);
      TripleBack(GroupText(s), s[0], s[1], s[2]);
    }
  }

  /** Characters with the digits of a group give its three bytes. */
  lemma TripleBack(g: seq<byte>, a: byte, b: byte, c: byte)
    requires |g| == 4 && Value(g[0]) == a / 4 && Value(g[1]) == a % 4 * 16 + b / 16
    requires Value(g[2]) == b % 16 * 4 + c / 64 && Value(g[3]) == c % 64
    ensures Triple(g[0], g[1], g[2], g[3]) == [a, b, c]
  {
    hide Value;
    BackFirst(a, b);
    BackSecond(a, b, c);
    BackThird(b, c);
  }

  lemma BackFirst(a: nat, b: nat)
    requires a < 0x100 && b < 0x100
    ensures (a / 4 * 4 + (a % 4 * 16 + b / 16) / 16) % 0x100 == a
  {
    assert (a % 4 * 16 + b / 16) / 16 == a % 4;
  }

  lemma BackSecond(a: nat, b: nat, c: nat)
    requires a < 0x100 && b < 0x100 && c < 0x100
    ensures ((a % 4 * 16 + b / 16) * 16 % 0x100 + (b % 16 * 4 + c / 64) / 4) % 0x100 == b
  {
    Joined(a % 4, b / 16, b % 16, c / 64);
  }

  lemma Joined(hi: nat, q: nat, r: nat, s: nat)
    requires q < 16 && r < 16 && s < 4
    ensures ((hi * 16 + q) * 16 % 0x100 + (r * 4 + s) / 4) % 0x100 == 16 * q + r
  {
    assert (hi * 16 + q) * 16 == 0x100 * hi + 16 * q;
    assert (0x100 * hi + 16 * q) % 0x100 == 16 * q;
    assert (r * 4 + s) / 4 == r;
  }

  lemma BackThird(b: nat, c: nat)
    requires b < 0x100 && c < 0x100
    ensures ((b % 16 * 4 + c / 64) * 64 % 0x100 + c % 64) % 0x100 == c
  {
    JoinedLast(b % 16, c / 64, c % 64);
  }

  lemma JoinedLast(hi: nat, q: nat, r: nat)
    requires q < 4 && r < 64
    ensures ((hi * 4 + q) * 64 % 0x100 + r) % 0x100 == 64 * q + r
  {
    assert (hi * 4 + q) * 64 == 0x100 * hi + 64 * q;
    assert (0x100 * hi + 64 * q) % 0x100 == 64 * q;
  }

  lemma {:induction false} KeptAll(t: seq<byte>)
    requires forall i :: 0 <= i < |t| ==> t[i] != 0
    ensures Kept(t) == t
  {
    if t != [] { KeptAll(t[..|t| - 1]); }
  }

  lemma {:induction false} TextNonZero(s: seq<byte>, i: nat)
    requires i < |Text(s)|
    ensures Text(s)[i] != 0
  {
    if |s| < 3 {
      GroupBack(s);
    } else {
      GroupBack(s[..3]);
      if i >= 4 { TextNonZero(s[3..], i - 4); }
    }
  }

  lemma GroupCut(s: seq<byte>)
    requires 1 <= |s| <= 3
    ensures Cut(GroupText(s)) == 3 - |s|
  {
    GroupBack(s);
    hide GroupText;
    assert |GroupText(s)| == 4;
  }

  /** A text ends in as many padding characters as its last group lacks bytes. */
  lemma {:induction false} TextCut(s: seq<byte>)
    ensures Cut(Text(s)) == (3 - |s| % 3) % 3
  {
    hide GroupText, Cut;
    if s == [] {
      CutOfNone();
    } else if |s| < 3 {
      GroupCut(s);
    } else {
      var g, rest := GroupText(s[..3]), Text(s[3..]);
      GroupCut(s[..3]);
      TextCut(s[3..]);
      TextLength(s[3..]);
      CutOfLast(g, rest);
      assert |s[3..]| == |s| - 3 && (|s| - 3) % 3 == |s| % 3;
      assert rest == [] ==> |s| == 3;
    }
  }

  lemma CutOfNone()
    ensures Cut([]) == 0
  {
  }

  lemma CutOfLast(g: seq<byte>, rest: seq<byte>)
    requires |g| == 4 && |rest| % 4 == 0
    ensures Cut(g + rest) == if rest == [] then Cut(g) else Cut(rest)
  {
    assert rest == [] ==> g + rest == g;
    assert rest != [] ==> |rest| >= 4;
  }

  lemma SizeBack(n: nat)
    ensures 4 * ((n + 2) / 3) / 4 * 3 - (3 - n % 3) % 3 == n
  {
    assert n == 3 * (n / 3) + n % 3;
  }

  /** Decoding gives back every byte string that was encoded; the decoder keeps all characters and
      asks for no more than three bytes for every three begun. */
  lemma RoundTrip(s: seq<byte>)
    ensures Decoded(Text(s)) == s
    ensures |Kept(Text(s))| % 4 == 0 && |Kept(Text(s))| / 4 * 3 == (|s| + 2) / 3 * 3
  {
    hide Text, Cut, Kept, Triples;
    TriplesText(s);
    forall i | 0 <= i < |Text(s)| ensures Text(s)[i] != 0 { TextNonZero(s, i); }
    KeptAll(Text(s));
    TriplesLength(Text(s));
    TextLength(s);
    TextCut(s);
    SizeBack(|s|);
  }
}
