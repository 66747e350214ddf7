/** The streaming part of `md5.c`: a message is fed in pieces of any size, held back up to the next
    whole block, padded and finished. The compression of one block is a parameter. */
module Md5 {

  import opened Bytes
  import opened Division

  type word = x: nat | x < 0x1_0000_0000
  type Words = s: seq<word> | |s| == 4 witness [0, 0, 0, 0]

  /** `md5_process`: four words and a block of 64 bytes give four words. */
  type Compression = (Words, seq<byte>) -> Words

  const INIT: Words := [0x67452301, 0xefcdab89, 0x98badcfe, 0x10325476]

  function Compress(f: Compression, h: Words, block: seq<byte>): Words {
    f(h, block)
  }

  /** The compression of all whole blocks of `m`, one after the other. */
  function Fold(f: Compression, h: Words, m: seq<byte>): Words
    decreases |m|
  {
    if |m| < 64 then h else Fold(f, Compress(f, h, m[..64]), m[64..])
  }

  /** The bytes after the last whole block. */
  function Tail(m: seq<byte>): seq<byte> {
    m[|m| - |m| % 64..]
  }

  lemma {:induction false} FoldConcat(f: Compression, h: Words, a: seq<byte>, b: seq<byte>)
    requires |a| % 64 == 0
    ensures Fold(f, h, a + b) == Fold(f, Fold(f, h, a), b)
    decreases |a|
  {
    if |a| == 0 {
      assert a + b == b;
    } else {
      assert (a + b)[..64] == a[..64] && (a + b)[64..] == a[64..] + b;
      FoldConcat(f, Compress(f, h, a[..64]), a[64..], b);
    }
  }

  /** Bytes that do not complete a block wait in the tail. */
  lemma FoldWaits(f: Compression, h: Words, m: seq<byte>, d: seq<byte>)
    requires |m| % 64 + |d| < 64
    ensures Fold(f, h, m + d) == Fold(f, h, m) && Tail(m + d) == Tail(m) + d
  {
    var a := m[..|m| - |m| % 64];
    assert m == a + Tail(m) && m + d == a + (Tail(m) + d);
    FoldConcat(f, h, a, Tail(m));
    FoldConcat(f, h, a, Tail(m) + d);
  }

  /** Bytes that complete a block have it compressed. */
  lemma FoldCompletes(f: Compression, h: Words, m: seq<byte>, d: seq<byte>)
    requires |m| % 64 + |d| == 64
    ensures Fold(f, h, m + d) == Compress(f, Fold(f, h, m), Tail(m) + d) && Tail(m + d) == []
  {
    var a, b := m[..|m| - |m| % 64], Tail(m) + d;
    assert m == a + Tail(m) && m + d == a + b && b[..64] == b && b[64..] == [];
    FoldConcat(f, h, a, Tail(m));
    FoldConcat(f, h, a, b);
    assert |m + d| % 64 == 0;
  }

  // ---------- RFC 1321, sections 3.1, 3.2 and 3.5 ----------

  function Zeros(n: nat): (z: seq<byte>)
    ensures |z| == n && forall i :: 0 <= i < n ==> z[i] == 0
  {
    seq(n, _ => 0)
  }

  /** The low `n` bytes of `x`, least significant first. */
  function LittleEndian(x: nat, n: nat): (s: seq<byte>)
    ensures |s| == n
  {
    if n == 0 then [] else [x % 0x100] + LittleEndian(x / 0x100, n - 1)
  }

  /** How many zero bytes follow the first padding byte. */
  function ZeroCount(n: nat): (k: nat)
    ensures k < 64 && (n + 1 + k) % 64 == 56
  {
    (55 - n) % 64
  }

  function Padding(n: nat): (p: seq<byte>)
    ensures (n + |p|) % 64 == 56
  {
    [0x80] + Zeros(ZeroCount(n))
  }

  /** The message, one bit, zero bits up to 448 modulo 512, and the message's length in bits modulo 2^64. */
  function Padded(m: seq<byte>): seq<byte> {
    m + Padding(|m|) + LittleEndian(8 * |m| % 0x1_0000_0000_0000_0000, 8)
  }

  function WordBytes(h: Words): (s: seq<byte>)
    ensures |s| == 16
  {
    LittleEndian(h[0], 4) + LittleEndian(h[1], 4) + LittleEndian(h[2], 4) + LittleEndian(h[3], 4)
  }

  function Digest(f: Compression, m: seq<byte>): seq<byte> {
    WordBytes(Fold(f, INIT, Padded(m)))
  }

  /** `x >> 8 * j`. */
  function Shift(x: nat, j: nat): nat {
    if j == 0 then x else Shift(x / 0x100, j - 1)
  }

  lemma {:induction false} LittleEndianAt(x: nat, n: nat, j: nat)
    requires j < n
    ensures LittleEndian(x, n)[j] == Shift(x, j) % 0x100
  {
    if j > 0 { LittleEndianAt(x / 0x100, n - 1, j - 1); }
  }

  function Power(j: nat): nat {
    if j == 0 then 1 else 0x100 * Power(j - 1)
  }

  lemma {:induction false} LittleEndianConcat(lo: nat, hi: nat, k: nat, m: nat)
    requires lo < Power(k)
    ensures LittleEndian(lo + Power(k) * hi, k + m) == LittleEndian(lo, k) + LittleEndian(hi, m)
  {
    if k > 0 {
      var z := Power(k - 1) * hi;
      Scaled(0x100, Power(k - 1), hi);
      LowByte(lo, z);
      Quotient(lo, Power(k - 1));
      LittleEndianConcat(lo / 0x100, hi, k - 1, m);
    }
  }

  lemma Scaled(a: nat, b: nat, c: nat)
    ensures a * b * c == a * (b * c)
  {
  }

  lemma LowByte(x: nat, z: nat)
    ensures (x + 0x100 * z) / 0x100 == x / 0x100 + z && (x + 0x100 * z) % 0x100 == x % 0x100
  {
  }

  lemma Quotient(x: nat, p: nat)
    requires x < 0x100 * p
    ensures x / 0x100 < p
  {
  }

  /** A 64-bit number is its low word, then its high word. */
  lemma LittleEndianWords(lo: word, hi: word)
    ensures LittleEndian(lo + 0x1_0000_0000 * hi, 8) == LittleEndian(lo, 4) + LittleEndian(hi, 4)
  {
    assert Power(1) == 0x100 && Power(2) == 0x1_0000 && Power(3) == 0x100_0000 && Power(4) == 0x1_0000_0000;
    LittleEndianConcat(lo, hi, 4, 4);
  }

  // ---------- the algorithm of RFC 1321, step by step ----------

  /** The weights of the bytes of a word and of a 64-bit number. */
  const PLACES: seq<nat> :=
    [1, 0x100, 0x1_0000, 0x100_0000, 0x1_0000_0000, 0x100_0000_0000, 0x1_0000_0000_0000, 0x100_0000_0000_0000]

  /** `p` is the message, the byte 0x80, as few zeros as possible, and the number of the message's bits in eight
      bytes, in whole blocks of 64 bytes. */
  ghost predicate PaddedAs(m: seq<byte>, p: seq<byte>) {
    && |p| % 64 == 0 && |m| + 9 <= |p| < |m| + 9 + 64
    && p[..|m|] == m && p[|m|] == 0x80 && (forall i :: |m| < i < |p| - 8 ==> p[i] == 0)
    && (forall j :: 0 <= j < 8 ==> p[|p| - 8 + j] as int == 8 * |m| / PLACES[j] % 0x100)
  }

  /** The states from the four initial words on, each the outcome of one block. */
  ghost predicate Chained(f: Compression, p: seq<byte>, st: seq<Words>) {
    && |st| == |p| / 64 + 1 && st[0] == [0x6745_2301, 0xefcd_ab89, 0x98ba_dcfe, 0x1032_5476]
    && (forall i :: 0 <= i < |p| / 64 ==> st[i + 1] == f(st[i], p[64 * i..64 * i + 64]))
  }

  /** The four words, each with its lowest byte first. */
  ghost predicate BytesOf(h: Words, d: seq<byte>) {
    |d| == 16 && forall k :: 0 <= k < 16 ==> d[k] as int == h[k / 4] / PLACES[k % 4] % 0x100
  }

  /** `d` is the digest of `m`. */
  ghost predicate IsMd5(f: Compression, m: seq<byte>, d: seq<byte>) {
    exists p, st :: PaddedAs(m, p) && Chained(f, p, st) && BytesOf(st[|p| / 64], d)
  }

  lemma DivideTwice(x: nat, b: nat)
    requires b > 0
    ensures x / 0x100 / b == x / (0x100 * b)
  {
    var q, r := x / 0x100, x % 0x100;
    var s, t := q / b, q % b;
    assert x == 0x100 * q + r && q == b * s + t;
    Scaled(0x100, b, s);
    assert t + 1 <= b;
    QuotientIs(x, 0x100 * b, s, 0x100 * t + r);
  }

  lemma {:induction false} ShiftIs(x: nat, j: nat)
    requires j < 8
    ensures Shift(x, j) == x / PLACES[j]
  {
    if j > 0 {
      ShiftIs(x / 0x100, j - 1);
      DivideTwice(x, PLACES[j - 1]);
      assert PLACES[j] == 0x100 * PLACES[j - 1];
    }
  }

  /** The bits beyond the 64th are not in the eight bytes. */
  lemma LowBytes(x: nat, j: nat)
    requires j < 8
    ensures x % 0x1_0000_0000_0000_0000 / PLACES[j] % 0x100 == x / PLACES[j] % 0x100
  {
    var w := 0x1_0000_0000_0000_0000;
    var b := PLACES[j];
    var k := w / b / 0x100;
    assert w == 0x100 * k * b && b > 0;
    LowPlace(x % w, x / w, k, b, x);
  }

  lemma LowPlace(y: nat, q: nat, k: nat, b: nat, x: nat)
    requires b > 0 && x == 0x100 * k * b * q + y
    ensures y / b % 0x100 == x / b % 0x100
  {
    var u, v, z := y / b, y % b, k * q;
    Regroup(k, b, q);
    assert y == b * u + v;
    Distribute(b, 0x100 * z, u);
    QuotientIs(x, b, 0x100 * z + u, v);
    LowByte(u, z);
  }

  lemma Regroup(k: nat, b: nat, q: nat)
    ensures 0x100 * k * b * q == b * (0x100 * (k * q))
  {
  }

  lemma Distribute(b: nat, m: nat, u: nat)
    ensures b * (m + u) == b * m + b * u
  {
  }

  lemma PaddedIs(m: seq<byte>)
    ensures PaddedAs(m, Padded(m))
  {
    var z, c := Zeros(ZeroCount(|m|)), LittleEndian(8 * |m| % 0x1_0000_0000_0000_0000, 8);
    CountBytes(|m|);
    hide LittleEndian, Padded, Zeros;
    assert Padded(m) == m + ([0x80] + z) + c by { assert Padded(m) == m + Padding(|m|) + c; }
    Assembled(m, z, c);
  }

  lemma CountBytes(n: nat)
    ensures forall j :: 0 <= j < 8 ==>
      LittleEndian(8 * n % 0x1_0000_0000_0000_0000, 8)[j] as int == 8 * n / PLACES[j] % 0x100
  {
    hide LittleEndian;
    var x := 8 * n % 0x1_0000_0000_0000_0000;
    forall j | 0 <= j < 8 ensures LittleEndian(x, 8)[j] as int == 8 * n / PLACES[j] % 0x100 {
      LittleEndianAt(x, 8, j);
      ShiftIs(x, j);
      LowBytes(8 * n, j);
    }
  }

  lemma Assembled(m: seq<byte>, z: seq<byte>, c: seq<byte>)
    requires |z| < 64 && (|m| + 1 + |z|) % 64 == 56 && |c| == 8 && forall i :: 0 <= i < |z| ==> z[i] == 0
    requires forall j :: 0 <= j < 8 ==> c[j] as int == 8 * |m| / PLACES[j] % 0x100
    ensures PaddedAs(m, m + ([0x80] + z) + c)
  {
    hide PLACES;
    var p := m + ([0x80] + z) + c;
    assert |p| == |m| + 1 + |z| + 8 && p[..|m|] == m && p[|m|] == 0x80;
    assert forall i :: |m| < i < |p| - 8 ==> p[i] == z[i - |m| - 1];
    assert forall j :: 0 <= j < 8 ==> p[|p| - 8 + j] == c[j];
  }

  lemma {:induction false} FoldIsChained(f: Compression, h: Words, p: seq<byte>) returns (st: seq<Words>)
    requires |p| % 64 == 0
    ensures |st| == |p| / 64 + 1 && st[0] == h && st[|p| / 64] == Fold(f, h, p)
    ensures forall i :: 0 <= i < |p| / 64 ==> st[i + 1] == f(st[i], p[64 * i..64 * i + 64])
    decreases |p|
  {
    if |p| == 0 {
      st := [h];
    } else {
      var rest := FoldIsChained(f, Compress(f, h, p[..64]), p[64..]);
      st := [h] + rest;
      forall i | 0 <= i < |p| / 64 ensures st[i + 1] == f(st[i], p[64 * i..64 * i + 64]) {
        if i > 0 { assert p[64..][64 * (i - 1)..64 * (i - 1) + 64] == p[64 * i..64 * i + 64]; }
      }
    }
  }

  lemma WordBytesAre(h: Words)
    ensures BytesOf(h, WordBytes(h))
  {
    forall k | 0 <= k < 16 ensures WordBytes(h)[k] as int == h[k / 4] / PLACES[k % 4] % 0x100 {
      WordsAt(h, k / 4, k % 4, k);
      LittleEndianAt(h[k / 4], 4, k % 4);
      ShiftIs(h[k / 4], k % 4);
    }
  }

  /** The digest that the specification folds together is that of the algorithm. */
  lemma DigestIs(f: Compression, m: seq<byte>)
    ensures IsMd5(f, m, Digest(f, m))
  {
    hide Fold, LittleEndian;
    PaddedIs(m);
    var st := FoldIsChained(f, INIT, Padded(m));
    assert Chained(f, Padded(m), st);
    WordBytesAre(st[|Padded(m)| / 64]);
  }

  // ---------- the bit count in two words ----------

  /** The two words hold the number of bits of `len` bytes modulo 2^64. */
  predicate Counts(lo: word, hi: word, len: nat) {
    lo + 0x1_0000_0000 * hi == 8 * len % 0x1_0000_0000_0000_0000
  }

  lemma CountsOffset(lo: word, hi: word, len: nat)
    requires Counts(lo, hi, len)
    ensures lo / 8 % 64 == len % 64
  {
    var k := 8 * len / 0x1_0000_0000_0000_0000;
    assert lo == 8 * (len - 0x2000_0000 * hi - 0x2000_0000_0000_0000 * k);
    var m := len - 0x2000_0000 * hi - 0x2000_0000_0000_0000 * k;
    assert lo / 8 == m && len == m + 64 * (0x80_0000 * hi + 0x80_0000_0000_0000 * k);
  }

  lemma Mod64Is(x: nat, q: nat, r: nat)
    requires x == 0x1_0000_0000_0000_0000 * q + r && r < 0x1_0000_0000_0000_0000
    ensures x % 0x1_0000_0000_0000_0000 == r
  {
  }

  /** The carry from the low word into the high one. */
  lemma CountsGrow(lo: word, hi: word, len: nat, n: nat)
    requires Counts(lo, hi, len)
    ensures var bits := 8 * n % 0x1_0000_0000;
      var lo' := (lo + bits) % 0x1_0000_0000;
      var hi' := (hi + n / 0x2000_0000 + if lo' < bits then 1 else 0) % 0x1_0000_0000;
      Counts(lo', hi', len + n)
  {
    var bits := 8 * n % 0x1_0000_0000;
    var up := n / 0x2000_0000;
    assert 8 * n == bits + 0x1_0000_0000 * up;
    var lo' := (lo + bits) % 0x1_0000_0000;
    var carry := if lo' < bits then 1 else 0;
    assert lo + bits == lo' + 0x1_0000_0000 * carry;
    var hi' := (hi + up + carry) % 0x1_0000_0000;
    var k, j := 8 * len / 0x1_0000_0000_0000_0000, (hi + up + carry) / 0x1_0000_0000;
    Mod64Is(8 * (len + n), k + j, lo' + 0x1_0000_0000 * hi');
  }

  lemma WrapTwice(x: nat)
    ensures (x % 0x1_0000_0000 + 1) % 0x1_0000_0000 == (x + 1) % 0x1_0000_0000
  {
  }

  // ---------- the state ----------

  class State {
    const process: Compression
    var count0: word
    var count1: word
    var abcd: Words
    const buf: array<byte>
    // All bytes appended so far.
    ghost var msg: seq<byte>

    /** The whole blocks so far are compressed and the bytes after them wait in the buffer. */
    ghost predicate Held()
      reads this`abcd, this`msg, buf
    {
      buf.Length == 64 && abcd == Fold(process, INIT, msg) && buf[..|msg| % 64] == Tail(msg)
    }

    ghost predicate Valid()
      reads this, buf
    {
      Held() && Counts(count0, count1, |msg|)
    }

    constructor (process: Compression)
      ensures Valid() && fresh(buf) && msg == [] && this.process == process
    {
      this.process := process;
      count0, count1, msg := 0, 0, [];
      abcd := INIT;
      buf := new byte[64];
    }

    method AddCount(nbytes: nat)
      requires Counts(count0, count1, |msg|)
      modifies this`count0, this`count1
      ensures Counts(count0, count1, |msg| + nbytes)
    {
      hide Counts;
      CountsGrow(count0, count1, |msg|, nbytes);
      WrapTwice(count1 + nbytes / 0x2000_0000);
      var nbits := 8 * nbytes % 0x1_0000_0000;
      count1 := (count1 + nbytes / 0x2000_0000) % 0x1_0000_0000;
      count0 := (count0 + nbits) % 0x1_0000_0000;
      if count0 < nbits {
        count1 := (count1 + 1) % 0x1_0000_0000;
      }
    }

    /** `memcpy(buf + offset, p, |p|)`. */
    method Copy(offset: nat, p: seq<byte>)
      requires offset + |p| <= buf.Length
      modifies buf
      ensures buf[..offset + |p|] == old(buf[..offset]) + p
    {
      for i := 0 to |p|
        invariant buf[..offset] == old(buf[..offset]) && forall k :: 0 <= k < i ==> buf[offset + k] == p[k]
      {
        buf[offset + i] := p[i];
      }
    }

    /** Fills up the block that is waiting; false if it still is not full. */
    method FillBlock(offset: nat, p: seq<byte>) returns (full: bool)
      requires Held() && offset == |msg| % 64 && offset + |p| <= 64 && p != []
      modifies this`abcd, this`msg, buf
      ensures Held() && msg == old(msg) + p && full == (|msg| % 64 == 0)
    {
      hide Fold;
      Copy(offset, p);
      if offset + |p| < 64 {
        FoldWaits(process, INIT, msg, p);
        full := false;
      } else {
        FoldCompletes(process, INIT, msg, p);
        assert buf[..] == buf[..offset + |p|] == Tail(msg) + p;
        abcd := Compress(process, abcd, buf[..]);
        full := true;
      }
      msg := msg + p;
    }

    /** Compresses a block that lies whole in the input. */
    method TakeBlock(p: seq<byte>)
      requires Held() && |msg| % 64 == 0 && |p| == 64
      modifies this`abcd, this`msg
      ensures Held() && msg == old(msg) + p && |msg| % 64 == 0
    {
      hide Fold;
      FoldCompletes(process, INIT, msg, p);
      assert Tail(msg) + p == p;
      abcd := Compress(process, abcd, p);
      msg := msg + p;
    }

    /** `md5_append`, where the sum of the offset and `nbytes` fits an `int`. */
    method Append(data: seq<byte>, nbytes: int)
      requires Valid() && nbytes <= |data| && nbytes <= 0x7fff_ffff - 63
      modifies this, buf
      ensures Valid() && msg == old(msg) + data[..if nbytes > 0 then nbytes else 0]
    {
      hide Fold, Tail, Counts;
      CountsOffset(count0, count1, |msg|);
      var offset := count0 / 8 % 64;
      if nbytes <= 0 {
        return;
      }
      AddCount(nbytes);
      var done := 0;
      if offset != 0 {
        var copy := if offset + nbytes > 64 then 64 - offset else nbytes;
        var full := FillBlock(offset, data[..copy]);
        if !full {
          return;
        }
        done := copy;
      }
      while nbytes - done >= 64
        invariant 0 <= done <= nbytes
        invariant Held() && |msg| % 64 == 0 && msg == old(msg) + data[..done]
        invariant Counts(count0, count1, |old(msg)| + nbytes)
      {
        assert data[..done + 64] == data[..done] + data[done..done + 64];
        TakeBlock(data[done..done + 64]);
        done := done + 64;
      }
      if nbytes - done != 0 {
        assert data[..nbytes] == data[..done] + data[done..nbytes];
        var full := FillBlock(0, data[done..nbytes]);
      }
    }

    /** The saved length: eight bytes, the low word first. */
    method SaveLength() returns (data: seq<byte>)
      requires Valid()
      ensures data == LittleEndian(8 * |msg| % 0x1_0000_0000_0000_0000, 8)
    {
      hide LittleEndian;
      LittleEndianWords(count0, count1);
      ghost var all := LittleEndian(count0, 4) + LittleEndian(count1, 4);
      data := [];
      for i := 0 to 8
        invariant data == all[..i]
      {
        LittleEndianAt(if i / 4 == 0 then count0 else count1, 4, i % 4);
        data := data + [Shift(if i / 4 == 0 then count0 else count1, i % 4) % 0x100];
      }
    }

    /** `md5_finish`. */
    method Finish(digest: array<byte>)
      requires Valid() && digest.Length == 16 && digest != buf
      modifies this, buf, digest
      ensures digest[..] == Digest(process, old(msg)) && IsMd5(process, old(msg), digest[..])
    {
      DigestIs(process, msg);
      hide Fold, Tail, Counts, LittleEndian, Shift, IsMd5;
      var pad: seq<byte> := [0x80] + Zeros(63);
      var data := SaveLength();
      ghost var m := msg;
      CountsOffset(count0, count1, |msg|);
      PadCount(count0, |msg|);
      var n := (0x1_0000_0000 + 55 - count0 / 8) % 0x1_0000_0000 % 64 + 1;
      assert pad[..n] == Padding(|m|);
      Append(pad, n);
      assert data[..8] == data;
      Append(data, 8);
      assert msg == Padded(m);
      ghost var words := WordBytes(abcd);
      for i := 0 to 16
        invariant abcd == Fold(process, INIT, Padded(m)) && digest[..i] == words[..i]
      {
        LittleEndianAt(abcd[i / 4], 4, i % 4);
        WordsAt(abcd, i / 4, i % 4, i);
        digest[i] := Shift(abcd[i / 4], i % 4) % 0x100;
        assert digest[..i + 1] == digest[..i] + [digest[i]];
      }
      assert digest[..] == digest[..16] && words[..16] == words;
    }
  }

  lemma PadCount(lo: word, len: nat)
    requires lo / 8 % 64 == len % 64
    ensures (0x1_0000_0000 + 55 - lo / 8) % 0x1_0000_0000 % 64 == ZeroCount(len)
  {
    var m: nat := lo / 8;
    assert (0x1_0000_0000 + 55 - m) % 0x1_0000_0000 == if m <= 55 then 55 - m else 0x1_0000_0000 + 55 - m;
    SameRemainder(55 - m, 0x400_0000);
    SameRemainder(55 - len, len / 64 - m / 64);
  }

  lemma SameRemainder(x: int, k: int)
    ensures (x + 64 * k) % 64 == x % 64
  {
  }

  lemma WordsAt(h: Words, i: nat, j: nat, k: nat)
    requires i < 4 && j < 4 && k == 4 * i + j
    ensures WordBytes(h)[k] == LittleEndian(h[i], 4)[j]
  {
  }

  function Concat(pieces: seq<seq<byte>>): seq<byte> {
    if pieces == [] then [] else Concat(pieces[..|pieces| - 1]) + pieces[|pieces| - 1]
  }

  /** However a message is cut into pieces, its digest is that of the whole. */
  method HashPieces(process: Compression, pieces: seq<seq<byte>>) returns (digest: array<byte>)
    requires forall i :: 0 <= i < |pieces| ==> |pieces[i]| <= 0x7fff_ffff - 63
    ensures digest[..] == Digest(process, Concat(pieces)) && IsMd5(process, Concat(pieces), digest[..])
  {
    hide Digest, IsMd5;
    var state := new State(process);
    for i := 0 to |pieces|
      invariant state.Valid() && fresh(state) && fresh(state.buf) && state.process == process
      invariant state.msg == Concat(pieces[..i])
    {
      assert pieces[..i + 1][..i] == pieces[..i];
      assert pieces[i][..|pieces[i]|] == pieces[i];
      state.Append(pieces[i], |pieces[i]|);
    }
    assert pieces[..|pieces|] == pieces;
    digest := new byte[16];
    state.Finish(digest);
  }

  function Value(s: seq<byte>): nat {
    if s == [] then 0 else s[0] as int + 0x100 * Value(s[1..])
  }

  lemma {:induction false} ValueOfBytes(x: nat, n: nat)
    requires x < Power(n)
    ensures Value(LittleEndian(x, n)) == x
  {
    if n > 0 { ValueOfBytes(x / 0x100, n - 1); }
  }

  function WordSum(h: Words, i: nat): nat
    requires i <= 4
  {
    if i == 0 then 0 else WordSum(h, i - 1) + h[i - 1] as int
  }

  /** `hash` is the sum of the four words that the algorithm ends with. */
  ghost predicate IsHash(f: Compression, m: seq<byte>, hash: nat) {
    exists p, st :: PaddedAs(m, p) && Chained(f, p, st) && SumsTo(st[|p| / 64], hash)
  }

  predicate SumsTo(h: Words, hash: nat) {
    hash == h[0] as int + h[1] as int + h[2] as int + h[3] as int
  }

  lemma HashIs(f: Compression, m: seq<byte>)
    ensures IsHash(f, m, WordSum(Fold(f, INIT, Padded(m)), 4))
  {
    hide Fold;
    PaddedIs(m);
    var st := FoldIsChained(f, INIT, Padded(m));
    assert Chained(f, Padded(m), st);
    FourWords(st[|Padded(m)| / 64]);
  }

  lemma FourWords(h: Words)
    ensures SumsTo(h, WordSum(h, 4))
  {
    assert WordSum(h, 1) == h[0] as int && WordSum(h, 2) == WordSum(h, 1) + h[1] as int;
    assert WordSum(h, 3) == WordSum(h, 2) + h[2] as int;
  }

  /** The ring's default hash of a name: the four words of its digest, added in a 64-bit `long`. */
  method DefaultHash(process: Compression, instr: seq<byte>) returns (hash: nat)
    requires |instr| <= 0x7fff_ffff - 63
    ensures hash == WordSum(Fold(process, INIT, Padded(instr)), 4)
    ensures IsHash(process, instr, hash) && hash < 0x4_0000_0000
  {
    HashIs(process, instr);
    hide Fold, LittleEndian, IsHash;
    assert Concat([instr]) == instr by { assert [instr][..0] == []; }
    var digest := HashPieces(process, [instr]);
    ghost var h := Fold(process, INIT, Padded(instr));
    hash := 0;
    assert digest[..] == WordBytes(h);
    for i := 0 to 4
      invariant digest[..] == WordBytes(h) && hash == WordSum(h, i) <= i * 0xffff_ffff
    {
      ghost var s := WordBytes(h)[4 * i..4 * i + 4];
      forall j | 0 <= j < 4 ensures s[j] == LittleEndian(h[i], 4)[j] {
        WordsAt(h, i, j, 4 * i + j);
        assert s[j] == WordBytes(h)[4 * i + j];
      }
      assert s == LittleEndian(h[i], 4);
      assert Power(1) == 0x100 && Power(2) == 0x1_0000 && Power(3) == 0x100_0000 && Power(4) == 0x1_0000_0000;
      ValueOfBytes(h[i], 4);
      FourBytes(s);
      assert s[0] == digest[4 * i] && s[1] == digest[4 * i + 1] && s[2] == digest[4 * i + 2]
        && s[3] == digest[4 * i + 3];
      hash := hash + (0x100_0000 * digest[i * 4 + 3] as int + 0x1_0000 * digest[i * 4 + 2] as int
                      + 0x100 * digest[i * 4 + 1] as int + digest[i * 4] as int);
    }
  }

  lemma FourBytes(s: seq<byte>)
    requires |s| == 4
    ensures Value(s) == 0x100_0000 * s[3] as int + 0x1_0000 * s[2] as int + 0x100 * s[1] as int + s[0] as int
  {
    assert s[1..][1..] == s[2..] && s[2..][1..] == s[3..] && s[3..][1..] == [];
    assert Value(s[3..]) == s[3] as int;
    assert Value(s[2..]) == s[2] as int + 0x100 * Value(s[3..]);
    assert Value(s[1..]) == s[1] as int + 0x100 * Value(s[2..]);
  }
}
