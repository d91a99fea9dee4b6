/**
 Base 128 varints (Protocol Buffers Encoding, section "Base 128 Varints").

 Machine words are mathematical integers with their range in the type. Masking with 0x7f and shifting right
 by 7 are written `% 128` and `/ 128`; a left shift is a multiplication cut back to the word; `|` on words is
 the function `Or`, defined bit by bit.
 */
module Varint {
  import opened Common

  const U64: int := 0x1_0000_0000_0000_0000
  const U32: int := 0x1_0000_0000
  const I63: int := 0x8000_0000_0000_0000
  const I31: int := 0x8000_0000

  type uint64 = x: int | 0 <= x < 0x1_0000_0000_0000_0000
  type uint32 = x: int | 0 <= x < 0x1_0000_0000
  type int32 = x: int | -0x8000_0000 <= x < 0x8000_0000

  datatype Error =
    | IntOverflow        // ErrIntOverflowMessage
    | UnexpectedEOF      // io.ErrUnexpectedEOF
    | InvalidLength      // ErrInvalidLengthMessage
    | EndGroup           // "wiretype end group for non-group"
    | IllegalTag         // "illegal tag"
    | WrongWireType      // "wrong wireType for field"
    | IllegalWireType    // "illegal wireType"

  /** What one run of the varint loop leaves behind: the groups read so far (before any word truncation), the number
      of bytes consumed, and why it stopped early, if it did. */
  datatype Read = Read(value: nat, len: nat, err: Option<Error>)

  // ---------- reference definitions ----------

  /** The shortest varint of v: seven bits a byte, least significant group first. */
  function EncodeVarint(v: nat): (r: seq<byte>)
    ensures |r| >= 1
  {
    if v < 128 then [v] else [v % 128 + 128] + EncodeVarint(v / 128)
  }

  /** Reading a varint whose first byte is to be shifted by `shift` bits. */
  function ReadVarint(s: seq<byte>, shift: nat): (r: Read)
    ensures r.len <= |s|
    ensures r.err.None? ==> r.len >= 1
    decreases |s|
  {
    if shift >= 64 then Read(0, 0, Some(IntOverflow))
    else if s == [] then Read(0, 0, Some(UnexpectedEOF))
    else if s[0] < 0x80 then Read(s[0], 1, None)
    else
      var r := ReadVarint(s[1..], shift + 7);
      Read(s[0] % 128 + 128 * r.value, r.len + 1, r.err)
  }

  // ---------- words ----------

  /** Bitwise or of two non-negative words. */
  function Or(x: nat, y: nat): nat
  {
    if x == 0 && y == 0 then 0
    else (if x % 2 == 1 || y % 2 == 1 then 1 else 0) + 2 * Or(x / 2, y / 2)
  }

  /** `x << s` on uint64. */
  function Shl64(x: nat, s: nat): uint64 { (x * Pow2(s)) % U64 }

  /** `x << s` on the bit pattern of an int32: 0 from 32 on. */
  function Shl32(x: nat, s: nat): uint32 { if s >= 32 then 0 else (x * Pow2(s)) % U32 }

  /** The int32 with a given bit pattern. */
  function Signed32(u: uint32): int32 { if u >= I31 then u - U32 else u }

  /** uint64(d): sign extension. */
  function SignExtend(d: int32): uint64 { if d < 0 then d + U64 else d }

  /** int32(w) of a 64-bit word: the low 32 bits. */
  function Truncate32(w: int): int32 { Signed32(w % U32) }

  lemma {:induction false} OrDisjoint(x: nat, y: nat, s: nat)
    requires x < Pow2(s)
    ensures Or(x, y * Pow2(s)) == x + y * Pow2(s)
    decreases s, y
  {
    if s == 0 {
      OrZero(y);
    } else {
      var z := y * Pow2(s - 1);
      assert y * Pow2(s) == 2 * z by { assert Pow2(s) == 2 * Pow2(s - 1); }
      assert z >= 0;
      OrDisjoint(x / 2, y, s - 1);
      assert (2 * z) / 2 == z;
    }
  }

  lemma {:induction false} OrZero(y: nat)
    ensures Or(0, y) == y
  {
    if y != 0 { OrZero(y / 2); }
  }

  lemma Pow2Table()
    ensures Pow2(0) == 1 && Pow2(7) == 0x80 && Pow2(14) == 0x4000 && Pow2(21) == 0x20_0000 && Pow2(28) == 0x1000_0000
    ensures Pow2(35) == 0x8_0000_0000 && Pow2(42) == 0x400_0000_0000 && Pow2(49) == 0x2_0000_0000_0000
    ensures Pow2(56) == 0x100_0000_0000_0000 && Pow2(63) == I63
  {
    Pow2Step(0); Pow2Step(7); Pow2Step(14); Pow2Step(21); Pow2Step(28);
    Pow2Step(35); Pow2Step(42); Pow2Step(49); Pow2Step(56);
  }

  lemma {:induction false} Pow2Step(s: nat)
    ensures Pow2(s + 7) == 128 * Pow2(s)
  {
    assert Pow2(s + 7) == 2 * Pow2(s + 6) && Pow2(s + 6) == 2 * Pow2(s + 5) && Pow2(s + 5) == 2 * Pow2(s + 4);
    assert Pow2(s + 4) == 2 * Pow2(s + 3) && Pow2(s + 3) == 2 * Pow2(s + 2) && Pow2(s + 2) == 2 * Pow2(s + 1);
  }

  // ---------- the encoder writes what it announces, and reads back ----------

  lemma {:induction false} EncodedLength(v: nat, k: nat)
    requires k >= 1 && v < Pow2(7 * k)
    ensures |EncodeVarint(v)| <= k
  {
    if v >= 128 {
      Pow2Step(7 * (k - 1));
      if k == 1 { Pow2Table(); }
      EncodedLength(v / 128, k - 1);
    }
  }

  lemma WordLength(v: uint64)
    ensures |EncodeVarint(v)| <= 10
  {
    Pow2Table();
    Pow2Step(63);
    EncodedLength(v, 10);
  }

  /** A varint of v in front of anything is read back as v, and nothing after it is consumed. */
  lemma {:induction false} ReadEncoded(v: nat, rest: seq<byte>, shift: nat)
    requires shift + 7 * |EncodeVarint(v)| <= 70
    ensures ReadVarint(EncodeVarint(v) + rest, shift) == Read(v, |EncodeVarint(v)|, None)
  {
    var s := EncodeVarint(v) + rest;
    if v >= 128 {
      assert s[1..] == EncodeVarint(v / 128) + rest;
      ReadEncoded(v / 128, rest, shift + 7);
    }
  }

  lemma ReadWord(v: uint64, rest: seq<byte>)
    ensures ReadVarint(EncodeVarint(v) + rest, 0) == Read(v, |EncodeVarint(v)|, None)
  {
    WordLength(v);
    ReadEncoded(v, rest, 0);
  }

  // ---------- what the two definitions mean ----------

  /** The number that 7-bit groups stand for, the first the least significant. */
  function Groups(s: seq<byte>): nat { if s == [] then 0 else s[0] % 128 + 128 * Groups(s[1..]) }

  /** The first k bytes have the continuation bit. */
  predicate Continues(s: seq<byte>, k: nat) { k <= |s| && forall i :: 0 <= i < k ==> s[i] >= 0x80 }

  /** What is printed stands for v: every byte but the last has the continuation bit, and the last is not a zero group,
      so no varint of v is shorter. */
  lemma {:induction false} EncodedForm(v: nat)
    ensures var s := EncodeVarint(v);
      && Groups(s) == v && Continues(s, |s| - 1) && s[|s| - 1] < 0x80
      && (|s| > 1 ==> s[|s| - 1] != 0)
  {
    if v >= 128 {
      EncodedForm(v / 128);
      var s := EncodeVarint(v);
      assert s[1..] == EncodeVarint(v / 128);
      assert s[|s| - 1] == s[1..][|s| - 2];
      forall i | 0 <= i < |s| - 1 ensures s[i] >= 0x80 {
        if i > 0 { assert s[i] == s[1..][i - 1]; }
      }
    }
  }

  /** Reading ends at the first byte without the continuation bit, if that is among the first ten, with the number of
      the groups up to there; else it fails: on ten bytes that all continue, or at the end of a shorter input. */
  lemma ReadExactly(s: seq<byte>)
    ensures var r := ReadVarint(s, 0);
      && (r.err.None? ==> 1 <= r.len <= 10 && Continues(s, r.len - 1) && s[r.len - 1] < 0x80
                          && r.value == Groups(s[..r.len]))
      && (r.err == Some(IntOverflow) <==> Continues(s, 10))
      && (r.err == Some(UnexpectedEOF) <==> |s| < 10 && Continues(s, |s|))
      && r.err in {None, Some(IntOverflow), Some(UnexpectedEOF)}
  {
    ReadFrom(s, 0);
  }

  lemma {:induction false} ReadFrom(s: seq<byte>, k: nat)
    requires k <= 10
    ensures var r := ReadVarint(s, 7 * k);
      && (r.err.None? ==> 1 <= r.len <= 10 - k && Continues(s, r.len - 1) && s[r.len - 1] < 0x80
                          && r.value == Groups(s[..r.len]))
      && (r.err == Some(IntOverflow) <==> Continues(s, 10 - k))
      && (r.err == Some(UnexpectedEOF) <==> |s| < 10 - k && Continues(s, |s|))
      && r.err in {None, Some(IntOverflow), Some(UnexpectedEOF)}
    decreases 10 - k
  {
    if k < 10 && s != [] {
      var n := ReadVarint(s, 7 * k).len;
      if s[0] >= 0x80 {
        ReadFrom(s[1..], k + 1);
        assert forall j: nat :: 0 < j <= |s| ==> (Continues(s, j) <==> Continues(s[1..], j - 1)) by {
          forall j: nat | 0 < j <= |s| ensures Continues(s, j) <==> Continues(s[1..], j - 1) { ContinuesTail(s, j); }
        }
        if n > 0 { assert s[..n][1..] == s[1..][..n - 1]; }
      } else {
        assert s[..1][1..] == [];
      }
    }
  }

  lemma ContinuesTail(s: seq<byte>, j: nat)
    requires 0 < j <= |s| && s[0] >= 0x80
    ensures Continues(s, j) <==> Continues(s[1..], j - 1)
  {
    if Continues(s[1..], j - 1) {
      forall i | 0 <= i < j ensures s[i] >= 0x80 { if i > 0 { assert s[i] == s[1..][i - 1]; } }
    }
  }

  /** An int32 is printed as the 64-bit word congruent to it: itself if it is not negative, in ten bytes if it is. */
  lemma SignExtendExactly(d: int32)
    ensures (SignExtend(d) - d) % 0x1_0000_0000_0000_0000 == 0
    ensures d >= 0 ==> EncodeVarint(SignExtend(d)) == EncodeVarint(d)
    ensures d < 0 ==> |EncodeVarint(SignExtend(d))| == 10
  {
    hide EncodeVarint;
    if d < 0 {
      assert SignExtend(d) - d == 0x1_0000_0000_0000_0000;
      LongWord(SignExtend(d));
    }
  }

  lemma LongWord(v: uint64)
    requires v >= 0x8000_0000_0000_0000
    ensures |EncodeVarint(v)| == 10
  {
    WordLength(v);
    Pow2Table();
    EncodedAtLeast(v, 9);
  }

  lemma {:induction false} EncodedAtLeast(v: nat, k: nat)
    requires v >= Pow2(7 * k)
    ensures |EncodeVarint(v)| > k
  {
    if k > 0 {
      Pow2Step(7 * (k - 1));
      AtLeast(Pow2(7 * (k - 1)), 1);
      EncodedAtLeast(v / 128, k - 1);
    }
  }

  /** A word is cut to the int32 with its low 32 bits, so an int32 is kept. */
  lemma TruncateExactly(w: int)
    ensures (Truncate32(w) - w) % 0x1_0000_0000 == 0 && -0x8000_0000 <= Truncate32(w) < 0x8000_0000
    ensures -0x8000_0000 <= w < 0x8000_0000 ==> Truncate32(w) == w
  {
    Division(w, U32);
    var q := w / U32;
    assert w == q * U32 + w % U32;
    var k := if Truncate32(w) == w % U32 then -q else -q - 1;
    assert Truncate32(w) - w == k * U32;
    ModUnique(Truncate32(w) - w, U32, k, 0);
  }

  /** More input never changes a varint that was already complete. */
  lemma {:induction false} ReadStable(a: seq<byte>, b: seq<byte>, shift: nat)
    requires ReadVarint(a, shift).err.None?
    ensures ReadVarint(a + b, shift) == ReadVarint(a, shift)
    decreases |a|
  {
    if a[0] >= 0x80 {
      assert (a + b)[1..] == a[1..] + b;
      ReadStable(a[1..], b, shift + 7);
    }
  }

  // ---------- the loops of the generated code ----------

  /** What the decoding loops keep: reading from `start` is what was gathered so far plus reading the rest. */
  ghost predicate Resumes(data: seq<byte>, start: nat, i: nat, shift: nat, raw: nat)
  {
    && start <= i <= |data|
    && shift == 7 * (i - start) && shift <= 70
    && raw < Pow2(shift)
    && var whole := ReadVarint(data[start..], 0);
       var rest := ReadVarint(data[i..], shift);
       && whole.value == raw + rest.value * Pow2(shift)
       && whole.len == i - start + rest.len && whole.err == rest.err
  }

  /** One more 7-bit group: or-ing it in at its place adds it, in a 64-bit word and in the 32 bits of an int32. */
  lemma Gather(raw: nat, b: nat, shift: nat)
    requires shift < 64 && raw < Pow2(shift) && b < 128
    ensures Or(raw % U64, Shl64(b, shift)) == (raw + b * Pow2(shift)) % U64
    ensures Or(raw % U32, Shl32(b, shift)) == (raw + b * Pow2(shift)) % U32
    ensures 0 <= raw + b * Pow2(shift) < Pow2(shift + 7)
  {
    hide Or, Pow2;
    WordSizes();
    Pow2Step(shift);
    Scaled(raw, b, Pow2(shift), 128);
    GatherWord(raw, b, shift, 64);
    SmallRaw(raw, shift);
    if shift < 32 {
      GatherWord(raw, b, shift, 32);
    } else {
      Pow2Add(shift - 32, 32);
      Lifted(raw, b, Pow2(shift - 32), U32);
      OrZeroRight(raw % U32);
    }
  }

  lemma WordSizes()
    ensures Pow2(64) == U64 && Pow2(32) == U32
  {
    Pow2Table();
    Pow2Add(63, 1);
    Pow2Add(28, 4);
    assert Pow2(1) == 2 && Pow2(4) == 2 * Pow2(3) && Pow2(3) == 2 * Pow2(2);
  }

  /** Bits gathered so far fit the 64-bit word, and the 32-bit one while it is not passed. */
  lemma SmallRaw(raw: nat, shift: nat)
    requires shift < 64 && raw < Pow2(shift)
    ensures raw % U64 == raw && (shift < 32 ==> raw % U32 == raw)
  {
    hide Pow2;
    WordSizes();
    Pow2Add(64 - shift, shift);
    AtLeast(Pow2(64 - shift), Pow2(shift));
    if shift < 32 {
      Pow2Add(32 - shift, shift);
      AtLeast(Pow2(32 - shift), Pow2(shift));
    }
  }

  lemma GatherWord(raw: nat, b: nat, shift: nat, width: nat)
    requires shift < width && raw < Pow2(shift)
    ensures Or(raw % Pow2(width), (b * Pow2(shift)) % Pow2(width)) == (raw + b * Pow2(shift)) % Pow2(width)
  {
    hide Or, Pow2;
    var p, q := Pow2(shift), Pow2(width - shift);
    Pow2Add(shift, width - shift);
    var y := b % q;
    Cut(0, b, p, q);
    Cut(raw, b, p, q);
    Cut(raw, 0, p, q);
    OrDisjoint(raw, y, shift);
  }

  /** Cutting raw + b * p to a multiple p * q of p cuts b to q. */
  lemma Cut(raw: nat, b: nat, p: int, q: int)
    requires p >= 1 && q >= 1 && raw < p
    ensures p * q >= 1 && (raw + b * p) % (p * q) == raw + (b % q) * p
  {
    var k, y := b / q, b % q;
    assert p * q >= 1;
    assert b * p == k * (p * q) + y * p by { assert b == k * q + y; assert (k * q) * p == k * (p * q); }
    Scaled(raw, y, p, q);
    assert q * p == p * q;
    ModUnique(raw + b * p, p * q, k, raw + y * p);
  }

  lemma ModUnique(x: int, d: int, k: int, r: int)
    requires d >= 1 && x == k * d + r && 0 <= r < d
    ensures x % d == r
  {
    var j := x / d - k;
    Division(x, d);
    assert j * d == (x / d) * d - k * d;
    if j >= 1 { AtLeast(j, d); }
    if j <= -1 { AtLeast(-j, d); }
  }

  lemma Division(x: int, d: int)
    requires d >= 1
    ensures x == (x / d) * d + x % d && 0 <= x % d < d
  {}

  lemma AtLeast(j: int, d: int)
    requires j >= 1 && d >= 1
    ensures j * d >= d
  {
    NotNegative(j - 1, d);
    Spread(j, 0, d);
  }

  lemma Scaled(raw: nat, y: nat, p: int, q: int)
    requires raw < p && y < q
    ensures 0 <= raw + y * p < q * p
  {
    NotNegative(q - 1 - y, p);
    Spread(q, y, p);
    NotNegative(y, p);
  }

  lemma NotNegative(x: int, p: int)
    requires x >= 0 && p >= 0
    ensures x * p >= 0
  {}

  lemma Spread(q: int, y: int, p: int)
    ensures (q - 1 - y) * p == q * p - p - y * p
  {}

  lemma Lifted(raw: nat, b: nat, k: nat, d: int)
    requires d >= 1
    ensures (raw + b * (k * d)) % d == raw % d
  {
    assert raw + b * (k * d) == (raw / d + b * k) * d + raw % d by { assert b * (k * d) == (b * k) * d; }
    ModUnique(raw + b * (k * d), d, raw / d + b * k, raw % d);
  }

  lemma {:induction false} Pow2Add(m: nat, n: nat)
    ensures Pow2(m) * Pow2(n) == Pow2(m + n)
  {
    if m > 0 {
      Pow2Add(m - 1, n);
      Doubled(Pow2(m - 1), Pow2(n));
    }
  }

  lemma Doubled(x: int, y: int)
    ensures (2 * x) * y == 2 * (x * y)
  {}

  lemma {:induction false} OrZeroRight(x: nat)
    ensures Or(x, 0) == x
  {
    if x != 0 { OrZeroRight(x / 2); }
  }

  lemma Resume(data: seq<byte>, start: nat, i: nat, shift: nat, raw: nat, next: nat)
    requires Resumes(data, start, i, shift, raw) && i < |data| && shift < 64
    requires next == raw + (data[i] % 128) * Pow2(shift)
    ensures data[i] >= 0x80 ==> Resumes(data, start, i + 1, shift + 7, next)
    ensures data[i] < 0x80 ==> ReadVarint(data[start..], 0) == Read(next, i + 1 - start, None)
  {
    hide Pow2;
    var b, p, rest := data[i] % 128, Pow2(shift), ReadVarint(data[i..], shift);
    assert data[i..][1..] == data[i + 1..] && data[i..][0] == data[i];
    Scaled(raw, b, p, 128);
    Pow2Step(shift);
    if data[i] >= 0x80 {
      var q := ReadVarint(data[i + 1..], shift + 7).value;
      assert rest.value == b + 128 * q;
      Distribute(b, q, p);
    } else {
      assert rest.value == b;
    }
  }

  lemma Distribute(b: int, q: int, p: int)
    ensures (b + 128 * q) * p == b * p + q * (128 * p)
  {}

  /** The loop that reads a tag, a length, a bool or an int32: `wire` gathers 64 bits, `low` the bits an int32 keeps. */
  method DecodeVarint(data: seq<byte>, start: nat) returns (wire: uint64, low: uint32, iNdEx: nat, err: Option<Error>)
    requires start <= |data|
    ensures var r := ReadVarint(data[start..], 0);
      wire == r.value % U64 && low == r.value % U32 && iNdEx == start + r.len && err == r.err
  {
    hide Or, Shl64, Shl32, Pow2;
    assert Pow2(0) == 1 by { Pow2Table(); }
    wire, low, iNdEx := 0, 0, start;
    var shift := 0;
    ghost var raw: nat := 0;
    while true
      invariant Resumes(data, start, iNdEx, shift, raw)
      invariant wire == raw % U64 && low == raw % U32
      decreases 70 - shift
    {
      if shift >= 64 { return wire, low, iNdEx, Some(IntOverflow); }
      if iNdEx >= |data| { return wire, low, iNdEx, Some(UnexpectedEOF); }
      var b := data[iNdEx];
      Gather(raw, b % 128, shift);
      ghost var next: nat := raw + (b % 128) * Pow2(shift);
      Resume(data, start, iNdEx, shift, raw, next);
      iNdEx := iNdEx + 1;
      wire := Or(wire, Shl64(b % 128, shift));
      low := Or(low, Shl32(b % 128, shift));
      raw := next;
      if b < 0x80 { return wire, low, iNdEx, None; }
      shift := shift + 7;
    }
  }

  /** Writes v at `offset`; what is after it is not touched. */
  method EncodeVarintMessage(dAtA: array<byte>, offset: nat, v: uint64) returns (next: nat)
    requires offset + |EncodeVarint(v)| <= dAtA.Length
    modifies dAtA
    ensures next == offset + |EncodeVarint(v)|
    ensures dAtA[..next] == old(dAtA[..offset]) + EncodeVarint(v) && dAtA[next..] == old(dAtA[next..])
  {
    next := offset;
    var w := v;
    while w >= 128
      invariant offset <= next && next + |EncodeVarint(w)| == offset + |EncodeVarint(v)|
      invariant dAtA[..next] + EncodeVarint(w) == old(dAtA[..offset]) + EncodeVarint(v)
      invariant dAtA[next..] == old(dAtA[next..])
      decreases w
    {
      ghost var before := dAtA[..next];
      ghost var after := dAtA[next..];
      dAtA[next] := w % 128 + 128;
      assert dAtA[next + 1..] == after[1..];
      assert dAtA[..next + 1] + EncodeVarint(w / 128) == before + EncodeVarint(w);
      w := w / 128;
      next := next + 1;
    }
    ghost var after := dAtA[next..];
    dAtA[next] := w;
    next := next + 1;
    assert dAtA[next..] == after[1..];
  }

  /** The announced size of a varint is the number of bytes the encoder writes. */
  method SovMessage(x: uint64) returns (n: nat)
    ensures n == |EncodeVarint(x)|
  {
    n := 0;
    var w := x;
    while true
      invariant n + |EncodeVarint(w)| == |EncodeVarint(x)|
      decreases w
    {
      n := n + 1;
      if w / 128 == 0 { return; }
      w := w / 128;
    }
  }
}
