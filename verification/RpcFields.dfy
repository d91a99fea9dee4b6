/**
 The pieces the generated methods repeat for each field: sizing, writing and reading one field in place.
 In the source they are inlined copies.
 */
module RpcFields {
  import opened Common
  import opened Varint
  import opened Wire
  import opened WireTheorems

  // ---------- the bytes of a message, spelled out ----------

  /** A string under a one-byte key, unless it is empty; all strings of a list; a true bool; a number other than 0,
      negative ones with 64 bits. */
  function Text(key: byte, s: gostring): seq<byte> { if s == [] then [] else [key] + EncodeVarint(|s|) + s }

  function Texts(key: byte, ss: seq<gostring>): seq<byte> {
    if ss == [] then [] else [key] + EncodeVarint(|ss[0]|) + ss[0] + Texts(key, ss[1..])
  }

  function Flag(key: byte, b: bool): seq<byte> { if b then [key, 0x01] else [] }

  function Number(key: byte, d: int32): seq<byte> {
    if d == 0 then [] else [key] + EncodeVarint(if d < 0 then d + 0x1_0000_0000_0000_0000 else d)
  }

  lemma ShortTag(num: FieldNum, wireType: nat)
    requires num < 16 && wireType < 8
    ensures Tag(num, wireType) == [num * 8 + wireType]
  {}

  lemma TextBytes(num: FieldNum, s: gostring)
    requires num < 16
    ensures EncodeField(Field(num, Str(s))) == Text(num * 8 + 2, s)
  {
    ShortTag(num, BYTES);
  }

  lemma {:induction false} TextsBytes(num: FieldNum, ss: seq<gostring>)
    requires num < 16
    ensures EncodeField(Field(num, Strs(ss))) == Texts(num * 8 + 2, ss)
  {
    hide EncodeVarint;
    ShortTag(num, BYTES);
    if ss != [] { TextsBytes(num, ss[1..]); }
  }

  lemma FlagBytes(num: FieldNum, b: bool)
    requires num < 16
    ensures EncodeField(Field(num, Bool(b))) == Flag(num * 8, b)
  {
    ShortTag(num, VARINT);
  }

  lemma NumberBytes(num: FieldNum, d: int32)
    requires num < 16
    ensures EncodeField(Field(num, Int32(d))) == Number(num * 8, d)
  {
    hide EncodeVarint;
    ShortTag(num, VARINT);
  }

  lemma EncodeCons(f: Field, m: Message)
    ensures Encode([f] + m) == EncodeField(f) + Encode(m)
  {
    hide EncodeField;
    assert ([f] + m)[1..] == m;
  }

  // ---------- writing ----------

  lemma {:induction false} EncodeSplit(m: Message, k: nat)
    requires k <= |m|
    ensures Encode(m) == Encode(m[..k]) + Encode(m[k..])
  {
    hide EncodeField;
    if k > 0 {
      var first, head, tail := EncodeField(m[0]), m[1..][..k - 1], m[1..][k - 1..];
      EncodeSplit(m[1..], k - 1);
      assert m[..k][1..] == head && m[..k][0] == m[0] && tail == m[k..];
      assert first + (Encode(head) + Encode(tail)) == (first + Encode(head)) + Encode(tail);
    } else {
      assert m[0..] == m && m[..0] == [];
    }
  }

  lemma EncodeOne(f: Field)
    ensures Encode([f]) == EncodeField(f)
  {
    assert [f][1..] == [];
  }

  /** After k + 1 fields the output is one field longer, and never longer than the whole. */
  lemma EncodeNext(m: Message, k: nat)
    requires k < |m|
    ensures Encode(m[..k + 1]) == Encode(m[..k]) + EncodeField(m[k])
    ensures |Encode(m[..k + 1])| <= |Encode(m)|
  {
    hide Encode, EncodeField;
    EncodeSplit(m[..k + 1], k);
    assert m[..k + 1][..k] == m[..k] && m[..k + 1][k..] == [m[k]];
    EncodeOne(m[k]);
    EncodeSplit(m, k + 1);
  }

  method WriteByte(dAtA: array<byte>, i: nat, b: byte) returns (next: nat)
    requires i < dAtA.Length
    modifies dAtA
    ensures next == i + 1 && dAtA[..next] == old(dAtA[..i]) + [b] && dAtA[next..] == old(dAtA[next..])
  {
    dAtA[i] := b;
    next := i + 1;
  }

  method CopyBytes(dAtA: array<byte>, i: nat, s: gostring) returns (next: nat)
    requires i + |s| <= dAtA.Length
    modifies dAtA
    ensures next == i + |s| && dAtA[..next] == old(dAtA[..i]) + s && dAtA[next..] == old(dAtA[next..])
  {
    next := i;
    while next < i + |s|
      invariant i <= next <= i + |s|
      invariant dAtA[..next] == old(dAtA[..i]) + s[..next - i] && dAtA[next..] == old(dAtA[next..])
    {
      dAtA[next] := s[next - i];
      next := next + 1;
    }
  }

  lemma SameTail(a: seq<byte>, b: seq<byte>, i: nat, j: nat)
    requires |a| == |b| && i <= j <= |a| && a[i..] == b[i..]
    ensures a[j..] == b[j..]
  {
    assert a[j..] == a[i..][j - i..] && b[j..] == b[i..][j - i..];
  }

  /** key, length and bytes of one string occurrence. */
  method WriteDelimited(dAtA: array<byte>, i: nat, ghost num: FieldNum, key: byte, s: gostring) returns (next: nat)
    requires key == num * 8 + BYTES < 128
    requires i + |Delimited(num, s)| <= dAtA.Length
    modifies dAtA
    ensures next == i + |Delimited(num, s)|
    ensures dAtA[..next] == old(dAtA[..i]) + Delimited(num, s) && dAtA[next..] == old(dAtA[next..])
  {
    ghost var was := dAtA[..];
    next := WriteByte(dAtA, i, key);
    ghost var mid, j := dAtA[..], next;
    assert mid[..j] == was[..i] + Tag(num, BYTES) && mid[j..] == was[j..];
    next := EncodeVarintMessage(dAtA, next, |s|);
    SameTail(mid, was, j, next);
    ghost var late, k := dAtA[..], next;
    assert late[..k] == mid[..j] + EncodeVarint(|s|) && late[k..] == mid[k..] == was[k..];
    next := CopyBytes(dAtA, next, s);
    SameTail(late, was, k, next);
    assert dAtA[..next] == late[..k] + s == was[..i] + Delimited(num, s);
  }

  method WriteTagged(dAtA: array<byte>, i: nat, ghost num: FieldNum, key: byte, v: uint64) returns (next: nat)
    requires key == num * 8 + VARINT < 128
    requires i + |Tag(num, VARINT) + EncodeVarint(v)| <= dAtA.Length
    modifies dAtA
    ensures next == i + |Tag(num, VARINT) + EncodeVarint(v)|
    ensures dAtA[..next] == old(dAtA[..i]) + (Tag(num, VARINT) + EncodeVarint(v)) && dAtA[next..] == old(dAtA[next..])
  {
    ghost var was := dAtA[..];
    next := WriteByte(dAtA, i, key);
    ghost var mid, j := dAtA[..], next;
    assert mid[..j] == was[..i] + Tag(num, VARINT) && mid[j..] == was[j..];
    next := EncodeVarintMessage(dAtA, next, v);
    SameTail(mid, was, j, next);
    assert dAtA[..next] == mid[..j] + EncodeVarint(v) == was[..i] + (Tag(num, VARINT) + EncodeVarint(v));
  }

  lemma {:induction false} RepeatedSplit(num: FieldNum, ss: seq<gostring>, k: nat)
    requires k <= |ss|
    ensures Repeated(num, ss) == Repeated(num, ss[..k]) + Repeated(num, ss[k..])
  {
    hide Delimited;
    if k > 0 {
      var first, head, tail := Delimited(num, ss[0]), ss[1..][..k - 1], ss[1..][k - 1..];
      RepeatedSplit(num, ss[1..], k - 1);
      assert ss[..k][1..] == head && ss[..k][0] == ss[0] && tail == ss[k..];
      assert first + (Repeated(num, head) + Repeated(num, tail)) == (first + Repeated(num, head)) + Repeated(num, tail);
    } else {
      assert ss[0..] == ss && ss[..0] == [];
    }
  }

  lemma RepeatedNext(num: FieldNum, ss: seq<gostring>, k: nat)
    requires k < |ss|
    ensures Repeated(num, ss[..k + 1]) == Repeated(num, ss[..k]) + Delimited(num, ss[k])
    ensures |Repeated(num, ss[..k + 1])| <= |Repeated(num, ss)|
  {
    RepeatedSplit(num, ss[..k + 1], k);
    assert ss[..k + 1][..k] == ss[..k] && ss[..k + 1][k..] == [ss[k]];
    assert Repeated(num, [ss[k]]) == Delimited(num, ss[k]);
    RepeatedSplit(num, ss, k + 1);
  }

  method WriteElements(dAtA: array<byte>, i: nat, ghost num: FieldNum, key: byte, ss: seq<gostring>) returns (next: nat)
    requires key == num * 8 + BYTES < 128
    requires i + |Repeated(num, ss)| <= dAtA.Length
    modifies dAtA
    ensures next == i + |Repeated(num, ss)|
    ensures dAtA[..next] == old(dAtA[..i]) + Repeated(num, ss) && dAtA[next..] == old(dAtA[next..])
  {
    next := i;
    var k := 0;
    while k < |ss|
      invariant k <= |ss| && next == i + |Repeated(num, ss[..k])| <= dAtA.Length
      invariant dAtA[..next] == old(dAtA[..i]) + Repeated(num, ss[..k]) && dAtA[next..] == old(dAtA[next..])
    {
      RepeatedNext(num, ss, k);
      next := WriteDelimited(dAtA, next, num, key, ss[k]);
      k := k + 1;
    }
    assert ss[..k] == ss;
  }

  /** The first k fields of m are in the first i bytes; the rest of the buffer is as it was, and m fits. */
  ghost predicate Written(buf: seq<byte>, i: nat, m: Message, k: nat, was: seq<byte>) {
    && k <= |m| && i == |Encode(m[..k])| <= |Encode(m)| <= |was| == |buf|
    && buf[..i] == Encode(m[..k]) && buf[i..] == was[i..]
  }

  lemma WrittenNext(buf: seq<byte>, i: nat, m: Message, k: nat, was: seq<byte>, buf': seq<byte>, next: nat)
    requires Written(buf, i, m, k, was) && k < |m| && |buf'| == |buf|
    requires next == i + |EncodeField(m[k])| <= |buf|
    requires buf'[..next] == buf[..i] + EncodeField(m[k]) && buf'[next..] == buf[next..]
    ensures Written(buf', next, m, k + 1, was)
  {
    hide EncodeField, Encode;
    EncodeNext(m, k);
    assert buf'[next..] == was[next..] by {
      assert buf[next..] == buf[i..][next - i..];
      assert was[next..] == was[i..][next - i..];
    }
  }

  method WriteBool(dAtA: array<byte>, i: nat, key: byte, b: bool, ghost m: Message, ghost k: nat, ghost was: seq<byte>)
    returns (next: nat)
    requires Written(dAtA[..], i, m, k, was) && k < |m| && m[k].value == Bool(b) && key == m[k].num * 8 + VARINT < 128
    modifies dAtA
    ensures Written(dAtA[..], next, m, k + 1, was)
  {
    EncodeNext(m, k);
    next := i;
    if b {
      next := WriteByte(dAtA, next, key);
      next := WriteByte(dAtA, next, if b then 1 else 0);
    }
    Snapshots(dAtA[..], next, old(dAtA[..]), i);
    WrittenNext(old(dAtA[..]), i, m, k, was, dAtA[..], next);
  }

  method WriteString(dAtA: array<byte>, i: nat, key: byte, s: gostring, ghost m: Message, ghost k: nat,
                     ghost was: seq<byte>)
    returns (next: nat)
    requires Written(dAtA[..], i, m, k, was) && k < |m| && m[k].value == Str(s) && key == m[k].num * 8 + BYTES < 128
    modifies dAtA
    ensures Written(dAtA[..], next, m, k + 1, was)
  {
    EncodeNext(m, k);
    next := i;
    if |s| > 0 {
      next := WriteDelimited(dAtA, next, m[k].num, key, s);
    }
    Snapshots(dAtA[..], next, old(dAtA[..]), i);
    WrittenNext(old(dAtA[..]), i, m, k, was, dAtA[..], next);
  }

  method WriteInt32(dAtA: array<byte>, i: nat, key: byte, d: int32, ghost m: Message, ghost k: nat,
                    ghost was: seq<byte>)
    returns (next: nat)
    requires Written(dAtA[..], i, m, k, was) && k < |m| && m[k].value == Int32(d) && key == m[k].num * 8 + VARINT < 128
    modifies dAtA
    ensures Written(dAtA[..], next, m, k + 1, was)
  {
    EncodeNext(m, k);
    next := i;
    if d != 0 {
      next := WriteTagged(dAtA, next, m[k].num, key, SignExtend(d));
    }
    Snapshots(dAtA[..], next, old(dAtA[..]), i);
    WrittenNext(old(dAtA[..]), i, m, k, was, dAtA[..], next);
  }

  method WriteStrings(dAtA: array<byte>, i: nat, key: byte, ss: seq<gostring>, ghost m: Message, ghost k: nat,
                      ghost was: seq<byte>)
    returns (next: nat)
    requires Written(dAtA[..], i, m, k, was) && k < |m| && m[k].value == Strs(ss) && key == m[k].num * 8 + BYTES < 128
    modifies dAtA
    ensures Written(dAtA[..], next, m, k + 1, was)
  {
    EncodeNext(m, k);
    next := WriteElements(dAtA, i, m[k].num, key, ss);
    WrittenNext(old(dAtA[..]), i, m, k, was, dAtA[..], next);
  }

  lemma Snapshots(buf: seq<byte>, next: nat, was: seq<byte>, i: nat)
    ensures next <= |buf| ==> buf[..][..next] == buf[..next] && buf[..][next..] == buf[next..]
    ensures i <= |was| ==> was[..][..i] == was[..i]
  {}

  // ---------- sizing ----------

  method SizeBool(ghost num: FieldNum, b: bool) returns (n: nat)
    requires num < 16
    ensures n == |EncodeField(Field(num, Bool(b)))|
  {
    n := if b then 2 else 0;
  }

  method SizeString(ghost num: FieldNum, s: gostring) returns (n: nat)
    requires num < 16
    ensures n == |EncodeField(Field(num, Str(s)))|
  {
    n := 0;
    if |s| > 0 {
      var sov := SovMessage(|s|);
      n := 1 + |s| + sov;
    }
  }

  method SizeInt32(ghost num: FieldNum, d: int32) returns (n: nat)
    requires num < 16
    ensures n == |EncodeField(Field(num, Int32(d)))|
  {
    n := 0;
    if d != 0 {
      var sov := SovMessage(SignExtend(d));
      n := 1 + sov;
    }
  }

  method SizeStrings(ghost num: FieldNum, ss: seq<gostring>) returns (n: nat)
    requires num < 16
    ensures n == |EncodeField(Field(num, Strs(ss)))|
  {
    n := 0;
    for k := 0 to |ss|
      invariant n == |Repeated(num, ss[..k])|
    {
      RepeatedNext(num, ss, k);
      var sov := SovMessage(|ss[k]|);
      n := n + 1 + |ss[k]| + sov;
    }
    assert ss[..|ss|] == ss;
  }

  // ---------- reading ----------

  /** Parsing data from m0 has come to message m with everything before i consumed. */
  ghost predicate Reached(m0: Message, data: seq<byte>, m: Message, i: nat) {
    i <= |data| && Wire.Unmarshal(m0, data) == Wire.Unmarshal(m, data[i..])
  }

  /** Parsing data from m0 ends with message m and error err. */
  ghost predicate Stopped(m0: Message, data: seq<byte>, m: Message, err: Option<Error>) {
    Wire.Unmarshal(m0, data) == Parsed(m, err)
  }

  lemma StartAndEnd(m0: Message, data: seq<byte>, m: Message)
    ensures Reached(m0, data, m0, 0)
    ensures Reached(m0, data, m, |data|) ==> Stopped(m0, data, m, None)
  {
    assert data[0..] == data;
  }

  /** The field that starts at i has this number and wire type, and its tag ends at next. */
  ghost predicate AtField(data: seq<byte>, i: nat, fieldNum: int32, wireType: nat, next: nat) {
    && i < next <= |data| && fieldNum > 0 && wireType != END_GROUP
    && var tag := ReadVarint(data[i..], 0);
       && tag.err.None? && next == i + tag.len
       && fieldNum == FieldNumber(tag.value % U64) && wireType == (tag.value % U64) % 8
  }

  /** One turn of the parsing loop that finds field k. */
  lemma Turn(m0: Message, m: Message, k: nat, data: seq<byte>, i: nat, wireType: nat, next: nat)
    requires DistinctNums(m) && k < |m| && Reached(m0, data, m, i) && AtField(data, i, m[k].num, wireType, next)
    ensures var r := ParseValue(m[k].value, wireType, data[next..]);
      var m' := m[k := Field(m[k].num, r.value)];
      if r.err.Some? then Stopped(m0, data, m', r.err) else Reached(m0, data, m', next + r.len)
  {
    hide Wire.Unmarshal, ParseValue, FieldNumber, Find;
    FindAt(m, k);
    assert data[i..][next - i..] == data[next..];
    var r := ParseValue(m[k].value, wireType, data[next..]);
    TurnStep(m, k, data[i..], r);
    if r.err.None? {
      assert data[i..][next - i + r.len..] == data[next + r.len..];
    }
  }

  lemma TurnStep(m: Message, k: nat, s: seq<byte>, r: ValueRead)
    requires s != [] && k < |m| && Find(m, m[k].num) == Some(k)
    requires var tag := ReadVarint(s, 0);
      && tag.err.None? && FieldNumber(tag.value % U64) == m[k].num && (tag.value % U64) % 8 != END_GROUP
      && r == ParseValue(m[k].value, (tag.value % U64) % 8, s[tag.len..])
    ensures var tag := ReadVarint(s, 0);
      var m' := m[k := Field(m[k].num, r.value)];
      if r.err.Some? then Wire.Unmarshal(m, s) == Parsed(m', r.err)
      else Wire.Unmarshal(m, s) == Wire.Unmarshal(m', s[tag.len + r.len..])
  {
    hide ParseValue, FieldNumber;
  }

  /** A tag, split into field number and wire type and checked. */
  method ReadTag(data: seq<byte>, i: nat, ghost m0: Message, ghost m: Message)
    returns (fieldNum: int32, wireType: nat, iNdEx: nat, err: Option<Error>)
    requires i < |data| && Reached(m0, data, m, i)
    ensures if err.None? then AtField(data, i, fieldNum, wireType, iNdEx) else Stopped(m0, data, m, err)
  {
    var wire, _, next, e := DecodeVarint(data, i);
    iNdEx := next;
    if e.Some? { return 0, 0, iNdEx, e; }
    fieldNum, wireType := Truncate32(wire / 8), wire % 8;
    if wireType == 4 { return fieldNum, wireType, iNdEx, Some(EndGroup); }
    if fieldNum <= 0 { return fieldNum, wireType, iNdEx, Some(IllegalTag); }
    err := None;
  }

  method ReadBool(wireType: nat, data: seq<byte>, i: nat, was: bool, ghost m0: Message, ghost m: Message,
                  ghost k: nat, ghost start: nat)
    returns (b: bool, iNdEx: nat, err: Option<Error>)
    requires DistinctNums(m) && k < |m| && m[k].value == Bool(was)
    requires Reached(m0, data, m, start) && AtField(data, start, m[k].num, wireType, i)
    ensures var m' := m[k := Field(m[k].num, Bool(b))];
      if err.None? then start < iNdEx <= |data| && Reached(m0, data, m', iNdEx) else Stopped(m0, data, m', err)
  {
    hide Wire.Unmarshal, ReadVarint;
    Turn(m0, m, k, data, start, wireType, i);
    if wireType != 0 { return was, i, Some(WrongWireType); }
    var v, _, next, e := DecodeVarint(data, i);
    if e.Some? { return was, i, e; }
    return v != 0, next, None;
  }

  method ReadInt32(wireType: nat, data: seq<byte>, i: nat, was: int32, ghost m0: Message, ghost m: Message,
                   ghost k: nat, ghost start: nat)
    returns (d: int32, iNdEx: nat, err: Option<Error>)
    requires DistinctNums(m) && k < |m| && m[k].value == Int32(was)
    requires Reached(m0, data, m, start) && AtField(data, start, m[k].num, wireType, i)
    ensures var m' := m[k := Field(m[k].num, Int32(d))];
      if err.None? then start < iNdEx <= |data| && Reached(m0, data, m', iNdEx) else Stopped(m0, data, m', err)
  {
    hide Wire.Unmarshal, ReadVarint;
    Turn(m0, m, k, data, start, wireType, i);
    if wireType != 0 { return was, i, Some(WrongWireType); }
    var _, low, next, e := DecodeVarint(data, i);
    return Signed32(low), next, e;
  }

  method ReadBytes(wireType: nat, data: seq<byte>, i: nat) returns (s: gostring, iNdEx: nat, err: Option<Error>)
    requires i <= |data|
    ensures i <= iNdEx <= |data|
    ensures ParseString(wireType, data[i..]) == StringRead(s, iNdEx - i, err)
  {
    if wireType != 2 { return [], i, Some(WrongWireType); }
    var stringLen, _, next, e := DecodeVarint(data, i);
    if e.Some? { return [], i, e; }
    if stringLen >= I63 { return [], i, Some(InvalidLength); }
    var postIndex := next + stringLen;
    if postIndex > |data| { return [], i, Some(UnexpectedEOF); }
    s := data[next..postIndex];
    assert s == data[i..][next - i..postIndex - i];
    return s, postIndex, None;
  }

  method ReadString(wireType: nat, data: seq<byte>, i: nat, was: gostring, ghost m0: Message, ghost m: Message,
                    ghost k: nat, ghost start: nat)
    returns (s: gostring, iNdEx: nat, err: Option<Error>)
    requires DistinctNums(m) && k < |m| && m[k].value == Str(was)
    requires Reached(m0, data, m, start) && AtField(data, start, m[k].num, wireType, i)
    ensures var m' := m[k := Field(m[k].num, Str(s))];
      if err.None? then start < iNdEx <= |data| && Reached(m0, data, m', iNdEx) else Stopped(m0, data, m', err)
  {
    hide Wire.Unmarshal, ReadVarint;
    Turn(m0, m, k, data, start, wireType, i);
    s, iNdEx, err := ReadBytes(wireType, data, i);
    if err.Some? { s := was; }
  }

  method ReadStrings(wireType: nat, data: seq<byte>, i: nat, was: seq<gostring>, ghost m0: Message, ghost m: Message,
                     ghost k: nat, ghost start: nat)
    returns (ss: seq<gostring>, iNdEx: nat, err: Option<Error>)
    requires DistinctNums(m) && k < |m| && m[k].value == Strs(was)
    requires Reached(m0, data, m, start) && AtField(data, start, m[k].num, wireType, i)
    ensures var m' := m[k := Field(m[k].num, Strs(ss))];
      if err.None? then start < iNdEx <= |data| && Reached(m0, data, m', iNdEx) else Stopped(m0, data, m', err)
  {
    hide Wire.Unmarshal, ReadVarint;
    Turn(m0, m, k, data, start, wireType, i);
    var s, next, e := ReadBytes(wireType, data, i);
    if e.Some? { return was, next, e; }
    return was + [s], next, None;
  }

  /** The default case of the field switch. */
  method SkipUnknownField(data: seq<byte>, preIndex: nat, ghost m0: Message, ghost m: Message, ghost fieldNum: int32,
                          ghost wireType: nat, ghost next: nat)
    returns (iNdEx: nat, err: Option<Error>)
    requires Reached(m0, data, m, preIndex) && AtField(data, preIndex, fieldNum, wireType, next) && !Knows(m, fieldNum)
    ensures if err.None? then preIndex < iNdEx <= |data| && Reached(m0, data, m, iNdEx) else Stopped(m0, data, m, err)
  {
    assert Find(m, fieldNum).None?;
    var skippy, e := SkipMessage(data[preIndex..]);
    if e.Some? { return preIndex, e; }
    if preIndex + skippy > |data| { return preIndex, Some(UnexpectedEOF); }
    iNdEx := preIndex + skippy;
    assert data[preIndex..][skippy..] == data[iNdEx..];
    return iNdEx, None;
  }

  /** Skips the field that starts at `start`; its tag has been read before, so the input is not empty. */
  method SkipMessage(data: seq<byte>) returns (n: nat, err: Option<Error>)
    requires data != []
    ensures Skip(data) == Skipped(n, err)
    decreases |data|
  {
    hide ReadVarint;
    var wire, _, iNdEx, e := DecodeVarint(data, 0);
    assert data[0..] == data;
    if e.Some? { return 0, e; }
    match wire % 8 {
      case 0 =>
        var _, _, next, e0 := DecodeVarint(data, iNdEx);
        if e0.Some? { return 0, e0; }
        return next, None;
      case 1 => return iNdEx + 8, None;
      case 2 =>
        var length, _, next, e2 := DecodeVarint(data, iNdEx);
        if e2.Some? { return 0, e2; }
        if length >= I63 { return 0, Some(InvalidLength); }
        return next + length, None;
      case 3 =>
        ghost var inside := iNdEx;
        while true
          invariant inside <= iNdEx && 1 <= inside <= |data|
          invariant var whole := SkipGroup(data[inside..]);
            if iNdEx > |data| then whole == Skipped(0, Some(UnexpectedEOF))
            else
              var rest := SkipGroup(data[iNdEx..]);
              whole == if rest.err.Some? then rest else Skipped(iNdEx - inside + rest.len, None)
          decreases |data| - iNdEx
        {
          var start := iNdEx;
          if start > |data| { return 0, Some(UnexpectedEOF); }
          var innerWire, _, next, e3 := DecodeVarint(data, iNdEx);
          if e3.Some? { return 0, e3; }
          if innerWire % 8 == 4 { return next, None; }
          var k, e4 := SkipMessage(data[start..]);
          if e4.Some? { return 0, e4; }
          iNdEx := start + k;
          assert iNdEx <= |data| ==> data[start..][k..] == data[iNdEx..];
        }
      case 4 => return iNdEx, None;
      case 5 => return iNdEx + 4, None;
      case _ => return 0, Some(IllegalWireType);
    }
  }
}
