/**
 Unknown fields as the Protocol Buffers Encoding has them (section "Message Structure" and the condensed reference
 card): a tag is a 32-bit varint whose number is from 1 to 536870911, a length is a non-negative 32-bit one, and a group
 ends with an end-group tag of its own number. The generated code skips more than that; this file says exactly what.
 */
module Conformance {
  import opened Common
  import opened Varint
  import opened Wire
  import opened WireTheorems
  import opened KnownFields

  // ---------- the Encoding's own skipping ----------

  predicate LegalNumber(num: nat) { 1 <= num <= 536870911 }

  /** The length of the field that starts s. */
  function StrictSkip(s: seq<byte>): (r: Skipped)
    ensures r.err.None? ==> r.len >= 1
    decreases |s|, 0
  {
    var tag := ReadVarint(s, 0);
    if tag.err.Some? then Skipped(0, tag.err)
    else if !LegalNumber(tag.value / 8) then Skipped(0, Some(IllegalTag))
    else
      var body := StrictBody(tag.value / 8, tag.value % 8, s[tag.len..]);
      if body.err.Some? then Skipped(0, body.err) else Skipped(tag.len + body.len, None)
  }

  /** What follows the tag of field num. */
  function StrictBody(num: nat, wireType: nat, s: seq<byte>): (r: Skipped)
    decreases |s|, 2
  {
    if wireType == END_GROUP then Skipped(0, Some(EndGroup))
    else if wireType == 3 then StrictGroup(num, s)
    else if wireType == BYTES && ReadVarint(s, 0).err.None? && ReadVarint(s, 0).value >= I31
    then Skipped(0, Some(InvalidLength))
    else BodyLength(wireType, s)
  }

  /** The inside of group num, up to and including its end-group tag. */
  function StrictGroup(num: nat, s: seq<byte>): (r: Skipped)
    ensures r.err.None? ==> 1 <= r.len <= |s|
    decreases |s|, 1
  {
    var tag := ReadVarint(s, 0);
    if tag.err.Some? then Skipped(0, tag.err)
    else if tag.value % 8 == END_GROUP then
      if tag.value / 8 == num then Skipped(tag.len, None) else Skipped(0, Some(EndGroup))
    else
      var inner := StrictSkip(s);
      if inner.err.Some? then Skipped(0, inner.err)
      else if inner.len > |s| then Skipped(0, Some(UnexpectedEOF))
      else
        var g := StrictGroup(num, s[inner.len..]);
        if g.err.Some? then g else Skipped(inner.len + g.len, None)
  }

  // ---------- the source takes all that the Encoding takes ----------

  /** The wire type does not depend on the bits a 64-bit word drops. */
  lemma LowBits(value: nat)
    ensures (value % U64) % 8 == value % 8
    ensures value / 8 <= 536870911 ==> value % U64 == value
  {}

  /** What the Encoding accepts, the source measures alike, on every input. */
  lemma {:induction false} StrictAgrees(s: seq<byte>)
    requires s != [] && StrictSkip(s).err.None?
    ensures Skip(s) == StrictSkip(s)
    decreases |s|, 0
  {
    hide ReadVarint;
    var tag := ReadVarint(s, 0);
    LowBits(tag.value);
    if tag.value % 8 == 3 { StrictGroupAgrees(tag.value / 8, s[tag.len..]); }
  }

  lemma {:induction false} StrictGroupAgrees(num: nat, s: seq<byte>)
    requires StrictGroup(num, s).err.None?
    ensures SkipGroup(s) == StrictGroup(num, s)
    decreases |s|, 1
  {
    hide ReadVarint;
    LowBits(ReadVarint(s, 0).value);
    if ReadVarint(s, 0).value % 8 != END_GROUP {
      StrictAgrees(s);
      StrictGroupAgrees(num, s[StrictSkip(s).len..]);
    }
  }

  // ---------- and exactly how much more ----------

  /** The number of a tag with all its bits. */
  function FullNumber(tag: seq<byte>): nat { ReadVarint(tag, 0).value / 8 }

  /** The field is one of the Encoding: at every depth the number is legal, a length fits, and a group is closed by its
      own number. */
  predicate Conforms(u: Unknown) {
    && LegalNumber(FullNumber(u.tag))
    && (u.UBytes? ==> ReadVarint(u.length, 0).value < I31)
    && (u.UGroup? ==> FullNumber(u.close) == FullNumber(u.tag) && forall v | v in u.fields :: Conforms(v))
  }

  /** A field that the source skips whole is one of the Encoding if and only if it conforms; then both measure it
      alike. */
  lemma {:induction false} StrictExactly(u: Unknown, rest: seq<byte>)
    requires WellFormed(u)
    ensures StrictSkip(EncodeUnknown(u) + rest).err.None? <==> Conforms(u)
    ensures Conforms(u) ==> StrictSkip(EncodeUnknown(u) + rest) == Skipped(|EncodeUnknown(u)|, None)
    decreases u, 1
  {
    hide ReadVarint, StrictBody, UnknownBody;
    var body := UnknownBody(u) + rest;
    assert EncodeUnknown(u) + rest == u.tag + body;
    VarintReads(u.tag, body);
    LowBits(ReadVarint(u.tag, 0).value);
    StrictBodyExactly(u, rest);
  }

  lemma {:induction false} StrictBodyExactly(u: Unknown, rest: seq<byte>)
    requires WellFormed(u)
    ensures var b := StrictBody(FullNumber(u.tag), UnknownType(u), UnknownBody(u) + rest);
      && (LegalNumber(FullNumber(u.tag)) ==> (b.err.None? <==> Conforms(u)))
      && (b.err.None? ==> b.len == |UnknownBody(u)|)
    decreases u, 0
  {
    hide ReadVarint, StrictGroup, BodyLength, LegalNumber;
    BodyMeasured(u, rest);
    match u
    case UBytes(_, length, payload) =>
      assert UnknownBody(u) + rest == length + (payload + rest);
      VarintReads(length, payload + rest);
    case UGroup(tag, fields, close) =>
      assert UnknownBody(u) + rest == EncodeUnknowns(fields) + (close + rest);
      StrictInside(fields, FullNumber(tag), close, rest);
    case _ =>
  }

  lemma {:induction false} StrictInside(us: seq<Unknown>, num: nat, close: seq<byte>, rest: seq<byte>)
    requires IsTag(close, END_GROUP) && forall v | v in us :: WellFormed(v)
    ensures var g := StrictGroup(num, EncodeUnknowns(us) + (close + rest));
      && (g.err.None? <==> FullNumber(close) == num && forall v | v in us :: Conforms(v))
      && (g.err.None? ==> g.len == |EncodeUnknowns(us)| + |close|)
    decreases us, 0
  {
    hide ReadVarint, StrictSkip, Conforms;
    var end := close + rest;
    var s := EncodeUnknowns(us) + end;
    if us == [] {
      assert s == end;
      VarintReads(close, rest);
      LowBits(ReadVarint(close, 0).value);
    } else {
      var first, tail := EncodeUnknown(us[0]), EncodeUnknowns(us[1..]) + end;
      assert s == first + tail;
      StrictExactly(us[0], tail);
      UnknownTag(us[0], tail);
      LowBits(ReadVarint(us[0].tag, 0).value);
      assert s[|first|..] == tail;
      StrictInside(us[1..], num, close, rest);
      assert forall v :: v in us <==> v == us[0] || v in us[1..];
    }
  }

  /** On every input that the source skips within its end: it is one field, and one of the Encoding if and only if that
      field conforms; or it is a lone end-group tag, which the Encoding never accepts. */
  lemma SkipExactly(s: seq<byte>) returns (u: Option<Unknown>)
    requires s != [] && Skip(s).err.None? && Skip(s).len <= |s|
    ensures u.None? <==> Word(s) % 8 == END_GROUP
    ensures u.Some? ==> WellFormed(u.value) && EncodeUnknown(u.value) == s[..Skip(s).len]
    ensures StrictSkip(s).err.None? <==> u.Some? && Conforms(u.value)
  {
    hide ReadVarint, WellFormed, EncodeUnknown, Conforms;
    LowBits(ReadVarint(s, 0).value);
    if Word(s) % 8 == END_GROUP {
      u := None;
    } else {
      hide Skip, StrictSkip;
      var v := SkippedIsField(s);
      assert s == EncodeUnknown(v) + s[Skip(s).len..];
      StrictExactly(v, s[Skip(s).len..]);
      u := Some(v);
    }
  }

  /** The bounds are where the Encoding has them: the numbers from 1 to 536870911. */
  lemma NumbersEnd(num: FieldNum)
    ensures StrictSkip(Tag(num, VARINT) + [0x00]).err.None? <==> num <= 536870911
  {
    var u := UVarint(Tag(num, VARINT), [0x00]);
    assert ReadVarint([0x00], 0) == Read(0, 1, None);
    PrintedTag(num, VARINT);
    assert EncodeUnknown(u) + [] == Tag(num, VARINT) + [0x00];
    StrictExactly(u, []);
  }

  // ---------- inputs that show it ----------

  lemma PrintedTag(num: FieldNum, wireType: nat)
    requires wireType < 8
    ensures IsTag(Tag(num, wireType), wireType)
    ensures NumberOf(Tag(num, wireType)) == num == FullNumber(Tag(num, wireType))
  {
    TagReads(num, wireType, []);
    assert Tag(num, wireType) + [] == Tag(num, wireType);
  }

  /** A field of an unknown number that does not conform, alone: parsed without a trace, and no field of the
      Encoding. */
  lemma AcceptedAlone(m: Message, u: Unknown)
    requires WellFormed(u) && !Conforms(u) && NumberOf(u.tag) > 0 && !Knows(m, NumberOf(u.tag))
    ensures Unmarshal(m, EncodeUnknown(u)) == Parsed(m, None) && StrictSkip(EncodeUnknown(u)).err.Some?
  {
    hide Conforms, WellFormed, EncodeUnknown, StrictSkip, NumberOf;
    var e := EncodeUnknown(u);
    assert e + [] == e && [] + e + [] == e;
    StrictExactly(u, []);
    UnknownInvisible(m, [], u, []);
  }

  /** An empty group closed by another number. */
  lemma OtherNumberAccepted(m: Message, open: FieldNum, close: FieldNum)
    requires open != close && !Knows(m, open)
    ensures var s := Tag(open, 3) + Tag(close, END_GROUP);
      Unmarshal(m, s) == Parsed(m, None) && StrictSkip(s).err.Some?
  {
    hide Tag, ReadVarint;
    var u := UGroup(Tag(open, 3), [], Tag(close, END_GROUP));
    PrintedTag(open, 3);
    PrintedTag(close, END_GROUP);
    assert EncodeUnknowns([]) == [];
    assert EncodeUnknown(u) == Tag(open, 3) + Tag(close, END_GROUP);
    AcceptedAlone(m, u);
  }

  /** Group 1, closed by its own number, with a varint field of number 0 inside. */
  lemma NumberZeroAccepted(m: Message)
    requires !Knows(m, 1)
    ensures var s := [0x0b, 0x00, 0x00, 0x0c]; Unmarshal(m, s) == Parsed(m, None) && StrictSkip(s).err.Some?
  {
    var zero := UVarint([0x00], [0x00]);
    var u := UGroup([0x0b], [zero], [0x0c]);
    assert ReadVarint([0x0b], 0) == Read(11, 1, None) && ReadVarint([0x0c], 0) == Read(12, 1, None);
    assert ReadVarint([0x00], 0) == Read(0, 1, None);
    assert zero in u.fields && !Conforms(zero);
    assert EncodeUnknowns([zero]) == [0x00, 0x00] by {
      assert EncodeUnknowns([zero]) == EncodeUnknown(zero) + EncodeUnknowns([]);
    }
    assert EncodeUnknown(u) == [0x0b, 0x00, 0x00, 0x0c];
    AcceptedAlone(m, u);
  }

  /** The number the source reads from a tag is the number in the tag if and only if that fits an int32. */
  lemma NumberExactly(tag: seq<byte>)
    ensures NumberOf(tag) == FullNumber(tag) <==> FullNumber(tag) < I31
  {
    hide ReadVarint;
    var value := ReadVarint(tag, 0).value;
    if value / 8 < I31 { assert value % U64 == value; }
  }

  /** A tag whose number is beyond 32 bits is taken for the number its low bits make, so the bytes of a number the
      Encoding does not have set a known field. */
  lemma WrappedNumberTaken(m: Message, i: nat)
    requires DistinctNums(m) && i < |m| && m[i].value.Bool?
    ensures var s := EncodeVarint((m[i].num + U32) * 8) + [1];
      Unmarshal(m, s) == Parsed(m[i := Field(m[i].num, Bool(true))], None) && StrictSkip(s).err.Some?
  {
    var wire := (m[i].num + U32) * 8;
    var tag := EncodeVarint(wire);
    ReadWord(wire, []);
    ReadWord(wire, [1]);
    assert tag + [] == tag && (tag + [1])[|tag|..] == [1];
    assert ReadVarint([1], 0) == Read(1, 1, None);
    hide ReadVarint, EncodeVarint, StrictBody, Unmarshal, DistinctNums, FieldNumber, LegalNumber;
    Wrapped(m[i].num);
    assert IsVarint([1]) && Word([1]) == 1;
    BoolTaken(m, i, tag, [1]);
  }

  lemma Wrapped(num: FieldNum)
    ensures var wire := (num + U32) * 8;
      wire < U64 && FieldNumber(wire) == num && wire % 8 == 0 && !LegalNumber(wire / 8)
  {}
}
