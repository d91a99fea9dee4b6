/**
 The message format the generated code prints and parses, over any list of fields: the four messages of the RPC
 interface are four such lists. This file defines what bytes mean; the methods are in RpcMessages.
 */
module Wire {
  import opened Common
  import opened Varint

  datatype Value =
    | Bool(b: bool)
    | Str(s: gostring)
    | Int32(d: int32)
    | Strs(ss: seq<gostring>)   // a repeated string

  /** Field numbers are positive int32s. */
  type FieldNum = x: int | 1 <= x < 0x8000_0000 witness 1
  datatype Field = Field(num: FieldNum, value: Value)
  type Message = seq<Field>

  predicate DistinctNums(m: Message) {
    forall i, j :: 0 <= i < j < |m| ==> m[i].num != m[j].num
  }

  const VARINT := 0
  const BYTES := 2
  const END_GROUP := 4

  // ---------- printing ----------

  function Tag(num: FieldNum, wireType: nat): seq<byte>
    requires wireType < 8
  {
    EncodeVarint(num * 8 + wireType)
  }

  function Delimited(num: FieldNum, s: gostring): seq<byte> {
    Tag(num, BYTES) + EncodeVarint(|s|) + s
  }

  function Repeated(num: FieldNum, ss: seq<gostring>): seq<byte> {
    if ss == [] then [] else Delimited(num, ss[0]) + Repeated(num, ss[1..])
  }

  /** Fields holding their zero value are not printed; every element of a repeated field is. */
  function EncodeField(f: Field): seq<byte> {
    match f.value
    case Bool(b) => if b then Tag(f.num, VARINT) + [1] else []
    case Str(s) => if |s| > 0 then Delimited(f.num, s) else []
    case Int32(d) => if d != 0 then Tag(f.num, VARINT) + EncodeVarint(SignExtend(d)) else []
    case Strs(ss) => Repeated(f.num, ss)
  }

  function Encode(m: Message): seq<byte> {
    if m == [] then [] else EncodeField(m[0]) + Encode(m[1..])
  }

  // ---------- skipping a field nobody knows ----------

  datatype Skipped = Skipped(len: nat, err: Option<Error>)

  /** The length of the field that starts s, whatever its number. It may point past the end: the caller checks. */
  function Skip(s: seq<byte>): (r: Skipped)
    requires s != []
    ensures r.err.None? ==> r.len >= 1
    decreases |s|, 0
  {
    var tag := ReadVarint(s, 0);
    if tag.err.Some? then Skipped(0, tag.err)
    else
      var rest := s[tag.len..];
      match (tag.value % U64) % 8
      case 0 => var v := ReadVarint(rest, 0); if v.err.Some? then Skipped(0, v.err) else Skipped(tag.len + v.len, None)
      case 1 => Skipped(tag.len + 8, None)
      case 2 =>
        var v := ReadVarint(rest, 0);
        if v.err.Some? then Skipped(0, v.err)
        else if v.value % U64 >= I63 then Skipped(0, Some(InvalidLength))
        else Skipped(tag.len + v.len + v.value % U64, None)
      case 3 => var g := SkipGroup(rest); if g.err.Some? then g else Skipped(tag.len + g.len, None)
      case 4 => Skipped(tag.len, None)
      case 5 => Skipped(tag.len + 4, None)
      case _ => Skipped(0, Some(IllegalWireType))
  }

  /** The inside of a group, up to and including the first end-group tag at its level. */
  function SkipGroup(s: seq<byte>): (r: Skipped)
    ensures r.err.None? ==> 1 <= r.len <= |s|
    decreases |s|, 1
  {
    var tag := ReadVarint(s, 0);
    if tag.err.Some? then Skipped(0, tag.err)
    else if (tag.value % U64) % 8 == END_GROUP then Skipped(tag.len, None)
    else
      var inner := Skip(s);
      if inner.err.Some? then Skipped(0, inner.err)
      else if inner.len > |s| then Skipped(0, Some(UnexpectedEOF))
      else
        var g := SkipGroup(s[inner.len..]);
        if g.err.Some? then g else Skipped(inner.len + g.len, None)
  }

  // ---------- parsing ----------

  datatype Step = Step(m: Message, len: nat, err: Option<Error>)
  datatype Parsed = Parsed(m: Message, err: Option<Error>)

  /** The case of the field switch that handles number num, if there is one. */
  function Find(m: Message, num: int): (r: Option<nat>)
    ensures r.Some? ==> r.value < |m| && m[r.value].num == num
    ensures r.None? ==> forall i :: 0 <= i < |m| ==> m[i].num != num
  {
    if m == [] then None
    else if m[0].num == num then Some(0)
    else match Find(m[1..], num) case None => None case Some(i) => Some(i + 1)
  }

  /** The field number of a tag: the low 32 bits above the wire type, as an int32. */
  function FieldNumber(wire: uint64): int32 { Truncate32(wire / 8) }

  /** One turn of the parsing loop on the non-empty input s. */
  function ParseField(m: Message, s: seq<byte>): (r: Step)
    requires s != []
    ensures r.err.None? ==> 1 <= r.len <= |s|
  {
    var tag := ReadVarint(s, 0);
    if tag.err.Some? then Step(m, 0, tag.err)
    else
      var wire := tag.value % U64;
      var num, wireType := FieldNumber(wire), wire % 8;
      if wireType == END_GROUP then Step(m, 0, Some(EndGroup))
      else if num <= 0 then Step(m, 0, Some(IllegalTag))
      else match Find(m, num)
        case Some(i) => var r := ParseValue(m[i].value, wireType, s[tag.len..]);
          Step(m[i := Field(num, r.value)], tag.len + r.len, r.err)
        case None =>
          var skip := Skip(s);
          if skip.err.Some? then Step(m, 0, skip.err)
          else if skip.len > |s| then Step(m, 0, Some(UnexpectedEOF))
          else Step(m, skip.len, None)
  }

  datatype ValueRead = ValueRead(value: Value, len: nat, err: Option<Error>)

  /** What the bytes after the tag turn the field's value into. Only an int32 field changes when they are cut short. */
  function ParseValue(old_: Value, wireType: nat, s: seq<byte>): (r: ValueRead)
    ensures r.err.None? ==> r.len <= |s|
  {
    match old_
    case Bool(_) =>
      if wireType != VARINT then ValueRead(old_, 0, Some(WrongWireType))
      else
        var v := ReadVarint(s, 0);
        if v.err.Some? then ValueRead(old_, 0, v.err) else ValueRead(Bool(v.value % U64 != 0), v.len, None)
    case Int32(_) =>
      if wireType != VARINT then ValueRead(old_, 0, Some(WrongWireType))
      else var v := ReadVarint(s, 0); ValueRead(Int32(Truncate32(v.value)), v.len, v.err)
    case Str(_) =>
      var p := ParseString(wireType, s);
      if p.err.Some? then ValueRead(old_, 0, p.err) else ValueRead(Str(p.s), p.len, None)
    case Strs(ss) =>
      var p := ParseString(wireType, s);
      if p.err.Some? then ValueRead(old_, 0, p.err) else ValueRead(Strs(ss + [p.s]), p.len, None)
  }

  datatype StringRead = StringRead(s: gostring, len: nat, err: Option<Error>)

  /** A length and that many bytes. */
  function ParseString(wireType: nat, s: seq<byte>): (r: StringRead)
    ensures r.err.None? ==> r.len <= |s|
  {
    if wireType != BYTES then StringRead([], 0, Some(WrongWireType))
    else
      var v := ReadVarint(s, 0);
      var n := v.value % U64;
      if v.err.Some? then StringRead([], 0, v.err)
      else if n >= I63 then StringRead([], 0, Some(InvalidLength))
      else if v.len + n > |s| then StringRead([], 0, Some(UnexpectedEOF))
      else StringRead(s[v.len..v.len + n], v.len + n, None)
  }

  /** The whole parse, from message m on: the message reached, complete or not, and the error that stopped it. */
  function Unmarshal(m: Message, s: seq<byte>): Parsed
    decreases |s|
  {
    if s == [] then Parsed(m, None)
    else
      var st := ParseField(m, s);
      if st.err.Some? then Parsed(st.m, st.err) else Unmarshal(st.m, s[st.len..])
  }
}
