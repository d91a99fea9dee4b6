/**
 What the message format promises: printing then parsing gives the message back, later bytes override earlier ones,
 a parser reads a stream piece by piece, and fields with unknown numbers leave no trace.
 */
module WireTheorems {
  import opened Common
  import opened Varint
  import opened Wire

  // ---------- parsing piece by piece ----------

  lemma {:induction false} SkipStable(a: seq<byte>, b: seq<byte>)
    requires a != [] && Skip(a).err.None? && Skip(a).len <= |a|
    ensures Skip(a + b) == Skip(a)
    decreases |a|, 0
  {
    var tag := ReadVarint(a, 0);
    ReadStable(a, b, 0);
    var rest := a[tag.len..];
    assert (a + b)[tag.len..] == rest + b;
    match (tag.value % U64) % 8
    case 0 => ReadStable(rest, b, 0);
    case 2 => ReadStable(rest, b, 0);
    case 3 => SkipGroupStable(rest, b);
    case _ =>
  }

  lemma {:induction false} SkipGroupStable(a: seq<byte>, b: seq<byte>)
    requires SkipGroup(a).err.None?
    ensures SkipGroup(a + b) == SkipGroup(a)
    decreases |a|, 1
  {
    var tag := ReadVarint(a, 0);
    ReadStable(a, b, 0);
    if (tag.value % U64) % 8 != END_GROUP {
      SkipStable(a, b);
      var n := Skip(a).len;
      assert (a + b)[n..] == a[n..] + b;
      SkipGroupStable(a[n..], b);
    }
  }

  lemma ParseStringStable(wireType: nat, a: seq<byte>, b: seq<byte>)
    requires ParseString(wireType, a).err.None?
    ensures ParseString(wireType, a + b) == ParseString(wireType, a)
  {
    ReadStable(a, b, 0);
    var v := ReadVarint(a, 0);
    var n := v.value % U64;
    assert (a + b)[v.len..v.len + n] == a[v.len..v.len + n];
  }

  lemma ParseValueStable(v: Value, wireType: nat, a: seq<byte>, b: seq<byte>)
    requires ParseValue(v, wireType, a).err.None?
    ensures ParseValue(v, wireType, a + b) == ParseValue(v, wireType, a)
  {
    match v
    case Bool(_) => ReadStable(a, b, 0);
    case Int32(_) => ReadStable(a, b, 0);
    case _ => ParseStringStable(wireType, a, b);
  }

  lemma ParseFieldStable(m: Message, a: seq<byte>, b: seq<byte>)
    requires a != [] && ParseField(m, a).err.None?
    ensures ParseField(m, a + b) == ParseField(m, a)
  {
    var tag := ReadVarint(a, 0);
    ReadStable(a, b, 0);
    assert (a + b)[tag.len..] == a[tag.len..] + b;
    var wire := tag.value % U64;
    match Find(m, FieldNumber(wire))
    case Some(i) => ParseValueStable(m[i].value, wire % 8, a[tag.len..], b);
    case None => SkipStable(a, b);
  }

  /** Parsing is a stream homomorphism: once a is accepted, b is parsed as if it came alone. */
  lemma {:induction false} ParseStream(m: Message, a: seq<byte>, b: seq<byte>)
    requires Unmarshal(m, a).err.None?
    ensures Unmarshal(m, a + b) == Unmarshal(Unmarshal(m, a).m, b)
    decreases |a|
  {
    if a == [] {
      assert a + b == b;
    } else {
      var st := ParseField(m, a);
      ParseFieldStable(m, a, b);
      assert (a + b)[st.len..] == a[st.len..] + b;
      ParseStream(st.m, a[st.len..], b);
    }
  }

  // ---------- parsing keeps the type of a message ----------

  predicate SameKind(v: Value, w: Value) {
    (v.Bool? <==> w.Bool?) && (v.Str? <==> w.Str?) && (v.Int32? <==> w.Int32?) && (v.Strs? <==> w.Strs?)
  }

  /** Messages of one type: the same numbers in the same places, holding values of the same kinds. */
  predicate SameType(m: Message, n: Message) {
    |m| == |n| && forall i :: 0 <= i < |m| ==> m[i].num == n[i].num && SameKind(m[i].value, n[i].value)
  }

  lemma ParseFieldKeepsType(m: Message, s: seq<byte>)
    requires s != []
    ensures SameType(m, ParseField(m, s).m)
  {
    hide ReadVarint, Skip, FieldNumber, ParseString;
  }

  lemma {:induction false} UnmarshalKeepsType(m: Message, s: seq<byte>)
    ensures SameType(m, Unmarshal(m, s).m)
    decreases |s|
  {
    hide ParseField;
    if s != [] {
      var st := ParseField(m, s);
      ParseFieldKeepsType(m, s);
      if st.err.None? {
        UnmarshalKeepsType(st.m, s[st.len..]);
      }
    }
  }

  // ---------- printing, then parsing ----------

  lemma TagReads(num: FieldNum, wireType: nat, rest: seq<byte>)
    requires wireType < 8
    ensures var r := ReadVarint(Tag(num, wireType) + rest, 0);
      && r == Read(num * 8 + wireType, |Tag(num, wireType)|, None)
      && FieldNumber(r.value % U64) == num && (r.value % U64) % 8 == wireType
  {
    hide EncodeVarint, ReadVarint;
    ReadWord(num * 8 + wireType, rest);
    TagParts(num, wireType);
  }

  lemma TagParts(num: FieldNum, wireType: nat)
    requires wireType < 8
    ensures var wire := num * 8 + wireType;
      wire < U64 && wire % U64 == wire && wire / 8 == num && wire % 8 == wireType && Truncate32(num) == num
  {}

  lemma {:induction false} FindAt(m: Message, i: nat)
    requires DistinctNums(m) && i < |m|
    ensures Find(m, m[i].num) == Some(i)
  {
    if i > 0 {
      assert m[1..][i - 1] == m[i];
      FindAt(m[1..], i - 1);
    }
  }

  lemma StringReads(s: gostring, rest: seq<byte>)
    ensures ParseString(BYTES, EncodeVarint(|s|) + s + rest) == StringRead(s, |EncodeVarint(|s|)| + |s|, None)
  {
    hide ReadVarint, EncodeVarint;
    var head := EncodeVarint(|s|);
    assert head + s + rest == head + (s + rest);
    ReadWord(|s|, s + rest);
    assert (head + s + rest)[|head|..|head| + |s|] == s;
  }

  /** What a later value does to an earlier one (section "Last One Wins"). */
  function MergeValue(v: Value, w: Value): Value
    requires SameKind(v, w)
  {
    match w
    case Bool(b) => if b then w else v
    case Str(s) => if |s| > 0 then w else v
    case Int32(d) => if d != 0 then w else v
    case Strs(ss) => Strs(v.ss + ss)
  }

  function Merge(m: Message, n: Message): Message
    requires SameType(m, n)
  {
    seq(|m|, i requires 0 <= i < |m| => Field(m[i].num, MergeValue(m[i].value, n[i].value)))
  }

  function ZeroValue(v: Value): Value {
    match v
    case Bool(_) => Bool(false)
    case Str(_) => Str([])
    case Int32(_) => Int32(0)
    case Strs(_) => Strs([])
  }

  /** The zero message of m's type. */
  function Zero(m: Message): Message {
    seq(|m|, i requires 0 <= i < |m| => Field(m[i].num, ZeroValue(m[i].value)))
  }

  /** One printed occurrence: tag and payload are consumed and only field i changes. */
  lemma OccurrenceReads(m: Message, i: nat, wireType: nat, payload: seq<byte>, rest: seq<byte>)
    requires DistinctNums(m) && i < |m| && wireType < 8 && wireType != END_GROUP
    requires ParseValue(m[i].value, wireType, payload + rest).err.None?
    requires ParseValue(m[i].value, wireType, payload + rest).len == |payload|
    ensures var m' := m[i := Field(m[i].num, ParseValue(m[i].value, wireType, payload + rest).value)];
      Unmarshal(m, Tag(m[i].num, wireType) + payload + rest) == Unmarshal(m', rest)
  {
    var tag := Tag(m[i].num, wireType);
    var s := tag + payload + rest;
    assert s == tag + (payload + rest);
    TagReads(m[i].num, wireType, payload + rest);
    FindAt(m, i);
    assert s[|tag|..] == payload + rest;
    assert s[|tag| + |payload|..] == rest;
  }

  lemma {:induction false} RepeatedReads(m: Message, i: nat, ss: seq<gostring>, rest: seq<byte>)
    requires DistinctNums(m) && i < |m| && m[i].value.Strs?
    ensures Unmarshal(m, Repeated(m[i].num, ss) + rest)
         == Unmarshal(m[i := Field(m[i].num, Strs(m[i].value.ss + ss))], rest)
    decreases |ss|
  {
    hide Unmarshal, Delimited, Tag, DistinctNums;
    if ss == [] {
      assert Repeated(m[i].num, ss) + rest == rest;
      assert m[i].value.ss + ss == m[i].value.ss;
      assert m[i := Field(m[i].num, m[i].value)] == m;
    } else {
      var num, tail := m[i].num, Repeated(m[i].num, ss[1..]) + rest;
      assert Repeated(num, ss) + rest == Delimited(num, ss[0]) + tail;
      ElementReads(m, i, ss[0], tail);
      var m' := m[i := Field(num, Strs(m[i].value.ss + [ss[0]]))];
      SameNums(m, m');
      RepeatedReads(m', i, ss[1..], rest);
      assert m'[i].value.ss + ss[1..] == m[i].value.ss + ss;
      assert m'[i := Field(num, Strs(m[i].value.ss + ss))] == m[i := Field(num, Strs(m[i].value.ss + ss))];
    }
  }

  lemma SameNums(m: Message, m': Message)
    requires DistinctNums(m) && |m'| == |m| && forall j :: 0 <= j < |m| ==> m'[j].num == m[j].num
    ensures DistinctNums(m')
  {}

  lemma ElementReads(m: Message, i: nat, s: gostring, rest: seq<byte>)
    requires DistinctNums(m) && i < |m| && m[i].value.Strs?
    ensures Unmarshal(m, Delimited(m[i].num, s) + rest)
         == Unmarshal(m[i := Field(m[i].num, Strs(m[i].value.ss + [s]))], rest)
  {
    var payload := EncodeVarint(|s|) + s;
    assert Delimited(m[i].num, s) == Tag(m[i].num, BYTES) + payload;
    StringReads(s, rest);
    OccurrenceReads(m, i, BYTES, payload, rest);
  }

  lemma BoolReads(m: Message, i: nat, rest: seq<byte>)
    requires DistinctNums(m) && i < |m| && m[i].value.Bool?
    ensures Unmarshal(m, Tag(m[i].num, VARINT) + [1] + rest) == Unmarshal(m[i := Field(m[i].num, Bool(true))], rest)
  {
    assert ReadVarint([1] + rest, 0) == Read(1, 1, None);
    hide ReadVarint, Unmarshal, Tag, DistinctNums;
    OccurrenceReads(m, i, VARINT, [1], rest);
  }

  lemma ExtendTruncate(d: int32)
    ensures Truncate32(SignExtend(d)) == d
  {}

  lemma Int32Reads(m: Message, i: nat, d: int32, rest: seq<byte>)
    requires DistinctNums(m) && i < |m| && m[i].value.Int32?
    ensures Unmarshal(m, Tag(m[i].num, VARINT) + EncodeVarint(SignExtend(d)) + rest)
         == Unmarshal(m[i := Field(m[i].num, Int32(d))], rest)
  {
    hide EncodeVarint, ReadVarint, Unmarshal, Tag, DistinctNums;
    ReadWord(SignExtend(d), rest);
    ExtendTruncate(d);
    OccurrenceReads(m, i, VARINT, EncodeVarint(SignExtend(d)), rest);
  }

  lemma StrReads(m: Message, i: nat, s: gostring, rest: seq<byte>)
    requires DistinctNums(m) && i < |m| && m[i].value.Str?
    ensures Unmarshal(m, Delimited(m[i].num, s) + rest) == Unmarshal(m[i := Field(m[i].num, Str(s))], rest)
  {
    var payload := EncodeVarint(|s|) + s;
    assert Delimited(m[i].num, s) == Tag(m[i].num, BYTES) + payload;
    StringReads(s, rest);
    OccurrenceReads(m, i, BYTES, payload, rest);
  }

  lemma FieldReads(m: Message, i: nat, f: Field, rest: seq<byte>)
    requires DistinctNums(m) && i < |m| && m[i].num == f.num && SameKind(m[i].value, f.value)
    ensures Unmarshal(m, EncodeField(f) + rest)
         == Unmarshal(m[i := Field(f.num, MergeValue(m[i].value, f.value))], rest)
  {
    if EncodeField(f) == [] && !f.value.Strs? {
      assert EncodeField(f) + rest == rest;
      assert m[i := Field(f.num, m[i].value)] == m;
    } else {
      match f.value
      case Bool(b) => BoolReads(m, i, rest);
      case Int32(d) => Int32Reads(m, i, d, rest);
      case Str(s) => StrReads(m, i, s, rest);
      case Strs(ss) => RepeatedReads(m, i, ss, rest);
    }
  }

  lemma {:induction false} MergeFrom(m: Message, n: Message, k: nat, cur: Message)
    requires SameType(m, n) && DistinctNums(m) && k <= |m|
    requires cur == Merge(m, n)[..k] + m[k..]
    ensures Unmarshal(cur, Encode(n[k..])) == Parsed(Merge(m, n), None)
    decreases |m| - k
  {
    hide EncodeField, ParseField, DistinctNums, MergeValue;
    SameNums(m, cur);
    if k < |m| {
      var next := cur[k := Field(n[k].num, MergeValue(m[k].value, n[k].value))];
      FieldReads(cur, k, n[k], Encode(n[k + 1..]));
      assert n[k..][0] == n[k] && n[k..][1..] == n[k + 1..];
      assert next == Merge(m, n)[..k + 1] + m[k + 1..];
      MergeFrom(m, n, k + 1, next);
    } else {
      assert cur == Merge(m, n);
    }
  }

  /** Parsing the print of n into m: n's set fields replace m's, its repeated elements are appended. */
  lemma ParsePrinted(m: Message, n: Message)
    requires SameType(m, n) && DistinctNums(m)
    ensures Unmarshal(m, Encode(n)) == Parsed(Merge(m, n), None)
  {
    assert n[0..] == n && m == Merge(m, n)[..0] + m[0..];
    MergeFrom(m, n, 0, m);
  }

  /** The round trip, for every message of every type. */
  lemma RoundTrip(m: Message)
    requires DistinctNums(m)
    ensures Unmarshal(Zero(m), Encode(m)) == Parsed(m, None)
  {
    MergeIntoZero(m);
    ParsePrinted(Zero(m), m);
  }

  lemma MergeIntoZero(m: Message)
    ensures SameType(Zero(m), m) && Merge(Zero(m), m) == m
  {
    forall i | 0 <= i < |m|
      ensures MergeValue(ZeroValue(m[i].value), m[i].value) == m[i].value
    {
      if m[i].value.Strs? { assert [] + m[i].value.ss == m[i].value.ss; }
    }
  }

  /** Two prints back to back: the last one wins field by field, repeated fields are concatenated. */
  lemma LastOneWins(m: Message, n: Message)
    requires SameType(m, n) && DistinctNums(m)
    ensures Unmarshal(Zero(m), Encode(m) + Encode(n)) == Parsed(Merge(m, n), None)
  {
    RoundTrip(m);
    ParseStream(Zero(m), Encode(m), Encode(n));
    ParsePrinted(m, n);
  }

  // ---------- unknown fields ----------

  /** A field of any wire type as the source skips it. Tags and lengths are varints in any form, of any number; a group
      holds such fields, to any depth, and is closed by any end-group tag. */
  datatype Unknown =
    | UVarint(tag: seq<byte>, raw: seq<byte>)
    | UFixed64(tag: seq<byte>, data: seq<byte>)
    | UBytes(tag: seq<byte>, length: seq<byte>, payload: gostring)
    | UGroup(tag: seq<byte>, fields: seq<Unknown>, close: seq<byte>)
    | UFixed32(tag: seq<byte>, data: seq<byte>)

  /** raw is one complete varint, shortest form or not. */
  predicate IsVarint(raw: seq<byte>) { ReadVarint(raw, 0).err.None? && ReadVarint(raw, 0).len == |raw| }

  /** The 64-bit word of a varint, and its two parts if it is a tag. */
  function Word(raw: seq<byte>): uint64 { ReadVarint(raw, 0).value % U64 }
  function NumberOf(tag: seq<byte>): int32 { FieldNumber(Word(tag)) }
  predicate IsTag(tag: seq<byte>, wireType: nat) { IsVarint(tag) && Word(tag) % 8 == wireType }

  predicate WellFormed(u: Unknown) {
    && IsTag(u.tag, UnknownType(u))
    && match u
       case UVarint(_, raw) => IsVarint(raw)
       case UFixed64(_, data) => |data| == 8
       case UBytes(_, length, payload) => IsVarint(length) && Word(length) == |payload|
       case UGroup(_, fields, close) => IsTag(close, END_GROUP) && forall v | v in fields :: WellFormed(v)
       case UFixed32(_, data) => |data| == 4
  }

  function UnknownType(u: Unknown): nat {
    match u case UVarint(_, _) => 0 case UFixed64(_, _) => 1 case UBytes(_, _, _) => 2
            case UGroup(_, _, _) => 3 case UFixed32(_, _) => 5
  }

  function UnknownBody(u: Unknown): seq<byte>
    decreases u, 0
  {
    match u
    case UVarint(_, raw) => raw
    case UFixed64(_, data) => data
    case UBytes(_, length, payload) => length + payload
    case UGroup(_, fields, close) => EncodeUnknowns(fields) + close
    case UFixed32(_, data) => data
  }

  function EncodeUnknown(u: Unknown): seq<byte>
    decreases u, 1
  {
    u.tag + UnknownBody(u)
  }

  function EncodeUnknowns(us: seq<Unknown>): seq<byte>
    decreases us, 0
  {
    if us == [] then [] else EncodeUnknown(us[0]) + EncodeUnknowns(us[1..])
  }

  /** How Skip measures what follows a tag. */
  function BodyLength(wireType: nat, s: seq<byte>): Skipped
  {
    match wireType
    case 0 => var v := ReadVarint(s, 0); if v.err.Some? then Skipped(0, v.err) else Skipped(v.len, None)
    case 1 => Skipped(8, None)
    case 2 =>
      var v := ReadVarint(s, 0);
      if v.err.Some? then Skipped(0, v.err)
      else if v.value % U64 >= I63 then Skipped(0, Some(InvalidLength))
      else Skipped(v.len + v.value % U64, None)
    case 3 => SkipGroup(s)
    case 5 => Skipped(4, None)
    case _ => Skipped(0, Some(IllegalWireType))
  }

  /** A complete varint in front of anything reads as it does alone. */
  lemma VarintReads(raw: seq<byte>, s: seq<byte>)
    requires IsVarint(raw)
    ensures ReadVarint(raw + s, 0) == ReadVarint(raw, 0) && (raw + s)[|raw|..] == s
  {
    ReadStable(raw, s, 0);
  }

  lemma SkipTagged(tag: seq<byte>, wireType: nat, s: seq<byte>)
    requires IsTag(tag, wireType) && wireType in {0, 1, 2, 3, 5} && BodyLength(wireType, s).err.None?
    ensures Skip(tag + s) == Skipped(|tag| + BodyLength(wireType, s).len, None)
  {
    VarintReads(tag, s);
  }

  /** Skipping measures exactly the field that starts the input. */
  lemma {:induction false} SkipUnknown(u: Unknown, rest: seq<byte>)
    requires WellFormed(u)
    ensures Skip(EncodeUnknown(u) + rest) == Skipped(|EncodeUnknown(u)|, None)
    decreases u, 1
  {
    assert EncodeUnknown(u) + rest == u.tag + (UnknownBody(u) + rest);
    BodyMeasured(u, rest);
    SkipTagged(u.tag, UnknownType(u), UnknownBody(u) + rest);
  }

  lemma {:induction false} BodyMeasured(u: Unknown, rest: seq<byte>)
    requires WellFormed(u)
    ensures BodyLength(UnknownType(u), UnknownBody(u) + rest) == Skipped(|UnknownBody(u)|, None)
    decreases u, 0
  {
    hide ReadVarint, SkipGroup;
    match u
    case UVarint(_, raw) => VarintReads(raw, rest);
    case UBytes(_, length, payload) =>
      assert UnknownBody(u) + rest == length + (payload + rest);
      VarintReads(length, payload + rest);
    case UGroup(_, fields, close) =>
      assert UnknownBody(u) + rest == EncodeUnknowns(fields) + (close + rest);
      SkipInside(fields, close, rest);
    case _ =>
  }

  lemma {:induction false} SkipInside(us: seq<Unknown>, close: seq<byte>, rest: seq<byte>)
    requires IsTag(close, END_GROUP) && forall v | v in us :: WellFormed(v)
    ensures SkipGroup(EncodeUnknowns(us) + (close + rest)) == Skipped(|EncodeUnknowns(us)| + |close|, None)
    decreases us, 0
  {
    var end := close + rest;
    var s := EncodeUnknowns(us) + end;
    if us == [] {
      assert s == end;
      VarintReads(close, rest);
    } else {
      var first, tail := EncodeUnknown(us[0]), EncodeUnknowns(us[1..]) + end;
      assert s == first + tail;
      SkipUnknown(us[0], tail);
      UnknownTag(us[0], tail);
      assert s[|first|..] == tail;
      SkipInside(us[1..], close, rest);
    }
  }

  lemma UnknownTag(u: Unknown, rest: seq<byte>)
    requires WellFormed(u)
    ensures ReadVarint(EncodeUnknown(u) + rest, 0) == ReadVarint(u.tag, 0)
  {
    assert EncodeUnknown(u) + rest == u.tag + (UnknownBody(u) + rest);
    VarintReads(u.tag, UnknownBody(u) + rest);
  }

  predicate Knows(m: Message, num: int) { exists i :: 0 <= i < |m| && m[i].num == num }

  /** A field with an unknown number, put between an accepted input and anything, is invisible, whatever form its tags
      have, and whatever is in its groups and closes them. */
  lemma UnknownInvisible(m: Message, a: seq<byte>, u: Unknown, b: seq<byte>)
    requires Unmarshal(m, a).err.None? && WellFormed(u) && NumberOf(u.tag) > 0 && !Knows(m, NumberOf(u.tag))
    ensures Unmarshal(m, a + EncodeUnknown(u) + b) == Unmarshal(m, a + b)
  {
    var m', e := Unmarshal(m, a).m, EncodeUnknown(u);
    assert a + e + b == a + (e + b);
    assert Unmarshal(m, a + (e + b)) == Unmarshal(m', e + b) by { ParseStream(m, a, e + b); }
    assert Unmarshal(m', e + b) == Unmarshal(m', b) by {
      StillUnknown(m, a, NumberOf(u.tag));
      UnknownSkipped(m', u, b);
    }
    assert Unmarshal(m, a + b) == Unmarshal(m', b) by { ParseStream(m, a, b); }
  }

  lemma StillUnknown(m: Message, a: seq<byte>, num: int)
    requires !Knows(m, num)
    ensures !Knows(Unmarshal(m, a).m, num)
  {
    UnmarshalKeepsType(m, a);
  }

  lemma UnknownSkipped(m: Message, u: Unknown, b: seq<byte>)
    requires WellFormed(u) && NumberOf(u.tag) > 0 && !Knows(m, NumberOf(u.tag))
    ensures Unmarshal(m, EncodeUnknown(u) + b) == Unmarshal(m, b)
  {
    hide ReadVarint, Skip, FieldNumber;
    var e := EncodeUnknown(u);
    SkipUnknown(u, b);
    UnknownTag(u, b);
    assert Find(m, NumberOf(u.tag)).None?;
    assert e != [] && (e + b)[|e|..] == b;
    assert ParseField(m, e + b) == Step(m, |e|, None);
  }

  // ---------- every field that is skipped is such a field ----------

  /** The first varint of an input is a varint by itself. */
  lemma {:induction false} VarintPrefix(s: seq<byte>, shift: nat)
    requires ReadVarint(s, shift).err.None?
    ensures ReadVarint(s[..ReadVarint(s, shift).len], shift) == ReadVarint(s, shift)
    decreases |s|
  {
    if s[0] >= 0x80 {
      VarintPrefix(s[1..], shift + 7);
      var n := ReadVarint(s, shift).len;
      assert s[..n][1..] == s[1..][..n - 1];
    }
  }

  /** Whatever bytes the source skips within the input are one well-formed field, unless they are a lone end-
      group tag. */
  lemma {:induction false} SkippedIsField(s: seq<byte>) returns (u: Unknown)
    requires s != [] && Skip(s).err.None? && Skip(s).len <= |s|
    requires Word(s) % 8 != END_GROUP
    ensures WellFormed(u) && EncodeUnknown(u) == s[..Skip(s).len]
    decreases |s|, 0
  {
    hide SkipGroup, WellFormed, UnknownBody;
    var tag := ReadVarint(s, 0);
    var t, rest := s[..tag.len], s[tag.len..];
    VarintPrefix(s, 0);
    assert Skip(s).len == tag.len + BodyLength(Word(s) % 8, rest).len;
    u := BodyIsField(t, Word(s) % 8, rest);
    assert s[..Skip(s).len] == t + rest[..Skip(s).len - tag.len];
  }

  lemma {:induction false} BodyIsField(tag: seq<byte>, wireType: nat, s: seq<byte>) returns (u: Unknown)
    requires IsTag(tag, wireType) && BodyLength(wireType, s).err.None? && BodyLength(wireType, s).len <= |s|
    ensures WellFormed(u) && u.tag == tag && UnknownBody(u) == s[..BodyLength(wireType, s).len]
    decreases |s|, 2
  {
    hide ReadVarint, SkipGroup;
    match wireType {
      case 0 =>
        VarintPrefix(s, 0);
        u := UVarint(tag, s[..ReadVarint(s, 0).len]);
      case 1 => u := UFixed64(tag, s[..8]);
      case 2 =>
        var v := ReadVarint(s, 0);
        VarintPrefix(s, 0);
        u := UBytes(tag, s[..v.len], s[v.len..v.len + v.value % U64]);
        assert UnknownBody(u) == s[..v.len + v.value % U64];
      case 3 =>
        var fields, close := SkippedIsGroup(s);
        u := UGroup(tag, fields, close);
      case _ => u := UFixed32(tag, s[..4]);
    }
  }

  lemma {:induction false} SkippedIsGroup(s: seq<byte>) returns (us: seq<Unknown>, close: seq<byte>)
    requires SkipGroup(s).err.None?
    ensures (forall v | v in us :: WellFormed(v)) && IsTag(close, END_GROUP)
    ensures EncodeUnknowns(us) + close == s[..SkipGroup(s).len]
    decreases |s|, 1
  {
    hide ReadVarint, Skip, WellFormed, EncodeUnknown;
    var tag := ReadVarint(s, 0);
    if Word(s) % 8 == END_GROUP {
      VarintPrefix(s, 0);
      us, close := [], s[..tag.len];
    } else {
      var n, len := Skip(s).len, SkipGroup(s).len;
      var u := SkippedIsField(s);
      var vs, end := SkippedIsGroup(s[n..]);
      us, close := [u] + vs, end;
      assert us[1..] == vs;
      assert s[..len] == s[..n] + s[n..][..len - n];
    }
  }
}
