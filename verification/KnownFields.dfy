/**
 What one known field does to a message when it is parsed, and what stops a parse: each case with its numbers spelled
 out.
 Tags and varints are in any form, printed or not.
 */
module KnownFields {
  import opened Common
  import opened Varint
  import opened Wire
  import opened WireTheorems

  /** A tag that the source takes for field i. */
  predicate TagOf(m: Message, i: nat, tag: seq<byte>, wireType: nat)
    requires i < |m|
  {
    IsTag(tag, wireType) && NumberOf(tag) == m[i].num
  }

  /** One turn on a known field. */
  lemma KnownTurn(m: Message, i: nat, tag: seq<byte>, wireType: nat, s: seq<byte>)
    requires DistinctNums(m) && i < |m| && TagOf(m, i, tag, wireType) && wireType != END_GROUP
    ensures var r := ParseValue(m[i].value, wireType, s);
      var m' := m[i := Field(m[i].num, r.value)];
      Unmarshal(m, tag + s) == if r.err.Some? then Parsed(m', r.err) else Unmarshal(m', s[r.len..])
  {
    hide ParseValue, ParseField, FieldNumber, DistinctNums, ReadVarint;
    KnownParse(m, i, tag, wireType, s);
    var r := ParseValue(m[i].value, wireType, s);
    if r.err.None? { assert (tag + s)[|tag| + r.len..] == s[r.len..]; }
  }

  lemma KnownParse(m: Message, i: nat, tag: seq<byte>, wireType: nat, s: seq<byte>)
    requires DistinctNums(m) && i < |m| && TagOf(m, i, tag, wireType) && wireType != END_GROUP
    ensures tag != []
    ensures var r := ParseValue(m[i].value, wireType, s);
      ParseField(m, tag + s) == Step(m[i := Field(m[i].num, r.value)], |tag| + r.len, r.err)
  {
    hide ParseValue, FieldNumber, DistinctNums, Find, ReadVarint, Skip;
    VarintReads(tag, s);
    FindAt(m, i);
  }

  lemma NothingLeft(m: Message, s: seq<byte>, n: nat)
    requires n == |s|
    ensures Unmarshal(m, s[n..]) == Parsed(m, None)
  {
    assert s[n..] == [];
  }

  /** A bool is true unless its 64-bit word is 0. */
  lemma BoolTaken(m: Message, i: nat, tag: seq<byte>, raw: seq<byte>)
    requires DistinctNums(m) && i < |m| && m[i].value.Bool? && TagOf(m, i, tag, 0) && IsVarint(raw)
    ensures Unmarshal(m, tag + raw) == Parsed(m[i := Field(m[i].num, Bool(Word(raw) != 0))], None)
  {
    hide Unmarshal, DistinctNums, TagOf, ReadVarint;
    KnownTurn(m, i, tag, 0, raw);
    NothingLeft(m[i := Field(m[i].num, Bool(Word(raw) != 0))], raw, |raw|);
  }

  /** An int32 becomes the number with the low 32 bits of its word. */
  lemma Int32Taken(m: Message, i: nat, tag: seq<byte>, raw: seq<byte>) returns (d: int32)
    requires DistinctNums(m) && i < |m| && m[i].value.Int32? && TagOf(m, i, tag, 0) && IsVarint(raw)
    ensures Unmarshal(m, tag + raw) == Parsed(m[i := Field(m[i].num, Int32(d))], None)
    ensures (d - Word(raw)) % 0x1_0000_0000 == 0
  {
    hide Truncate32, Unmarshal, DistinctNums, TagOf, ReadVarint;
    d := Truncate32(ReadVarint(raw, 0).value);
    KnownTurn(m, i, tag, 0, raw);
    NothingLeft(m[i := Field(m[i].num, Int32(d))], raw, |raw|);
    TruncateExactly(ReadVarint(raw, 0).value);
    SameLowBits(d, ReadVarint(raw, 0).value);
  }

  lemma SameLowBits(d: int, value: nat)
    requires (d - value) % 0x1_0000_0000 == 0
    ensures (d - value % U64) % 0x1_0000_0000 == 0
  {
    var k, q := (d - value) / 0x1_0000_0000, value / U64;
    assert value == q * U64 + value % U64;
    assert d - value % U64 == (k + q * 0x1_0000_0000) * 0x1_0000_0000;
  }

  /** An int32 whose varint is cut off keeps the bits read so far; every other field keeps its value. */
  lemma CutOff(m: Message, i: nat, tag: seq<byte>)
    requires DistinctNums(m) && i < |m| && (m[i].value.Int32? || m[i].value.Bool?) && TagOf(m, i, tag, 0)
    ensures Unmarshal(m, tag + [0x85])
         == Parsed(if m[i].value.Int32? then m[i := Field(m[i].num, Int32(5))] else m, Some(UnexpectedEOF))
  {
    assert [0x85][1..] == [];
    assert ReadVarint([0x85], 0) == Read(5, 1, Some(UnexpectedEOF));
    hide Unmarshal, DistinctNums, TagOf, ReadVarint;
    KnownTurn(m, i, tag, 0, [0x85]);
    if m[i].value.Bool? { assert m[i := Field(m[i].num, m[i].value)] == m; }
  }

  /** A string is as many bytes as its length says; in a list it is appended. */
  lemma StringTaken(m: Message, i: nat, tag: seq<byte>, length: seq<byte>, s: gostring)
    requires DistinctNums(m) && i < |m| && TagOf(m, i, tag, 2) && IsVarint(length) && Word(length) == |s|
    requires m[i].value.Str? || m[i].value.Strs?
    ensures var v := if m[i].value.Str? then Str(s) else Strs(m[i].value.ss + [s]);
      Unmarshal(m, tag + (length + s)) == Parsed(m[i := Field(m[i].num, v)], None)
  {
    hide ReadVarint, DistinctNums, Unmarshal, TagOf, ParseString, Word, IsVarint;
    StringWhole(length, s);
    var v := if m[i].value.Str? then Str(s) else Strs(m[i].value.ss + [s]);
    KnownTurn(m, i, tag, 2, length + s);
    NothingLeft(m[i := Field(m[i].num, v)], length + s, |length + s|);
  }

  lemma StringWhole(length: seq<byte>, s: gostring)
    requires IsVarint(length) && Word(length) == |s|
    ensures ParseString(2, length + s) == StringRead(s, |length + s|, None)
  {
    hide ReadVarint;
    VarintReads(length, s);
    assert (length + s)[|length|..|length| + |s|] == s;
  }

  /** A length beyond the input, or with the top bit of 64, stops the parse and leaves the message. */
  lemma BadLengthStops(m: Message, i: nat, tag: seq<byte>, length: seq<byte>, s: seq<byte>)
    requires DistinctNums(m) && i < |m| && TagOf(m, i, tag, 2) && IsVarint(length) && Word(length) > |s|
    requires m[i].value.Str? || m[i].value.Strs?
    ensures Unmarshal(m, tag + (length + s))
         == Parsed(m, Some(if Word(length) >= 0x8000_0000_0000_0000 then InvalidLength else UnexpectedEOF))
  {
    VarintReads(length, s);
    assert m[i := Field(m[i].num, m[i].value)] == m;
    hide ReadVarint, DistinctNums, Unmarshal, TagOf;
    KnownTurn(m, i, tag, 2, length + s);
  }

  /** A known field under another wire type stops the parse and leaves the message: bools and numbers are varints (0),
      strings have a length (2). */
  lemma WrongTypeStops(m: Message, i: nat, tag: seq<byte>, wireType: nat, s: seq<byte>)
    requires DistinctNums(m) && i < |m| && TagOf(m, i, tag, wireType) && wireType != 4
    requires wireType != if m[i].value.Bool? || m[i].value.Int32? then 0 else 2
    ensures Unmarshal(m, tag + s) == Parsed(m, Some(WrongWireType))
  {
    assert m[i := Field(m[i].num, m[i].value)] == m;
    hide ReadVarint, DistinctNums, Unmarshal, TagOf;
    KnownTurn(m, i, tag, wireType, s);
  }

  /** An end-group tag (4) stops the parse whatever its number; else a number of 0 or less does. */
  lemma BadTagStops(m: Message, tag: seq<byte>, s: seq<byte>)
    requires IsVarint(tag) && (Word(tag) % 8 == 4 || NumberOf(tag) <= 0)
    ensures Unmarshal(m, tag + s) == Parsed(m, Some(if Word(tag) % 8 == 4 then EndGroup else IllegalTag))
  {
    VarintReads(tag, s);
  }

  /** How far a field of each wire type reaches after a one-byte tag: to the end of its varint (0), 8 bytes (1), as far
      as its length (2), nothing more (4), 4 bytes (5); the two types left are illegal. */
  lemma SkipTable(tag: byte, s: seq<byte>, raw: seq<byte>)
    requires tag < 128 && IsVarint(raw) && Word(raw) < 0x8000_0000_0000_0000
    ensures tag % 8 == 0 ==> Skip([tag] + (raw + s)) == Skipped(1 + |raw|, None)
    ensures tag % 8 == 1 ==> Skip([tag] + s) == Skipped(9, None)
    ensures tag % 8 == 2 ==> Skip([tag] + (raw + s)) == Skipped(1 + |raw| + Word(raw), None)
    ensures tag % 8 == 4 ==> Skip([tag] + s) == Skipped(1, None)
    ensures tag % 8 == 5 ==> Skip([tag] + s) == Skipped(5, None)
    ensures tag % 8 >= 6 ==> Skip([tag] + s) == Skipped(0, Some(IllegalWireType))
  {
    VarintReads(raw, s);
    assert ([tag] + s)[1..] == s && ([tag] + (raw + s))[1..] == raw + s;
    assert ReadVarint([tag] + s, 0) == ReadVarint([tag] + (raw + s), 0) == Read(tag, 1, None);
  }
}
