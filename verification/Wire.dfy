// The Protocol Buffers wire format: varint tags, varints, fixed-width values, length-delimited values
// and groups (Protocol Buffers Encoding, "Message Structure").
module Wire {
  import opened Prelude

  const MAX_FIELD_NUMBER := 0x1FFF_FFFF

  datatype Field =
    | Varint(num: nat, value: nat)
    | Fixed64(num: nat, raw: Bytes)
    | Delimited(num: nat, data: Bytes)
    | Group(num: nat)
    | Fixed32(num: nat, raw: Bytes)

  /******* Varints *******/

  function EncodeVarint(n: nat): (bs: Bytes)
    ensures bs != []
  {
    if n < 128 then [n] else [n % 128 + 128] + EncodeVarint(n / 128)
  }

  /** Least-significant group first; every byte but the last has its high bit set. */
  function DecodeVarint(bs: Bytes): (r: Option<(nat, Bytes)>)
    ensures r.Some? ==> IsProperSuffix(r.value.1, bs)
  {
    if bs == [] then None
    else if bs[0] < 128 then Some((bs[0], bs[1..]))
    else
      var (high, rest) :- DecodeVarint(bs[1..]);
      Some((bs[0] - 128 + 128 * high, rest))
  }

  predicate IsProperSuffix(rest: Bytes, bs: Bytes) {
    |rest| < |bs| && rest == bs[|bs| - |rest|..]
  }

  lemma {:induction false} VarintRoundTrip(n: nat, rest: Bytes)
    ensures DecodeVarint(EncodeVarint(n) + rest) == Some((n, rest))
  {
    var bs := EncodeVarint(n) + rest;
    if n < 128 {
      assert bs[1..] == rest;
    } else {
      VarintRoundTrip(n / 128, rest);
      assert bs[1..] == EncodeVarint(n / 128) + rest;
    }
  }

  /******* Fields *******/

  function EncodeTag(num: nat, wireType: nat): Bytes {
    EncodeVarint(num * 8 + wireType)
  }

  function DecodeTag(bs: Bytes): (r: Option<(nat, nat, Bytes)>)
    ensures r.Some? ==> 0 < r.value.0 <= MAX_FIELD_NUMBER && r.value.1 < 8 && IsProperSuffix(r.value.2, bs)
  {
    var (tag, rest) :- DecodeVarint(bs);
    var num := tag / 8;
    if 0 < num <= MAX_FIELD_NUMBER then Some((num, tag % 8, rest)) else None
  }

  /** Splits the first field off `bs`; fails on a truncated or malformed field, and on an end-group tag. */
  function ReadField(bs: Bytes): (r: Option<(Field, Bytes)>)
    ensures r.Some? ==> IsProperSuffix(r.value.1, bs)
    decreases |bs|, 0
  {
    var (num, wireType, rest) :- DecodeTag(bs);
    match wireType
    case 0 =>
      var (value, rest') :- DecodeVarint(rest);
      Some((Varint(num, value), rest'))
    case 1 =>
      if |rest| < 8 then None else Some((Fixed64(num, rest[..8]), rest[8..]))
    case 2 =>
      var (length, rest') :- DecodeVarint(rest);
      if |rest'| < length then None else Some((Delimited(num, rest'[..length]), rest'[length..]))
    case 3 =>
      var rest' :- SkipGroup(num, rest);
      Some((Group(num), rest'))
    case 5 =>
      if |rest| < 4 then None else Some((Fixed32(num, rest[..4]), rest[4..]))
    case _ => None
  }

  /** Skips the fields of group `num` up to and including its end-group tag. */
  function SkipGroup(num: nat, bs: Bytes): (r: Option<Bytes>)
    ensures r.Some? ==> IsProperSuffix(r.value, bs)
    decreases |bs|, 1
  {
    var (tagNum, wireType, rest) :- DecodeTag(bs);
    if wireType == 4 then
      if tagNum == num then Some(rest) else None
    else
      var (_, rest') :- ReadField(bs);
      SkipGroup(num, rest')
  }

  function Parse(bs: Bytes): Option<seq<Field>> {
    if bs == [] then Some([])
    else
      var (field, rest) :- ReadField(bs);
      var fields :- Parse(rest);
      Some([field] + fields)
  }

  /** The two kinds of field the proposal and transaction messages emit. */
  predicate Emittable(f: Field) {
    (f.Varint? || f.Delimited?) && 0 < f.num <= MAX_FIELD_NUMBER
  }

  function EncodeField(f: Field): (bs: Bytes)
    requires Emittable(f)
    ensures bs != []
  {
    if f.Varint? then EncodeTag(f.num, 0) + EncodeVarint(f.value)
    else EncodeTag(f.num, 2) + EncodeVarint(|f.data|) + f.data
  }

  function Encode(fs: seq<Field>): (bs: Bytes)
    requires forall f | f in fs :: Emittable(f)
    ensures bs == [] <==> fs == []
  {
    if fs == [] then [] else EncodeField(fs[0]) + Encode(fs[1..])
  }

  lemma TagRoundTrip(num: nat, wireType: nat, rest: Bytes)
    requires 0 < num <= MAX_FIELD_NUMBER && wireType < 8
    ensures DecodeTag(EncodeTag(num, wireType) + rest) == Some((num, wireType, rest))
  {
    VarintRoundTrip(num * 8 + wireType, rest);
  }

  lemma ReadDelimited(bs: Bytes, num: nat, data: Bytes, rest: Bytes)
    requires DecodeTag(bs).Some? && DecodeTag(bs).value.0 == num && DecodeTag(bs).value.1 == 2
    requires DecodeVarint(DecodeTag(bs).value.2) == Some((|data|, data + rest))
    ensures ReadField(bs) == Some((Delimited(num, data), rest))
  {
    assert (data + rest)[..|data|] == data && (data + rest)[|data|..] == rest;
  }

  lemma VarintFieldRoundTrip(num: nat, value: nat, rest: Bytes)
    requires 0 < num <= MAX_FIELD_NUMBER
    ensures ReadField(EncodeTag(num, 0) + EncodeVarint(value) + rest) == Some((Varint(num, value), rest))
  {
    AppendAssociative(EncodeTag(num, 0), EncodeVarint(value), rest);
    TagRoundTrip(num, 0, EncodeVarint(value) + rest);
    VarintRoundTrip(value, rest);
  }

  lemma DelimitedFieldRoundTrip(num: nat, data: Bytes, rest: Bytes)
    requires 0 < num <= MAX_FIELD_NUMBER
    ensures ReadField(EncodeTag(num, 2) + EncodeVarint(|data|) + data + rest) == Some((Delimited(num, data), rest))
  {
    var tag, length := EncodeTag(num, 2), EncodeVarint(|data|);
    AppendAssociative(tag + length, data, rest);
    AppendAssociative(tag, length, data + rest);
    TagRoundTrip(num, 2, length + (data + rest));
    VarintRoundTrip(|data|, data + rest);
    ReadDelimited(tag + length + data + rest, num, data, rest);
  }

  lemma FieldRoundTrip(f: Field, rest: Bytes)
    requires Emittable(f)
    ensures ReadField(EncodeField(f) + rest) == Some((f, rest))
  {
    if f.Varint? {
      VarintFieldRoundTrip(f.num, f.value, rest);
    } else {
      DelimitedFieldRoundTrip(f.num, f.data, rest);
    }
  }

  lemma ParseStep(bs: Bytes, f: Field, rest: Bytes, fs: seq<Field>)
    requires bs != [] && ReadField(bs) == Some((f, rest)) && Parse(rest) == Some(fs)
    ensures Parse(bs) == Some([f] + fs)
  {
  }

  /** Parsing inverts encoding on every list of emitted fields, repeated field numbers included. */
  lemma {:induction false} ParseInvertsEncode(fs: seq<Field>)
    requires forall f | f in fs :: Emittable(f)
    ensures Parse(Encode(fs)) == Some(fs)
  {
    if fs != [] {
      var rest := Encode(fs[1..]);
      ParseInvertsEncode(fs[1..]);
      FieldRoundTrip(fs[0], rest);
      ParseStep(EncodeField(fs[0]) + rest, fs[0], rest, fs[1..]);
      assert fs == [fs[0]] + fs[1..];
    }
  }

  /******* Reading parsed fields *******/

  /** A proto3 bytes or string field: the last occurrence wins, absent means empty. */
  function LastBytes(fs: seq<Field>, num: nat): Bytes {
    if fs == [] then []
    else
      var last := fs[|fs| - 1];
      if last.Delimited? && last.num == num then last.data else LastBytes(fs[..|fs| - 1], num)
  }

  /** A proto3 integer field: the last occurrence wins, absent means zero. */
  function LastVarint(fs: seq<Field>, num: nat): nat {
    if fs == [] then 0
    else
      var last := fs[|fs| - 1];
      if last.Varint? && last.num == num then last.value else LastVarint(fs[..|fs| - 1], num)
  }

  /** The last occurrence of the right kind decides, whatever came before it and whatever else follows. */
  lemma {:induction false} LastWins(before: seq<Field>, f: Field, after: seq<Field>)
    requires f.Delimited? ==> forall g | g in after :: !(g.Delimited? && g.num == f.num)
    requires f.Varint? ==> forall g | g in after :: !(g.Varint? && g.num == f.num)
    ensures f.Delimited? ==> LastBytes(before + [f] + after, f.num) == f.data
    ensures f.Varint? ==> LastVarint(before + [f] + after, f.num) == f.value
    decreases |after|
  {
    var fs := before + [f] + after;
    if after == [] {
      assert fs[|fs| - 1] == f;
    } else {
      var n := |after| - 1;
      assert after[n] in after && forall g | g in after[..n] :: g in after;
      LastWins(before, f, after[..n]);
      assert fs[..|fs| - 1] == before + [f] + after[..n] && fs[|fs| - 1] == after[n];
    }
  }

  /** A field that does not occur has its default. */
  lemma {:induction false} AbsentIsDefault(fs: seq<Field>, num: nat)
    ensures (forall f | f in fs :: !(f.Delimited? && f.num == num)) ==> LastBytes(fs, num) == []
    ensures (forall f | f in fs :: !(f.Varint? && f.num == num)) ==> LastVarint(fs, num) == 0
  {
    if fs != [] {
      var n := |fs| - 1;
      assert fs[n] in fs && forall f | f in fs[..n] :: f in fs;
      AbsentIsDefault(fs[..n], num);
    }
  }

  /** Every length-delimited occurrence of a field, in order. */
  function Occurrences(fs: seq<Field>, num: nat): seq<Bytes> {
    if fs == [] then [] else Occurrence(fs[0], num) + Occurrences(fs[1..], num)
  }

  function Occurrence(f: Field, num: nat): seq<Bytes> {
    if f.Delimited? && f.num == num then [f.data] else []
  }

  function Flatten(parts: seq<Bytes>): Bytes {
    if parts == [] then [] else parts[0] + Flatten(parts[1..])
  }

  predicate AllParse(parts: seq<Bytes>) {
    forall p | p in parts :: Parse(p).Some?
  }

  /** An embedded message. Occurrences merge, and parsing the concatenation of encodings is the merge. */
  function Embedded(fs: seq<Field>, num: nat): Bytes {
    Flatten(Occurrences(fs, num))
  }

  predicate Mentions(fs: seq<Field>, num: nat) {
    exists f | f in fs :: f.num == num
  }

  lemma MentionsAppend(a: seq<Field>, b: seq<Field>, num: nat)
    ensures Mentions(a + b, num) <==> Mentions(a, num) || Mentions(b, num)
  {
    if f :| f in a && f.num == num {
      assert f in a + b;
    }
    if f :| f in b && f.num == num {
      assert f in a + b;
    }
  }

  lemma {:induction false} LastBytesIs(fs: seq<Field>, num: nat, data: Bytes)
    requires forall f | f in fs && f.num == num :: f == Delimited(num, data)
    requires data == [] || Delimited(num, data) in fs
    ensures LastBytes(fs, num) == data
  {
    if fs != [] {
      var front, last := fs[..|fs| - 1], fs[|fs| - 1];
      if last.num != num {
        assert fs == front + [last];
        LastBytesIs(front, num, data);
      }
    }
  }

  lemma OccurrencesCons(f: Field, fs: seq<Field>, num: nat)
    ensures Occurrences([f] + fs, num) == Occurrence(f, num) + Occurrences(fs, num)
  {
    assert ([f] + fs)[1..] == fs;
  }

  lemma {:induction false} OccurrencesAppend(a: seq<Field>, b: seq<Field>, num: nat)
    ensures Occurrences(a + b, num) == Occurrences(a, num) + Occurrences(b, num)
  {
    if a == [] {
      assert a + b == b;
    } else {
      var tail := a[1..];
      OccurrencesAppend(tail, b, num);
      OccurrencesCons(a[0], tail + b, num);
      OccurrencesCons(a[0], tail, num);
      AppendAssociative([a[0]], tail, b);
      AppendAssociative(Occurrence(a[0], num), Occurrences(tail, num), Occurrences(b, num));
      assert [a[0]] + tail == a;
    }
  }

  lemma {:induction false} NoOccurrences(fs: seq<Field>, num: nat)
    requires !Mentions(fs, num)
    ensures Occurrences(fs, num) == []
  {
    if fs != [] {
      assert fs[0] in fs;
      NoOccurrences(fs[1..], num);
    }
  }

  /** A field emitted exactly once, between fields of other numbers. */
  lemma OccursOnce(before: seq<Field>, num: nat, data: Bytes, after: seq<Field>)
    requires !Mentions(before, num) && !Mentions(after, num)
    ensures Occurrences(before + [Delimited(num, data)] + after, num) == [data]
    ensures Embedded(before + [Delimited(num, data)] + after, num) == data
  {
    OccurrencesAppend(before + [Delimited(num, data)], after, num);
    OccurrencesAppend(before, [Delimited(num, data)], num);
    NoOccurrences(before, num);
    NoOccurrences(after, num);
    assert Occurrences([Delimited(num, data)], num) == [data];
    assert Flatten([data]) == data;
  }

  /** One emitted field per element of `parts`, all with number `num`. */
  function Repeat(num: nat, parts: seq<Bytes>): (fs: seq<Field>)
    ensures |fs| == |parts|
    ensures forall i | 0 <= i < |fs| :: fs[i] == Delimited(num, parts[i])
  {
    if parts == [] then [] else [Delimited(num, parts[0])] + Repeat(num, parts[1..])
  }

  lemma {:induction false} RepeatOccurrences(num: nat, parts: seq<Bytes>)
    ensures Occurrences(Repeat(num, parts), num) == parts
  {
    if parts != [] {
      RepeatOccurrences(num, parts[1..]);
      assert Repeat(num, parts)[1..] == Repeat(num, parts[1..]);
    }
  }

  /******* Hexadecimal text read as a message *******/

  /** The byte is an ASCII digit or a lower-case letter a to f. */
  predicate IsHexByte(b: Byte) {
    0x30 <= b <= 0x39 || 0x61 <= b <= 0x66
  }

  predicate IsHexText(bs: Bytes) {
    forall b | b in bs :: IsHexByte(b)
  }

  predicate HexFieldNumber(num: nat) {
    num == 6 || num == 7 || num == 12
  }

  /** Every tag read from lower-case hexadecimal text carries field number 6, 7 or 12, wherever reading stops. */
  lemma HexTextTag(bs: Bytes)
    requires IsHexText(bs) && DecodeTag(bs).Some?
    ensures HexFieldNumber(DecodeTag(bs).value.0)
    ensures IsHexText(DecodeTag(bs).value.2)
  {
    assert bs != [] && IsHexByte(bs[0]);
  }

  /** One field of hexadecimal text: its number is one of the three, and what follows it is hexadecimal text again. */
  lemma HexTextField(bs: Bytes)
    requires IsHexText(bs) && ReadField(bs).Some?
    ensures HexFieldNumber(ReadField(bs).value.0.num)
    ensures IsHexText(ReadField(bs).value.1)
  {
    HexTextTag(bs);
    var rest := ReadField(bs).value.1;
    assert forall b | b in rest :: b in bs;
  }

  lemma ParseSplits(bs: Bytes)
    requires bs != [] && Parse(bs).Some?
    ensures ReadField(bs).Some?
    ensures var (f, rest) := ReadField(bs).value; Parse(rest).Some? && Parse(bs).value == [f] + Parse(rest).value
  {
  }

  lemma {:induction false} HexTextFields(bs: Bytes, fs: seq<Field>)
    requires IsHexText(bs) && Parse(bs) == Some(fs)
    ensures forall f | f in fs :: HexFieldNumber(f.num)
    decreases |bs|
  {
    if bs != [] {
      ParseSplits(bs);
      HexTextField(bs);
      var rest := ReadField(bs).value.1;
      HexTextFields(rest, Parse(rest).value);
    }
  }

  /******* Fields a message does not know, and repeated messages *******/

  /** A fixed-width value is stepped over: eight bytes for wire type 1, four for wire type 5. */
  lemma FixedIsSkipped(num: nat, raw: Bytes, rest: Bytes)
    requires 0 < num <= MAX_FIELD_NUMBER
    ensures |raw| == 8 ==> ReadField(EncodeTag(num, 1) + (raw + rest)) == Some((Fixed64(num, raw), rest))
    ensures |raw| == 4 ==> ReadField(EncodeTag(num, 5) + (raw + rest)) == Some((Fixed32(num, raw), rest))
  {
    TagRoundTrip(num, 1, raw + rest);
    TagRoundTrip(num, 5, raw + rest);
    assert (raw + rest)[..|raw|] == raw && (raw + rest)[|raw|..] == rest;
  }

  lemma {:induction false} GroupEnds(num: nat, fs: seq<Field>, rest: Bytes)
    requires 0 < num <= MAX_FIELD_NUMBER && forall f | f in fs :: Emittable(f)
    ensures SkipGroup(num, Encode(fs) + (EncodeTag(num, 4) + rest)) == Some(rest)
  {
    hide EncodeTag, EncodeField, SkipGroup, Emittable;
    var tail := EncodeTag(num, 4) + rest;
    if fs == [] {
      GroupEnd(num, rest);
      assert Encode(fs) + tail == tail;
    } else {
      var more := Encode(fs[1..]) + tail;
      GroupEnds(num, fs[1..], rest);
      GroupStep(num, fs[0], more, rest);
      AppendAssociative(EncodeField(fs[0]), Encode(fs[1..]), tail);
    }
  }

  lemma GroupEnd(num: nat, rest: Bytes)
    requires 0 < num <= MAX_FIELD_NUMBER
    ensures SkipGroup(num, EncodeTag(num, 4) + rest) == Some(rest)
  {
    TagRoundTrip(num, 4, rest);
  }

  lemma GroupStep(num: nat, f: Field, more: Bytes, rest: Bytes)
    requires Emittable(f) && SkipGroup(num, more) == Some(rest)
    ensures SkipGroup(num, EncodeField(f) + more) == Some(rest)
  {
    hide EncodeField, ReadField, DecodeTag;
    FieldRoundTrip(f, more);
    FieldTag(f, more);
  }

  /** The tag at the front of an emitted field is not the end of a group. */
  lemma FieldTag(f: Field, rest: Bytes)
    requires Emittable(f)
    ensures DecodeTag(EncodeField(f) + rest).Some? && DecodeTag(EncodeField(f) + rest).value.1 != 4
  {
    if f.Varint? {
      TagRoundTrip(f.num, 0, EncodeVarint(f.value) + rest);
      AppendAssociative(EncodeTag(f.num, 0), EncodeVarint(f.value), rest);
    } else {
      var length := EncodeVarint(|f.data|);
      TagRoundTrip(f.num, 2, length + f.data + rest);
      assert EncodeField(f) + rest == EncodeTag(f.num, 2) + (length + f.data + rest);
    }
  }

  /** A group is stepped over with everything in it. */
  lemma GroupIsSkipped(num: nat, fs: seq<Field>, rest: Bytes)
    requires 0 < num <= MAX_FIELD_NUMBER && forall f | f in fs :: Emittable(f)
    ensures ReadField(EncodeTag(num, 3) + (Encode(fs) + (EncodeTag(num, 4) + rest))) == Some((Group(num), rest))
  {
    GroupEnds(num, fs, rest);
    TagRoundTrip(num, 3, Encode(fs) + (EncodeTag(num, 4) + rest));
  }

  /** A value that promises more bytes than there are is refused. */
  lemma TruncatedIsRefused(num: nat, length: nat, data: Bytes)
    requires 0 < num <= MAX_FIELD_NUMBER && |data| < length
    ensures ReadField(EncodeTag(num, 2) + (EncodeVarint(length) + data)) == None
  {
    TagRoundTrip(num, 2, EncodeVarint(length) + data);
    VarintRoundTrip(length, data);
  }

  lemma EncodeCons(f: Field, fs: seq<Field>)
    requires Emittable(f) && forall g | g in fs :: Emittable(g)
    ensures (forall g | g in [f] + fs :: Emittable(g)) && Encode([f] + fs) == EncodeField(f) + Encode(fs)
  {
    assert ([f] + fs)[1..] == fs;
  }

  lemma {:induction false} EncodeAppends(a: seq<Field>, b: seq<Field>)
    requires (forall f | f in a :: Emittable(f)) && (forall f | f in b :: Emittable(f))
    ensures (forall f | f in a + b :: Emittable(f)) && Encode(a + b) == Encode(a) + Encode(b)
  {
    if a == [] {
      assert a + b == b;
    } else {
      hide Encode, EncodeField, Emittable;
      var f, tail := a[0], a[1..];
      assert a == [f] + tail;
      EncodeAppends(tail, b);
      EncodeCons(f, tail);
      EncodeCons(f, tail + b);
      AppendAssociative([f], tail, b);
      AppendAssociative(EncodeField(f), Encode(tail), Encode(b));
    }
  }

  /** An embedded message given in two parts is read as one message with the fields of both. */
  lemma EmbeddedMerges(fs: seq<Field>, num: nat, a: seq<Field>, b: seq<Field>)
    requires (forall f | f in a :: Emittable(f)) && (forall f | f in b :: Emittable(f))
    requires Occurrences(fs, num) == [Encode(a), Encode(b)]
    ensures Parse(Embedded(fs, num)) == Some(a + b)
  {
    hide Parse, Encode, Emittable, Occurrences;
    EncodeAppends(a, b);
    ParseInvertsEncode(a + b);
    FlattenPair(Encode(a), Encode(b));
  }

  lemma FlattenPair(a: Bytes, b: Bytes)
    ensures Flatten([a, b]) == a + b
  {
    assert [a, b][1..] == [b] && [b][1..] == [];
    assert Flatten([b]) == b + Flatten([]);
  }

  /** A tag is read exactly when its field number is between 1 and 2^29 - 1. */
  lemma TagExactly(num: nat, wireType: nat, rest: Bytes)
    requires wireType < 8
    ensures DecodeTag(EncodeVarint(num * 8 + wireType) + rest) ==
              if 1 <= num < 536870912 then Some((num, wireType, rest)) else None
  {
    VarintRoundTrip(num * 8 + wireType, rest);
  }

  /** A group must end with its own number. */
  lemma ForeignEndIsRefused(num: nat, other: nat, rest: Bytes)
    requires 0 < num <= MAX_FIELD_NUMBER && 0 < other <= MAX_FIELD_NUMBER && other != num
    ensures ReadField(EncodeTag(num, 3) + (EncodeTag(other, 4) + rest)) == None
    ensures ReadField(EncodeTag(other, 4) + rest) == None
  {
    TagRoundTrip(num, 3, EncodeTag(other, 4) + rest);
    TagRoundTrip(other, 4, rest);
  }
}
