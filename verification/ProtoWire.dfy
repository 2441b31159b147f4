/**
 The proto2 wire format, as far as the three envelope messages need it: base-128 varints
 and fields of the scalar and length-delimited wire types.  Integers are the 64-bit words
 that the format puts on the wire; a negative `int64` is its two's complement.
 */
module ProtoWire {
  import opened Crc32
  import opened Options
  import opened Words

  // ----- varints -----

  /** The low seven bits, marked as having more to come. */
  function LowGroup(v: bv64): bv8 {
    ((v & 0x7F) | 0x80) as bv8
  }

  /** The last group, marked as such. */
  function LastGroup(v: bv64): bv8 {
    (v & 0x7F) as bv8
  }

  function Widen(b: bv8): bv64 {
    b as bv64
  }

  function JoinGroup(b: bv8, higher: bv64): bv64 {
    ((b & 0x7F) as bv64) | (higher << 7)
  }

  /** `v` needs at most `groups` groups of seven bits. */
  ghost predicate FitsIn(v: bv64, groups: nat) {
    groups > 0 && (v < 0x80 || FitsIn(v >> 7, groups - 1))
  }

  lemma AnyWordFitsInTen(v: bv64)
    ensures FitsIn(v, 10)
  {
    var v1 := v >> 7;
    var v2 := v1 >> 7;
    var v3 := v2 >> 7;
    var v4 := v3 >> 7;
    var v5 := v4 >> 7;
    var v6 := v5 >> 7;
    var v7 := v6 >> 7;
    var v8 := v7 >> 7;
    var v9 := v8 >> 7;
    assert v9 < 0x80;
    assert FitsIn(v9, 1);
    assert FitsIn(v8, 2);
    assert FitsIn(v7, 3);
    assert FitsIn(v6, 4);
    assert FitsIn(v5, 5);
    assert FitsIn(v4, 6);
    assert FitsIn(v3, 7);
    assert FitsIn(v2, 8);
    assert FitsIn(v1, 9);
  }

  lemma ShortWordFitsInFive(v: bv64)
    requires v >> 35 == 0
    ensures FitsIn(v, 5)
  {
    var v1 := v >> 7;
    var v2 := v1 >> 7;
    var v3 := v2 >> 7;
    var v4 := v3 >> 7;
    assert v4 < 0x80;
    assert FitsIn(v4, 1);
    assert FitsIn(v3, 2);
    assert FitsIn(v2, 3);
    assert FitsIn(v1, 4);
  }

  /** Least significant group first; at most `groups` of them are written. */
  function EncodeGroups(v: bv64, groups: nat): (s: Bytes)
    ensures |s| <= groups
  {
    if groups == 0 then []
    else if v < 0x80 then [LastGroup(v)]
    else [LowGroup(v)] + EncodeGroups(v >> 7, groups - 1)
  }

  function EncodeVarint(v: bv64): (s: Bytes)
    ensures |s| <= 10
  {
    EncodeGroups(v, 10)
  }

  datatype Varint = Varint(value: bv64, size: nat)

  /** Reads one varint of at most `groups` groups; bits beyond the 64th are dropped. */
  function DecodeVarint(s: Bytes, groups: nat): (r: Option<Varint>)
    ensures r.Some? ==> 0 < r.value.size <= |s|
  {
    if s == [] || groups == 0 then None
    else if s[0] < 0x80 then Some(Varint(Widen(s[0]), 1))
    else match DecodeVarint(s[1..], groups - 1)
      case None => None
      case Some(higher) => Some(Varint(JoinGroup(s[0], higher.value), higher.size + 1))
  }

  lemma GroupsOfWord(v: bv64)
    ensures v < 0x80 ==> LastGroup(v) < 0x80 && Widen(LastGroup(v)) == v
    ensures LowGroup(v) >= 0x80 && JoinGroup(LowGroup(v), v >> 7) == v
  {
  }

  lemma EncodeUnfolds(v: bv64, groups: nat)
    requires groups > 0
    ensures EncodeGroups(v, groups) ==
              if v < 0x80 then [LastGroup(v)] else [LowGroup(v)] + EncodeGroups(v >> 7, groups - 1)
  {
    hide LowGroup, LastGroup;
  }

  lemma DecodeUnfolds(b: bv8, s: Bytes, groups: nat)
    requires groups > 0
    ensures b < 0x80 ==> DecodeVarint([b] + s, groups) == Some(Varint(Widen(b), 1))
    ensures b >= 0x80 && DecodeVarint(s, groups - 1).Some? ==>
              var higher := DecodeVarint(s, groups - 1).value;
              DecodeVarint([b] + s, groups) == Some(Varint(JoinGroup(b, higher.value), higher.size + 1))
  {
    hide Widen, JoinGroup;
    assert ([b] + s)[1..] == s;
  }

  lemma {:induction false} DecodeGroups(v: bv64, written: nat, read: nat, tail: Bytes)
    requires FitsIn(v, read) && read <= written
    ensures DecodeVarint(EncodeGroups(v, written) + tail, read) == Some(Varint(v, |EncodeGroups(v, written)|))
    ensures 0 < |EncodeGroups(v, written)| <= read
    decreases read
  {
    hide LowGroup, LastGroup, Widen, JoinGroup, EncodeGroups, DecodeVarint;
    GroupsOfWord(v);
    EncodeUnfolds(v, written);
    if v < 0x80 {
      DecodeUnfolds(LastGroup(v), tail, read);
    } else {
      var later := EncodeGroups(v >> 7, written - 1);
      DecodeGroups(v >> 7, written - 1, read - 1, tail);
      DecodeUnfolds(LowGroup(v), later + tail, read);
      assert [LowGroup(v)] + later + tail == [LowGroup(v)] + (later + tail);
    }
  }

  /** Every 64-bit word, negative integers included, survives the wire. */
  lemma VarintRoundTrip(v: bv64, tail: Bytes)
    ensures DecodeVarint(EncodeVarint(v) + tail, 10) == Some(Varint(v, |EncodeVarint(v)|))
    ensures 0 < |EncodeVarint(v)|
  {
    AnyWordFitsInTen(v);
    DecodeGroups(v, 10, 10, tail);
  }

  /** Tags and lengths are read with a limit of five groups, which 35 bits fill. */
  lemma ShortVarintRoundTrip(v: bv64, tail: Bytes)
    requires v >> 35 == 0
    ensures DecodeVarint(EncodeVarint(v) + tail, 5) == Some(Varint(v, |EncodeVarint(v)|))
    ensures 0 < |EncodeVarint(v)| <= 5
  {
    ShortWordFitsInFive(v);
    DecodeGroups(v, 10, 5, tail);
  }

  // ----- fields -----

  const VARINT: bv64 := 0
  const FIXED64: bv64 := 1
  const DELIMITED: bv64 := 2
  const FIXED32: bv64 := 5

  datatype Field =
    | Scalar(number: bv64, value: bv64)
    | Delimited(number: bv64, data: Bytes)
    | Fixed(number: bv64)

  datatype FieldAt = FieldAt(field: Field, size: nat)

  function Tag(number: bv64, wire: bv64): bv64 {
    (number << 3) | wire
  }

  function NumberOf(tag: bv64): bv64 {
    tag >> 3
  }

  function WireOf(tag: bv64): bv64 {
    tag & 7
  }

  function EncodeScalar(number: bv64, value: bv64): Bytes {
    EncodeVarint(Tag(number, VARINT)) + EncodeVarint(value)
  }

  function EncodeDelimited(number: bv64, data: Bytes): Bytes
    requires |data| < UINT64_RANGE
  {
    EncodeVarint(Tag(number, DELIMITED)) + (EncodeVarint(Word64(|data|)) + data)
  }

  /** The field's value behind a tag: absent when the bytes run out or the wire type is not one of the four. */
  function DecodeValue(tag: bv64, s: Bytes): (r: Option<FieldAt>)
    ensures r.Some? ==> r.value.size <= |s|
  {
    if WireOf(tag) == VARINT then
      match DecodeVarint(s, 10)
      case None => None
      case Some(v) => Some(FieldAt(Scalar(NumberOf(tag), v.value), v.size))
    else if WireOf(tag) == DELIMITED then
      match DecodeVarint(s, 5)
      case None => None
      case Some(length) =>
        var end := length.size + Value64(length.value);
        if end <= |s| then Some(FieldAt(Delimited(NumberOf(tag), s[length.size..end]), end)) else None
    else
      var width := if WireOf(tag) == FIXED64 then 8 else 4;
      if (WireOf(tag) == FIXED64 || WireOf(tag) == FIXED32) && width <= |s| then
        Some(FieldAt(Fixed(NumberOf(tag)), width))
      else None
  }

  function DecodeField(s: Bytes): (r: Option<FieldAt>)
    ensures r.Some? ==> 0 < r.value.size <= |s|
  {
    match DecodeVarint(s, 5)
    case None => None
    case Some(tag) =>
      if NumberOf(tag.value) == 0 then None
      else match DecodeValue(tag.value, s[tag.size..])
        case None => None
        case Some(f) => Some(FieldAt(f.field, tag.size + f.size))
  }

  /** The fields of a message up to the first malformed one, and whether there was none. */
  datatype Scan = Scan(fields: seq<Field>, complete: bool)

  function ScanFields(s: Bytes): Scan
    decreases |s|
  {
    if s == [] then Scan([], true)
    else match DecodeField(s)
      case None => Scan([], false)
      case Some(f) =>
        var rest := ScanFields(s[f.size..]);
        Scan([f.field] + rest.fields, rest.complete)
  }

  lemma TagParts(number: bv64, wire: bv64)
    requires 0 < number < 0x1000 && wire < 8
    ensures Tag(number, wire) >> 35 == 0
    ensures NumberOf(Tag(number, wire)) == number && WireOf(Tag(number, wire)) == wire
  {
  }

  lemma SmallValue(w: bv64)
    requires w as nat < 0x8_0000_0000
    ensures w >> 35 == 0
  {
  }

  lemma SizeWord(n: nat)
    requires n < 0x8_0000_0000
    ensures Value64(Word64(n)) == n && Word64(n) >> 35 == 0
  {
    hide Value64, Word64;
    ValueIsNat(Word64(n));
    SmallValue(Word64(n));
  }

  lemma ValueIsNat(w: bv64)
    ensures w as nat == Value64(w)
  {
  }

  lemma TagFirst(tag: bv64, rest: Bytes)
    requires tag >> 35 == 0 && NumberOf(tag) != 0
    ensures var s := EncodeVarint(tag) + rest;
            DecodeField(s) ==
            match DecodeValue(tag, rest)
            case None => None
            case Some(f) => Some(FieldAt(f.field, |EncodeVarint(tag)| + f.size))
  {
    hide EncodeVarint, DecodeVarint, NumberOf, DecodeValue;
    ShortVarintRoundTrip(tag, rest);
    var s := EncodeVarint(tag) + rest;
    assert s[|EncodeVarint(tag)|..] == rest;
  }

  lemma ScalarFirst(number: bv64, value: bv64, tail: Bytes)
    requires 0 < number < 0x1000
    ensures DecodeField(EncodeScalar(number, value) + tail) ==
              Some(FieldAt(Scalar(number, value), |EncodeScalar(number, value)|))
  {
    hide EncodeVarint, DecodeVarint, NumberOf, WireOf, Tag, DecodeField;
    var tag := Tag(number, VARINT);
    TagParts(number, VARINT);
    assert EncodeScalar(number, value) + tail == EncodeVarint(tag) + (EncodeVarint(value) + tail);
    TagFirst(tag, EncodeVarint(value) + tail);
    VarintRoundTrip(value, tail);
  }

  lemma DelimitedValueUnfolds(tag: bv64, s: Bytes, length: Varint)
    requires WireOf(tag) == DELIMITED && DecodeVarint(s, 5) == Some(length)
    requires length.size + Value64(length.value) <= |s|
    ensures var end := length.size + Value64(length.value);
            DecodeValue(tag, s) == Some(FieldAt(Delimited(NumberOf(tag), s[length.size..end]), end))
  {
    hide DecodeVarint, NumberOf, WireOf, Value64;
  }

  /** A length and that many bytes behind a delimited tag are the field's value. */
  lemma DelimitedValue(tag: bv64, data: Bytes, tail: Bytes)
    requires WireOf(tag) == DELIMITED && |data| < 0x8_0000_0000
    ensures var length := EncodeVarint(Word64(|data|));
            && 0 < |length| <= 5
            && DecodeValue(tag, length + (data + tail)) ==
                 Some(FieldAt(Delimited(NumberOf(tag), data), |length| + |data|))
  {
    hide EncodeVarint, DecodeVarint, DecodeValue, NumberOf, WireOf, Value64, Word64;
    var size := Word64(|data|);
    var length := EncodeVarint(size);
    SizeWord(|data|);
    ShortVarintRoundTrip(size, data + tail);
    SliceBetween(length, data, tail);
    DelimitedValueUnfolds(tag, length + (data + tail), Varint(size, |length|));
  }

  lemma SliceBetween(front: Bytes, middle: Bytes, end: Bytes)
    ensures var s := front + (middle + end);
            |front| + |middle| <= |s| && s[|front|..|front| + |middle|] == middle
  {
  }

  lemma DelimitedFirst(number: bv64, data: Bytes, tail: Bytes)
    requires 0 < number < 0x1000 && |data| < 0x8_0000_0000
    ensures DecodeField(EncodeDelimited(number, data) + tail) ==
              Some(FieldAt(Delimited(number, data), |EncodeDelimited(number, data)|))
    ensures |EncodeDelimited(number, data)| <= |data| + 10
  {
    hide EncodeVarint, DecodeVarint, NumberOf, WireOf, Tag, DecodeField, DecodeValue, Value64, Word64;
    var tag, length := Tag(number, DELIMITED), EncodeVarint(Word64(|data|));
    TagParts(number, DELIMITED);
    DelimitedValue(tag, data, tail);
    TagFirst(tag, length + (data + tail));
    ShortVarintRoundTrip(tag, []);
    assert EncodeDelimited(number, data) + tail == EncodeVarint(tag) + (length + (data + tail));
  }

  lemma ScanStep(s: Bytes, f: Field, tail: Bytes, front: Bytes)
    requires s == front + tail && front != []
    requires DecodeField(s) == Some(FieldAt(f, |front|))
    ensures ScanFields(s) == Scan([f] + ScanFields(tail).fields, ScanFields(tail).complete)
  {
    hide DecodeField;
    assert s[|front|..] == tail;
  }

  // ----- optional fields, written in order -----

  function PutScalar(number: bv64, value: Option<bv64>): Bytes {
    if value.Some? then EncodeScalar(number, value.value) else []
  }

  function PutDelimited(number: bv64, data: Option<Bytes>): Bytes
    requires data.Some? ==> |data.value| < UINT64_RANGE
  {
    if data.Some? then EncodeDelimited(number, data.value) else []
  }

  function ScalarField(number: bv64, value: Option<bv64>): seq<Field> {
    if value.Some? then [Scalar(number, value.value)] else []
  }

  function DelimitedField(number: bv64, data: Option<Bytes>): seq<Field> {
    if data.Some? then [Delimited(number, data.value)] else []
  }

  lemma ScanPutScalar(number: bv64, value: Option<bv64>, tail: Bytes)
    requires 0 < number < 0x1000
    ensures var rest := ScanFields(tail);
            ScanFields(PutScalar(number, value) + tail) == Scan(ScalarField(number, value) + rest.fields, rest.complete)
  {
    hide EncodeScalar, DecodeField, ScanFields;
    if value.Some? {
      ScalarFirst(number, value.value, tail);
      ScanStep(PutScalar(number, value) + tail, Scalar(number, value.value), tail, EncodeScalar(number, value.value));
    } else {
      assert [] + tail == tail;
    }
  }

  lemma ScanPutDelimited(number: bv64, data: Option<Bytes>, tail: Bytes)
    requires 0 < number < 0x1000 && (data.Some? ==> |data.value| < 0x8_0000_0000)
    ensures var rest := ScanFields(tail);
            ScanFields(PutDelimited(number, data) + tail) ==
              Scan(DelimitedField(number, data) + rest.fields, rest.complete)
    ensures data.Some? ==> |PutDelimited(number, data)| <= |data.value| + 10
  {
    hide EncodeDelimited, DecodeField, ScanFields;
    if data.Some? {
      DelimitedFirst(number, data.value, tail);
      ScanStep(PutDelimited(number, data) + tail, Delimited(number, data.value), tail,
               EncodeDelimited(number, data.value));
    } else {
      assert [] + tail == tail;
    }
  }

  // ----- what a parsed message sees: the last occurrence of each field -----

  function LastScalar(fields: seq<Field>, number: bv64): Option<bv64> {
    if fields == [] then None
    else
      var later := LastScalar(fields[1..], number);
      if later.None? && fields[0].Scalar? && fields[0].number == number then Some(fields[0].value) else later
  }

  function LastDelimited(fields: seq<Field>, number: bv64): Option<Bytes> {
    if fields == [] then None
    else
      var later := LastDelimited(fields[1..], number);
      if later.None? && fields[0].Delimited? && fields[0].number == number then Some(fields[0].data) else later
  }

  lemma LookupAcrossScalar(at: bv64, value: Option<bv64>, rest: seq<Field>, number: bv64)
    ensures var fields := ScalarField(at, value) + rest;
            && LastDelimited(fields, number) == LastDelimited(rest, number)
            && LastScalar(fields, number) ==
                 if LastScalar(rest, number).None? && at == number then value else LastScalar(rest, number)
  {
    if value.None? {
      assert [] + rest == rest;
    } else {
      assert (ScalarField(at, value) + rest)[1..] == rest;
    }
  }

  lemma LookupAcrossDelimited(at: bv64, data: Option<Bytes>, rest: seq<Field>, number: bv64)
    ensures var fields := DelimitedField(at, data) + rest;
            && LastScalar(fields, number) == LastScalar(rest, number)
            && LastDelimited(fields, number) ==
                 if LastDelimited(rest, number).None? && at == number then data else LastDelimited(rest, number)
  {
    if data.None? {
      assert [] + rest == rest;
    } else {
      assert (DelimitedField(at, data) + rest)[1..] == rest;
    }
  }

  // ----- what is written is the shortest form of what is read -----

  predicate IsLast(v: bv64) {
    v < 0x80
  }

  function HigherGroups(v: bv64): bv64 {
    v >> 7
  }

  lemma GroupsAreMonotone(v: bv64, w: bv64)
    requires AtMost(v, w)
    ensures IsLast(w) ==> IsLast(v)
    ensures AtMost(HigherGroups(v), HigherGroups(w))
  {
  }

  lemma EncodedSize(v: bv64, groups: nat)
    ensures |EncodeGroups(v, groups)| ==
              if groups == 0 then 0 else if IsLast(v) then 1 else 1 + |EncodeGroups(HigherGroups(v), groups - 1)|
  {
  }

  lemma {:induction false} SmallerIsShorter(v: bv64, w: bv64, groups: nat)
    requires AtMost(v, w)
    ensures |EncodeGroups(v, groups)| <= |EncodeGroups(w, groups)|
    decreases groups
  {
    hide EncodeGroups, AtMost, IsLast, HigherGroups;
    EncodedSize(v, groups);
    EncodedSize(w, groups);
    GroupsAreMonotone(v, w);
    if groups > 0 {
      SmallerIsShorter(HigherGroups(v), HigherGroups(w), groups - 1);
    }
  }

  /** The bits of the higher groups beyond the 64th are lost. */
  lemma JoinedGroups(b: bv8, higher: bv64)
    ensures b < 0x80 ==> IsLast(Widen(b))
    ensures AtMost(HigherGroups(JoinGroup(b, higher)), higher)
  {
  }

  lemma DecodedGroups(s: Bytes, groups: nat)
    requires DecodeVarint(s, groups).Some?
    ensures s != [] && groups > 0
    ensures var r := DecodeVarint(s, groups).value;
            || (r.size == 1 && IsLast(r.value))
            || (&& DecodeVarint(s[1..], groups - 1).Some?
                && var higher := DecodeVarint(s[1..], groups - 1).value;
                   r.size == higher.size + 1 && AtMost(HigherGroups(r.value), higher.value))
  {
    hide AtMost, IsLast, HigherGroups, Widen, JoinGroup;
    JoinedGroups(s[0], 0);
    if DecodeVarint(s[1..], groups - 1).Some? {
      JoinedGroups(s[0], DecodeVarint(s[1..], groups - 1).value.value);
    }
  }

  /** No varint that is read takes fewer bytes than the one that is written for its value. */
  lemma {:induction false} VarintIsShortest(s: Bytes, read: nat, written: nat)
    requires DecodeVarint(s, read).Some?
    ensures |EncodeGroups(DecodeVarint(s, read).value.value, written)| <= DecodeVarint(s, read).value.size
    decreases read
  {
    hide EncodeGroups, DecodeVarint, AtMost, IsLast, HigherGroups;
    var r := DecodeVarint(s, read).value;
    EncodedSize(r.value, written);
    DecodedGroups(s, read);
    if written > 0 && !IsLast(r.value) {
      SmallerIsShorter(HigherGroups(r.value), DecodeVarint(s[1..], read - 1).value.value, written - 1);
      VarintIsShortest(s[1..], read - 1, written - 1);
    }
  }

  /** The bytes that a delimited field with this many bytes of data takes at least, by its form. */
  function DelimitedCost(size: nat): nat
    requires size < UINT64_RANGE
  {
    1 + |EncodeVarint(Word64(size))| + size
  }

  lemma CostIsMonotone(a: nat, b: nat)
    requires a <= b < UINT64_RANGE
    ensures DelimitedCost(a) <= DelimitedCost(b)
  {
    hide EncodeGroups, Word64, Value64, AtMost;
    ValuesOrderWords(Word64(a), Word64(b));
    SmallerIsShorter(Word64(a), Word64(b), 10);
  }

  /** A field that is read takes at least the bytes of its shortest form. */
  function FieldCost(f: Field): nat {
    match f
    case Scalar(_, _) => 2
    case Delimited(_, data) => if |data| < UINT64_RANGE then DelimitedCost(|data|) else |data|
    case Fixed(_) => 0
  }

  function FieldsCost(fields: seq<Field>): nat {
    if fields == [] then 0 else FieldCost(fields[0]) + FieldsCost(fields[1..])
  }

  lemma ValueCost(tag: bv64, s: Bytes)
    requires DecodeValue(tag, s).Some?
    ensures FieldCost(DecodeValue(tag, s).value.field) <= 1 + DecodeValue(tag, s).value.size
  {
    hide DecodeVarint, EncodeVarint, WireOf, NumberOf, Value64, Word64;
    var f := DecodeValue(tag, s).value;
    if f.field.Delimited? {
      var length := DecodeVarint(s, 5).value;
      LengthCost(s, |f.field.data|);
    }
  }

  lemma LengthCost(s: Bytes, size: nat)
    requires DecodeVarint(s, 5).Some? && Value64(DecodeVarint(s, 5).value.value) == size
    ensures |EncodeVarint(Word64(size))| <= DecodeVarint(s, 5).value.size
  {
    hide DecodeVarint, EncodeGroups, Value64, Word64, AtMost;
    var length := DecodeVarint(s, 5).value;
    ValuesOrderWords(Word64(size), length.value);
    SmallerIsShorter(Word64(size), length.value, 10);
    VarintIsShortest(s, 5, 10);
  }

  lemma FieldTakes(s: Bytes)
    requires DecodeField(s).Some?
    ensures FieldCost(DecodeField(s).value.field) <= DecodeField(s).value.size
  {
    hide DecodeVarint, DecodeValue, FieldCost, NumberOf;
    var tag := DecodeVarint(s, 5).value;
    ValueCost(tag.value, s[tag.size..]);
  }

  lemma {:induction false} FieldsTake(s: Bytes)
    ensures FieldsCost(ScanFields(s).fields) <= |s|
    decreases |s|
  {
    hide DecodeField, FieldCost;
    if s != [] && DecodeField(s).Some? {
      var f := DecodeField(s).value;
      FieldTakes(s);
      FieldsTake(s[f.size..]);
      assert ([f.field] + ScanFields(s[f.size..]).fields)[1..] == ScanFields(s[f.size..]).fields;
    }
  }

  /** Fields among which a scalar and a delimited one are found take at least the bytes of both. */
  lemma {:induction false} TwoFieldsTake(fields: seq<Field>, data: Bytes)
    requires |data| < UINT64_RANGE
    ensures LastScalar(fields, 1).Some? ==> FieldsCost(fields) >= 2
    ensures LastDelimited(fields, 2) == Some(data) ==> FieldsCost(fields) >= DelimitedCost(|data|)
    ensures LastScalar(fields, 1).Some? && LastDelimited(fields, 2) == Some(data) ==>
              FieldsCost(fields) >= 2 + DelimitedCost(|data|)
  {
    hide DelimitedCost;
    if fields != [] {
      TwoFieldsTake(fields[1..], data);
    }
  }

  lemma {:induction false} DataIsInside(fields: seq<Field>, data: Bytes)
    requires LastDelimited(fields, 2) == Some(data)
    ensures |data| <= FieldsCost(fields)
  {
    if LastDelimited(fields[1..], 2).Some? {
      DataIsInside(fields[1..], data);
    }
  }

  /** A scalar and a delimited field, as they are written, take just that. */
  lemma TwoFieldsSize(scalar: bv64, data: Bytes)
    requires scalar < 0x80 && |data| < UINT64_RANGE
    ensures |PutScalar(1, Some(scalar)) + PutDelimited(2, Some(data))| == 2 + DelimitedCost(|data|)
  {
    hide EncodeGroups, Word64;
    OneGroup(Tag(1, VARINT));
    OneGroup(scalar);
    OneGroup(Tag(2, DELIMITED));
  }

  lemma OneGroup(v: bv64)
    requires v < 0x80
    ensures |EncodeVarint(v)| == 1
  {
    EncodeUnfolds(v, 10);
  }

  // ----- the bytes on the wire -----

  lemma OneGroupBytes(v: bv64)
    requires v < 0x80
    ensures EncodeVarint(v) == [v as bv8]
  {
    EncodeUnfolds(v, 10);
  }

  /** Seven bits a byte, the lowest first, each byte but the last with its top bit set. */
  lemma TwoGroupBytes(v: bv64)
    requires 0x80 <= v < 0x4000
    ensures EncodeVarint(v) == [((v & 0x7F) | 0x80) as bv8, (v >> 7) as bv8]
  {
    EncodeUnfolds(v, 10);
    EncodeUnfolds(v >> 7, 9);
  }

  /** A group of ones with more to come. */
  lemma HighGroup(v: bv64, higher: bv64, groups: nat)
    requires groups > 0 && v >= 0x80 && v & 0x7F == 0x7F && v >> 7 == higher
    ensures EncodeGroups(v, groups) == [0xFF] + EncodeGroups(higher, groups - 1)
  {
    EncodeUnfolds(v, groups);
  }

  /** The varint of minus one. */
  lemma MinusOneBytes()
    ensures EncodeVarint(0xFFFF_FFFF_FFFF_FFFF) == [0xFF, 0xFF, 0xFF, 0xFF, 0xFF, 0xFF, 0xFF, 0xFF, 0xFF, 0x01]
  {
    hide EncodeGroups;
    HighGroup(0xFFFFFFFFFFFFFFFF, 0x1FFFFFFFFFFFFFF, 10);
    HighGroup(0x1FFFFFFFFFFFFFF, 0x3FFFFFFFFFFFF, 9);
    HighGroup(0x3FFFFFFFFFFFF, 0x7FFFFFFFFFF, 8);
    HighGroup(0x7FFFFFFFFFF, 0xFFFFFFFFF, 7);
    HighGroup(0xFFFFFFFFF, 0x1FFFFFFF, 6);
    HighGroup(0x1FFFFFFF, 0x3FFFFF, 5);
    HighGroup(0x3FFFFF, 0x7FFF, 4);
    HighGroup(0x7FFF, 0xFF, 3);
    HighGroup(0xFF, 0x1, 2);
    EncodeUnfolds(1, 1);
  }

  /** Some varints as their bytes; the last is the two's complement of minus one. */
  lemma VarintBytes()
    ensures EncodeVarint(1) == [0x01] && EncodeVarint(127) == [0x7F] && EncodeVarint(128) == [0x80, 0x01]
    ensures EncodeVarint(300) == [0xAC, 0x02]
    ensures EncodeVarint(0xFFFF_FFFF_FFFF_FFFF) == [0xFF, 0xFF, 0xFF, 0xFF, 0xFF, 0xFF, 0xFF, 0xFF, 0xFF, 0x01]
  {
    OneGroupBytes(1);
    OneGroupBytes(127);
    TwoGroupBytes(128);
    TwoGroupBytes(300);
    MinusOneBytes();
  }

  /** A varint may be longer than it need be. */
  lemma LongVarint(tail: Bytes)
    ensures DecodeVarint([0x80, 0x00] + tail, 10) == Some(Varint(0, 2))
  {
  }

  /** A varint that goes on to its limit, or to the end of the bytes, is malformed. */
  lemma {:induction false} UnendedVarint(s: Bytes, groups: nat)
    requires forall i :: 0 <= i < |s| && i < groups ==> s[i] >= 0x80
    ensures DecodeVarint(s, groups) == None
    decreases groups
  {
    hide Widen, JoinGroup;
    if s != [] && groups > 0 {
      UnendedVarint(s[1..], groups - 1);
    }
  }

  /** The tags of the three envelope messages. */
  lemma TagBytes()
    ensures EncodeVarint(Tag(1, VARINT)) == [0x08]
    ensures EncodeVarint(Tag(2, DELIMITED)) == [0x12]
    ensures EncodeVarint(Tag(3, VARINT)) == [0x18]
  {
    OneGroupBytes(0x08);
    OneGroupBytes(0x12);
    OneGroupBytes(0x18);
  }

  lemma PutScalarBytes(value: bv64)
    ensures PutScalar(1, Some(value)) == [0x08] + EncodeVarint(value)
    ensures PutScalar(3, Some(value)) == [0x18] + EncodeVarint(value)
  {
    hide EncodeVarint, Tag;
    TagBytes();
  }

  lemma PutDelimitedBytes(data: Bytes)
    requires |data| < UINT64_RANGE
    ensures PutDelimited(2, Some(data)) == [0x12] + EncodeVarint(Word64(|data|)) + data
  {
    hide EncodeVarint, Tag, Word64;
    TagBytes();
    Regroup([0x12], EncodeVarint(Word64(|data|)), data);
  }

  lemma Regroup(a: Bytes, b: Bytes, c: Bytes)
    ensures a + (b + c) == a + b + c
  {
  }

  /** Fields of the fixed-width types are passed over. */
  lemma FixedFields(tag: bv8, rest: Bytes)
    requires 8 <= tag < 0x80
    ensures tag & 7 == 1 && |rest| >= 8 ==> DecodeField([tag] + rest) == Some(FieldAt(Fixed((tag >> 3) as bv64), 9))
    ensures tag & 7 == 5 && |rest| >= 4 ==> DecodeField([tag] + rest) == Some(FieldAt(Fixed((tag >> 3) as bv64), 5))
  {
    hide DecodeVarint;
    OneByteTag(tag, rest);
    assert ([tag] + rest)[1..] == rest;
  }

  lemma OneByteTag(tag: bv8, rest: Bytes)
    requires tag < 0x80
    ensures DecodeVarint([tag] + rest, 5) == Some(Varint(tag as bv64, 1))
  {
    DecodeUnfolds(tag, rest, 5);
  }

  /** Field number zero, the group types and the two types that do not exist are malformed. */
  lemma MalformedFields(tag: bv8, rest: Bytes)
    requires tag < 0x80
    requires tag < 8 || tag & 7 == 3 || tag & 7 == 4 || tag & 7 == 6 || tag & 7 == 7
    ensures DecodeField([tag] + rest) == None
    ensures ScanFields([tag] + rest) == Scan([], false)
  {
    hide DecodeVarint;
    OneByteTag(tag, rest);
  }

  /** Tags and lengths may take five bytes, scalars ten. */
  lemma FieldLimits(s: Bytes)
    ensures (forall i :: 0 <= i < |s| && i < 5 ==> s[i] >= 0x80) ==>
              DecodeField(s) == None && DecodeField([0x12] + s) == None
    ensures (forall i :: 0 <= i < |s| && i < 10 ==> s[i] >= 0x80) ==> DecodeField([0x08] + s) == None
    ensures DecodeVarint([0x81, 0x80, 0x80, 0x80, 0x00], 5) == Some(Varint(1, 5))
  {
    hide DecodeVarint;
    if forall i :: 0 <= i < |s| && i < 5 ==> s[i] >= 0x80 {
      UnendedVarint(s, 5);
    }
    if forall i :: 0 <= i < |s| && i < 10 ==> s[i] >= 0x80 {
      UnendedVarint(s, 10);
    }
    OneByteTag(0x12, s);
    OneByteTag(0x08, s);
    assert ([0x12] + s)[1..] == s && ([0x08] + s)[1..] == s;
    FiveGroups();
  }

  lemma FiveGroups()
    ensures DecodeVarint([0x81, 0x80, 0x80, 0x80, 0x00], 5) == Some(Varint(1, 5))
  {
    hide DecodeVarint, JoinGroup, Widen;
    FiveGroupsJoin();
    var s1: Bytes := [0x00];
    var s2: Bytes := [0x80, 0x00];
    var s3: Bytes := [0x80, 0x80, 0x00];
    var s4: Bytes := [0x80, 0x80, 0x80, 0x00];
    var s5: Bytes := [0x81, 0x80, 0x80, 0x80, 0x00];
    assert s1 + [] == s1 && [0x80] + s1 == s2 && [0x80] + s2 == s3 && [0x80] + s3 == s4 && [0x81] + s4 == s5;
    DecodeUnfolds(0x00, [], 1);
    OneMoreGroup(0x80, s1, Varint(0, 1), 2);
    OneMoreGroup(0x80, s2, Varint(0, 2), 3);
    OneMoreGroup(0x80, s3, Varint(0, 3), 4);
    OneMoreGroup(0x81, s4, Varint(0, 4), 5);
  }

  lemma OneMoreGroup(b: bv8, s: Bytes, higher: Varint, groups: nat)
    requires groups > 0 && b >= 0x80 && DecodeVarint(s, groups - 1) == Some(higher)
    ensures DecodeVarint([b] + s, groups) == Some(Varint(JoinGroup(b, higher.value), higher.size + 1))
  {
    hide DecodeVarint, JoinGroup;
    DecodeUnfolds(b, s, groups);
  }

  lemma FiveGroupsJoin()
    ensures Widen(0x00) == 0 && JoinGroup(0x80, 0) == 0 && JoinGroup(0x81, 0) == 1
  {
  }

  // ----- messages one after the other -----

  lemma {:induction false} DecodeVarintExtends(a: Bytes, b: Bytes, groups: nat)
    requires DecodeVarint(a, groups).Some?
    ensures DecodeVarint(a + b, groups) == DecodeVarint(a, groups)
    decreases groups
  {
    hide Widen, JoinGroup;
    if a[0] >= 0x80 {
      assert (a + b)[1..] == a[1..] + b;
      DecodeVarintExtends(a[1..], b, groups - 1);
    }
  }

  lemma DecodeValueExtends(tag: bv64, a: Bytes, b: Bytes)
    requires DecodeValue(tag, a).Some?
    ensures DecodeValue(tag, a + b) == DecodeValue(tag, a)
  {
    hide DecodeVarint, WireOf, NumberOf, Value64;
    if WireOf(tag) == VARINT {
      DecodeVarintExtends(a, b, 10);
    } else if WireOf(tag) == DELIMITED {
      DecodeVarintExtends(a, b, 5);
      var length := DecodeVarint(a, 5).value;
      var end := length.size + Value64(length.value);
      assert (a + b)[length.size..end] == a[length.size..end];
    }
  }

  lemma DecodeFieldExtends(a: Bytes, b: Bytes)
    requires DecodeField(a).Some?
    ensures DecodeField(a + b) == DecodeField(a)
  {
    hide DecodeVarint, DecodeValue, NumberOf;
    DecodeVarintExtends(a, b, 5);
    var tag := DecodeVarint(a, 5).value;
    DecodeValueExtends(tag.value, a[tag.size..], b);
    assert (a + b)[tag.size..] == a[tag.size..] + b;
  }

  lemma NothingScanned()
    ensures ScanFields([]) == Scan([], true)
  {
  }

  lemma ScanUnfolds(s: Bytes)
    requires s != []
    ensures DecodeField(s).None? ==> ScanFields(s) == Scan([], false)
    ensures DecodeField(s).Some? ==>
              var f := DecodeField(s).value;
              var rest := ScanFields(s[f.size..]);
              ScanFields(s) == Scan([f.field] + rest.fields, rest.complete)
  {
    hide DecodeField;
  }

  /** The fields of well-formed bytes come first, then those of what follows. */
  lemma {:induction false} ScanAppend(a: Bytes, b: Bytes)
    requires ScanFields(a).complete
    ensures ScanFields(a + b) == Scan(ScanFields(a).fields + ScanFields(b).fields, ScanFields(b).complete)
    decreases |a|
  {
    hide DecodeField, ScanFields;
    if a == [] {
      assert a + b == b;
      NothingScanned();
      assert [] + ScanFields(b).fields == ScanFields(b).fields;
    } else {
      ScanUnfolds(a);
      var f := DecodeField(a).value;
      DecodeFieldExtends(a, b);
      ScanUnfolds(a + b);
      assert (a + b)[f.size..] == a[f.size..] + b;
      ScanAppend(a[f.size..], b);
      assert [f.field] + (ScanFields(a[f.size..]).fields + ScanFields(b).fields)
          == ([f.field] + ScanFields(a[f.size..]).fields) + ScanFields(b).fields;
    }
  }

  /** Of several occurrences of a field the last one counts. */
  lemma {:induction false} LookupAppend(a: seq<Field>, b: seq<Field>, number: bv64)
    ensures LastScalar(a + b, number) ==
              if LastScalar(b, number).Some? then LastScalar(b, number) else LastScalar(a, number)
    ensures LastDelimited(a + b, number) ==
              if LastDelimited(b, number).Some? then LastDelimited(b, number) else LastDelimited(a, number)
  {
    if a == [] {
      assert a + b == b;
    } else {
      assert (a + b)[1..] == a[1..] + b;
      LookupAppend(a[1..], b, number);
    }
  }
}
