/**
  The map field `MinimalForkSched` of the prover configuration: the entry-by-entry printing in an
  order the runtime chooses, and the entry loop of the reader with its own rules. The message is
  taken without its other fields.
  */
module ForkSchedule {
  import opened Integers
  import opened Wrappers
  import opened Varint
  import opened Skip
  import opened Wire

  type Schedule = map<seq<byte>, uint64>

  const FIELD: nat := 10

  // ---- Printing ----

  /** Key and value are written whatever they are, an empty key and a zero value included. */
  function EntryBody(key: seq<byte>, value: uint64): seq<byte> {
    KnownBytes(Known(1, Bytes(key))) + KnownBytes(Known(2, Number(value)))
  }

  function EntryBytes(key: seq<byte>, value: uint64): seq<byte> {
    KnownBytes(Known(FIELD, Bytes(EntryBody(key, value))))
  }

  /** An iteration over a map meets every key once. */
  ghost predicate IsOrder(m: Schedule, order: seq<seq<byte>>) {
    && (forall i, j :: 0 <= i < j < |order| ==> order[i] != order[j])
    && (forall k :: k in order <==> k in m)
  }

  /** The buffer is filled backwards, so the first key met is printed last. */
  function Printed(m: Schedule, order: seq<seq<byte>>): seq<byte>
    requires forall k :: k in order ==> k in m
  {
    if order == [] then [] else Printed(m, order[1..]) + EntryBytes(order[0], m[order[0]])
  }

  function EntrySize(key: seq<byte>, value: uint64): nat {
    var inner := 1 + |key| + Size(|key|) + 1 + Size(value);
    inner + 1 + Size(inner)
  }

  function SizeInOrder(m: Schedule, order: seq<seq<byte>>): nat
    requires forall k :: k in order ==> k in m
  {
    if order == [] then 0 else EntrySize(order[0], m[order[0]]) + SizeInOrder(m, order[1..])
  }

  lemma EntrySizeExact(key: seq<byte>, value: uint64)
    ensures |EntryBody(key, value)| == 1 + |key| + Size(|key|) + 1 + Size(value)
    ensures |EntryBytes(key, value)| == EntrySize(key, value)
  {
    hide KnownBytes, Size;
    KnownSize(Known(1, Bytes(key)));
    KnownSize(Known(2, Number(value)));
    KnownSize(Known(FIELD, Bytes(EntryBody(key, value))));
  }

  /** The bytes of an entry: the tag of field 10, the length, and key and value behind their own tags. */
  lemma {:induction false} EntryLayout(key: seq<byte>, value: uint64)
    ensures EntryBody(key, value) == [0x0a] + Encode(|key|) + key + [0x10] + Encode(value)
    ensures EntryBytes(key, value)
            == [0x52] + Encode(|EntryBody(key, value)|) + ([0x0a] + Encode(|key|) + key + [0x10] + Encode(value))
  {
    hide Size, Encode, Print;
    KnownSize(Known(1, Bytes(key)));
    KnownSize(Known(2, Number(value)));
    KnownSize(Known(FIELD, Bytes(EntryBody(key, value))));
  }

  lemma {:induction false} PrintedSize(m: Schedule, order: seq<seq<byte>>)
    requires forall k :: k in order ==> k in m
    ensures |Printed(m, order)| == SizeInOrder(m, order)
  {
    hide EntryBytes, EntrySize;
    if order != [] {
      EntrySizeExact(order[0], m[order[0]]);
      PrintedSize(m, order[1..]);
    }
  }

  lemma {:induction false} SizeWithout(m: Schedule, order: seq<seq<byte>>, i: nat)
    requires i < |order| && forall k :: k in order ==> k in m
    ensures SizeInOrder(m, order) == EntrySize(order[i], m[order[i]]) + SizeInOrder(m, order[..i] + order[i + 1..])
    decreases |order|
  {
    hide EntrySize;
    if i == 0 {
      assert order[..0] + order[1..] == order[1..];
    } else {
      SizeWithout(m, order[1..], i - 1);
      assert (order[..i] + order[i + 1..])[1..] == order[1..][..i - 1] + order[1..][i..];
    }
  }

  lemma FirstKey(m: Schedule, order: seq<seq<byte>>, other: seq<seq<byte>>)
    requires IsOrder(m, order) && IsOrder(m, other)
    ensures order != [] ==> order[0] in m && order[0] in other
  {
  }

  /** An iteration order without one of its keys is one of the map without that key. */
  lemma OrderWithout(m: Schedule, order: seq<seq<byte>>, i: nat)
    requires IsOrder(m, order) && i < |order|
    ensures IsOrder(m - {order[i]}, order[..i] + order[i + 1..])
  {
    var rest := order[..i] + order[i + 1..];
    forall k
      ensures k in rest <==> k in m - {order[i]}
    {
      if k in order && k != order[i] {
        var j :| 0 <= j < |order| && order[j] == k;
        assert rest[if j < i then j else j - 1] == k;
      }
    }
  }

  /** The size does not depend on the order of the iteration. */
  lemma {:induction false} SizeOfAnyOrder(m: Schedule, order: seq<seq<byte>>, other: seq<seq<byte>>)
    requires IsOrder(m, order) && IsOrder(m, other)
    ensures SizeInOrder(m, order) == SizeInOrder(m, other)
    decreases |order|
  {
    hide EntrySize, SizeInOrder, IsOrder;
    FirstKey(m, other, order);
    if order != [] {
      var i := SameKeyAt(m, order, other);
      SizeWithoutKey(m, order, 0);
      SizeWithoutKey(m, other, i);
      SizeOfAnyOrder(m - {order[0]}, order[..0] + order[1..], other[..i] + other[i + 1..]);
    }
  }

  lemma SameKeyAt(m: Schedule, order: seq<seq<byte>>, other: seq<seq<byte>>) returns (i: nat)
    requires IsOrder(m, order) && IsOrder(m, other) && order != []
    ensures i < |other| && other[i] == order[0]
  {
    FirstKey(m, order, other);
    i :| 0 <= i < |other| && other[i] == order[0];
  }

  /** Taking one key out of the map takes its entry out of the size. */
  lemma SizeWithoutKey(m: Schedule, order: seq<seq<byte>>, i: nat)
    requires IsOrder(m, order) && i < |order|
    ensures var key, rest := order[i], order[..i] + order[i + 1..];
            && key in m && IsOrder(m - {key}, rest)
            && SizeInOrder(m, order) == EntrySize(key, m[key]) + SizeInOrder(m - {key}, rest)
  {
    hide EntrySize, SizeInOrder;
    OrderWithout(m, order, i);
    SizeWithout(m, order, i);
    SizeInSubmap(m, m - {order[i]}, order[..i] + order[i + 1..]);
  }

  lemma {:induction false} SizeInSubmap(m: Schedule, m': Schedule, order: seq<seq<byte>>)
    requires forall k :: k in order ==> k in m && k in m' && m[k] == m'[k]
    ensures SizeInOrder(m, order) == SizeInOrder(m', order)
  {
    hide EntrySize;
    if order != [] {
      SizeInSubmap(m, m', order[1..]);
    }
  }

  // ---- Reading ----

  /**
    One round of the entry loop at index `i` of the rest `s` of the message: key, value and the next
    index. The entry ends at `limit`, but a key or a value is only checked against the end of the
    message, wire types are not checked, and a value is or-ed to the one before. `at` is the index
    of `s` in the message.
    */
  function EntryStep(s: seq<byte>, i: nat, limit: nat, key: seq<byte>, value: uint64, at: nat)
    : (r: Result<(seq<byte>, uint64, nat), WireError>)
    requires i < limit <= |s|
    ensures r.Ok? ==> i < r.value.2 <= |s|
  {
    match Decode(s[i..])
    case Err(e) => Err(e)
    case Ok((wire, k)) =>
      var number, j := Int32(wire / 8), i + k;
      if number == 1 then
        match Length(s[j..], at + j)
        case Err(e) => Err(e)
        case Ok((length, n)) => Ok((s[j + n..j + n + length], value, j + n + length))
      else if number == 2 then
        match Decode(s[j..])
        case Err(e) => Err(e)
        case Ok((v, n)) => Ok((key, Or64(value, v), j + n))
      else
        match SkipFrom(s[i..], 0, 0)
        case Err(e) => Err(e)
        case Ok(n) =>
          if at + i + n >= INT64_LIMIT then Err(InvalidLength)
          else if i + n > limit then Err(UnexpectedEof)
          else Ok((key, value, i + n))
  }

  function EntryFrom(s: seq<byte>, i: nat, limit: nat, key: seq<byte>, value: uint64, at: nat)
    : Result<(seq<byte>, uint64), WireError>
    requires i <= |s| && limit <= |s|
    decreases |s| - i
  {
    if i >= limit then Ok((key, value))
    else
      match EntryStep(s, i, limit, key, value, at)
      case Err(e) => Err(e)
      case Ok((key', value', j)) => EntryFrom(s, j, limit, key', value', at)
  }

  /** The map field behind its tag: key, value and the number of bytes read. */
  function ReadEntry(s: seq<byte>, at: nat): (r: Result<(seq<byte>, uint64, nat), WireError>)
    ensures r.Ok? ==> r.value.2 <= |s|
  {
    match Length(s, at)
    case Err(e) => Err(e)
    case Ok((length, n)) =>
      match EntryFrom(s[n..], 0, length, [], 0, at + n)
      case Err(e) => Err(e)
      case Ok((key, value)) => Ok((key, value, n + length))
  }

  function ReadSchedule(m: Schedule, s: seq<byte>, at: nat): Result<Schedule, WireError>
    decreases |s|
  {
    if s == [] then Ok(m)
    else
      match ReadTag(s)
      case Err(e) => Err(e)
      case Ok((number, wireType, k)) =>
        if number == FIELD then
          if wireType != 2 then Err(WrongWireType)
          else
            match ReadEntry(s[k..], at + k)
            case Err(e) => Err(e)
            case Ok((key, value, n)) => ReadSchedule(m[key := value], s[k + n..], at + k + n)
        else
          match SkipUnknown(s, at)
          case Err(e) => Err(e)
          case Ok(n) => ReadSchedule(m, s[n..], at + n)
  }

  // ---- Reading what was printed ----

  /** A field in the body of an entry, with its bytes. A key and a value may have any wire type. */
  datatype EntryField =
    | KeyField(tag: seq<byte>, length: seq<byte>, key: seq<byte>)
    | ValueField(tag: seq<byte>, bytes: seq<byte>, value: uint64)
    | OtherField(field: Field)

  predicate IsEntryTag(tag: seq<byte>, number: int) {
    IsVarint(tag) && Int32(Decode(tag).value.0 / 8) == number
  }

  predicate IsEntryField(f: EntryField) {
    match f
    case KeyField(tag, length, key) =>
      IsEntryTag(tag, 1) && IsVarint(length) && Decode(length).value.0 == |key| < INT64_LIMIT
    case ValueField(tag, bytes, value) => IsEntryTag(tag, 2) && IsVarint(bytes) && Decode(bytes).value.0 == value
    case OtherField(field) => WellFormed(field) && FieldNumber(field) != 1 && FieldNumber(field) != 2
  }

  function EntryFieldBytes(f: EntryField): seq<byte> {
    match f
    case KeyField(tag, length, key) => tag + (length + key)
    case ValueField(tag, bytes, _) => tag + bytes
    case OtherField(field) => FieldBytes(field)
  }

  function BodyBytes(fs: seq<EntryField>): seq<byte> {
    if fs == [] then [] else EntryFieldBytes(fs[0]) + BodyBytes(fs[1..])
  }

  function NextKey(f: EntryField, key: seq<byte>): seq<byte> {
    if f.KeyField? then f.key else key
  }

  function NextValue(f: EntryField, value: uint64): uint64 {
    if f.ValueField? then Or64(value, f.value) else value
  }

  /** The last key of a body, or the one before it. */
  function LastKey(fs: seq<EntryField>, key: seq<byte>): seq<byte> {
    if fs == [] then key else LastKey(fs[1..], NextKey(fs[0], key))
  }

  function LastValue(fs: seq<EntryField>, value: uint64): uint64 {
    if fs == [] then value else LastValue(fs[1..], if fs[0].ValueField? then fs[0].value else value)
  }

  /** All values of a body, or-ed to the one before it. */
  function OredValues(fs: seq<EntryField>, value: uint64): uint64 {
    if fs == [] then value else OredValues(fs[1..], NextValue(fs[0], value))
  }

  ghost predicate IsBody(fs: seq<EntryField>) {
    forall f :: f in fs ==> IsEntryField(f)
  }

  /** Where the entry loop stops: at the end of the entry, or behind it. */
  function EntryStop(s: seq<byte>, i: nat, limit: nat, at: nat): (stop: Option<nat>)
    requires i <= |s| && limit <= |s|
    ensures stop.Some? ==> i <= stop.value <= |s| && limit <= stop.value
    decreases |s| - i
  {
    if i >= limit then Some(i)
    else
      match EntryStep(s, i, limit, [], 0, at)
      case Err(_) => None
      case Ok((_, _, j)) => EntryStop(s, j, limit, at)
  }

  lemma StepSplit(front: seq<byte>, first: seq<byte>, rest: seq<byte>)
    ensures (front + (first + rest))[|front|..] == first + rest
    ensures (front + (first + rest))[|front| + |first|..] == rest
  {
  }

  lemma {:induction false} EntryKey(front: seq<byte>, f: EntryField, key: seq<byte>, value: uint64,
                                    rest: seq<byte>, limit: nat, at: nat)
    requires f.KeyField? && IsEntryField(f) && at + |front| + |EntryFieldBytes(f)| < INT64_LIMIT
    requires |front| < limit <= |front| + |EntryFieldBytes(f)| + |rest|
    ensures EntryStep(front + (EntryFieldBytes(f) + rest), |front|, limit, key, value, at)
            == Ok((f.key, value, |front| + |EntryFieldBytes(f)|))
  {
    hide Decode, Int32, SkipFrom, Or64, Length;
    var tail := f.length + (f.key + rest);
    var j := |front| + |f.tag|;
    assert EntryFieldBytes(f) + rest == f.tag + tail;
    StepSplit(front, f.tag, tail);
    DecodeVarintIn(f.tag, tail);
    LengthIn(f.length, f.key, rest, at + j);
    KeySlice(front, f, rest);
  }

  lemma LengthIn(length: seq<byte>, b: seq<byte>, rest: seq<byte>, at: nat)
    requires IsVarint(length) && Decode(length).value.0 == |b| && at + |length| + |b| < INT64_LIMIT
    ensures Length(length + (b + rest), at) == Ok((|b|, |length|))
  {
    hide Decode;
    DecodeVarintIn(length, b + rest);
  }

  lemma KeySlice(front: seq<byte>, f: EntryField, rest: seq<byte>)
    requires f.KeyField?
    ensures var s, i := front + (EntryFieldBytes(f) + rest), |front| + |f.tag| + |f.length|;
            s[i..i + |f.key|] == f.key
  {
    var i := |front| + |f.tag| + |f.length|;
    assert front + (EntryFieldBytes(f) + rest) == front + f.tag + f.length + (f.key + rest);
    assert |front + f.tag + f.length| == i;
  }

  lemma {:induction false} EntryValue(front: seq<byte>, f: EntryField, key: seq<byte>, value: uint64,
                                      rest: seq<byte>, limit: nat, at: nat)
    requires f.ValueField? && IsEntryField(f)
    requires |front| < limit <= |front| + |EntryFieldBytes(f)| + |rest|
    ensures EntryStep(front + (EntryFieldBytes(f) + rest), |front|, limit, key, value, at)
            == Ok((key, Or64(value, f.value), |front| + |EntryFieldBytes(f)|))
  {
    hide Decode, Int32, SkipFrom, Or64;
    var tail := f.bytes + rest;
    assert EntryFieldBytes(f) + rest == f.tag + tail;
    StepSplit(front, f.tag, tail);
    DecodeVarintIn(f.tag, tail);
    DecodeVarintIn(f.bytes, rest);
  }

  lemma {:induction false} EntryOther(front: seq<byte>, f: Field, key: seq<byte>, value: uint64,
                                      rest: seq<byte>, limit: nat, at: nat)
    requires IsEntryField(OtherField(f)) && at + |front| + |FieldBytes(f)| < INT64_LIMIT
    requires |front| < limit && |front| + |FieldBytes(f)| <= limit <= |front| + |FieldBytes(f)| + |rest|
    ensures EntryStep(front + (FieldBytes(f) + rest), |front|, limit, key, value, at)
            == Ok((key, value, |front| + |FieldBytes(f)|))
  {
    hide Decode, FieldBytes, WellFormed, Int32, SkipFrom, Or64;
    StepSplit(front, FieldBytes(f), rest);
    TagInFront(f, rest);
    SkipOne(f, rest, 0, 0);
  }

  lemma EntryFieldNotEmpty(f: EntryField)
    requires IsEntryField(f)
    ensures EntryFieldBytes(f) != []
  {
    hide Decode, FieldBytes, WellFormed, Int32;
    if f.OtherField? {
      TagInFront(f.field, []);
    }
  }

  lemma {:induction false} EntryFieldRead(front: seq<byte>, f: EntryField, rest: seq<byte>, limit: nat,
                                          key: seq<byte>, value: uint64, at: nat)
    requires IsEntryField(f) && at + |front| + |EntryFieldBytes(f)| < INT64_LIMIT
    requires |front| < limit && |front| + |EntryFieldBytes(f)| <= limit <= |front| + |EntryFieldBytes(f)| + |rest|
    ensures EntryStep(front + (EntryFieldBytes(f) + rest), |front|, limit, key, value, at)
            == Ok((NextKey(f, key), NextValue(f, value), |front| + |EntryFieldBytes(f)|))
  {
    hide FieldBytes, EntryStep, IsEntryField, Or64;
    match f {
      case KeyField(_, _, _) => EntryKey(front, f, key, value, rest, limit, at);
      case ValueField(_, _, _) => EntryValue(front, f, key, value, rest, limit, at);
      case OtherField(field) => EntryOther(front, field, key, value, rest, limit, at);
    }
  }

  /** The entry loop reads any body of fields: the last key, all values or-ed, and nothing of other fields. */
  lemma {:induction false} BodyRead(front: seq<byte>, fs: seq<EntryField>, rest: seq<byte>,
                                    key: seq<byte>, value: uint64, at: nat)
    requires IsBody(fs) && at + |front| + |BodyBytes(fs)| < INT64_LIMIT
    ensures var s, limit := front + (BodyBytes(fs) + rest), |front| + |BodyBytes(fs)|;
            && EntryFrom(s, |front|, limit, key, value, at) == Ok((LastKey(fs, key), OredValues(fs, value)))
            && EntryStop(s, |front|, limit, at) == Some(limit)
    decreases |fs|
  {
    hide EntryStep, EntryFieldBytes, IsEntryField, NextKey, NextValue;
    if fs != [] {
      var f, first, more := fs[0], EntryFieldBytes(fs[0]), BodyBytes(fs[1..]);
      var limit := |front| + |BodyBytes(fs)|;
      assert BodyBytes(fs) + rest == first + (more + rest);
      EntryFieldNotEmpty(f);
      EntryFieldRead(front, f, more + rest, limit, key, value, at);
      EntryFieldRead(front, f, more + rest, limit, [], 0, at);
      Associative(front, first, more + rest);
      BodyRead(front + first, fs[1..], rest, NextKey(f, key), NextValue(f, value), at);
    }
  }

  // ---- Entries that end where they should ----

  /** The field that a round of the entry loop reads. */
  lemma {:induction false} StepField(s: seq<byte>, i: nat, limit: nat, key: seq<byte>, value: uint64, at: nat)
    returns (f: EntryField)
    requires i < limit <= |s| && EntryStep(s, i, limit, key, value, at).Ok?
    ensures var j := EntryStep(s, i, limit, key, value, at).value.2;
            && IsEntryField(f) && EntryFieldBytes(f) == s[i..j] && (f.OtherField? ==> j <= limit)
  {
    hide Raw, Int32, SkipFrom, Or64, WellFormed, FieldBytes;
    var (wire, k) := Decode(s[i..]).value;
    var number, j := Int32(wire / 8), i + k;
    var end := EntryStep(s, i, limit, key, value, at).value.2;
    DecodePrefix(s[i..]);
    assert s[i..][..k] == s[i..j];
    if number == 1 {
      var (length, n) := Length(s[j..], at + j).value;
      DecodePrefix(s[j..]);
      assert s[j..][..n] == s[j..j + n];
      f := KeyField(s[i..j], s[j..j + n], s[j + n..end]);
      assert s[i..end] == s[i..j] + (s[j..j + n] + s[j + n..end]);
    } else if number == 2 {
      var (v, n) := Decode(s[j..]).value;
      DecodePrefix(s[j..]);
      assert s[j..][..n] == s[j..end];
      f := ValueField(s[i..j], s[j..end], v);
      assert s[i..end] == s[i..j] + s[j..end];
    } else {
      var field := SkippedField(s[i..]);
      assert s[i..][..end - i] == s[i..end];
      TagInFront(field, s[end..]);
      assert s[i..] == FieldBytes(field) + s[end..];
      f := OtherField(field);
    }
  }

  /** What the entry loop reads is a body of fields; only a key or a value can end behind the entry. */
  lemma {:induction false} BodyOf(s: seq<byte>, i: nat, limit: nat, at: nat) returns (fs: seq<EntryField>)
    requires i <= |s| && limit <= |s| && EntryStop(s, i, limit, at).Some?
    ensures IsBody(fs) && BodyBytes(fs) == s[i..EntryStop(s, i, limit, at).value]
    ensures i >= limit ==> fs == []
    ensures i <= limit < EntryStop(s, i, limit, at).value ==> fs != [] && !fs[|fs| - 1].OtherField?
    decreases |s| - i
  {
    hide EntryStep, EntryFieldBytes, IsEntryField;
    if i >= limit {
      fs := [];
    } else {
      var end := EntryStop(s, i, limit, at).value;
      var j := EntryStep(s, i, limit, [], 0, at).value.2;
      var f := StepField(s, i, limit, [], 0, at);
      var rest := BodyOf(s, j, limit, at);
      fs := [f] + rest;
      assert fs[1..] == rest;
      assert s[i..end] == s[i..j] + s[j..end];
    }
  }

  lemma {:induction false} StopIffOk(s: seq<byte>, i: nat, limit: nat, key: seq<byte>, value: uint64, at: nat)
    requires i <= |s| && limit <= |s|
    ensures EntryFrom(s, i, limit, key, value, at).Ok? <==> EntryStop(s, i, limit, at).Some?
    decreases |s| - i
  {
    hide Decode, Length, SkipFrom, Int32, Or64;
    if i < limit && EntryStep(s, i, limit, key, value, at).Ok? {
      var (key', value', j) := EntryStep(s, i, limit, key, value, at).value;
      StopIffOk(s, j, limit, key', value', at);
    }
  }

  /**
    An entry is read from its own bytes alone exactly when the loop stops at its end, and that is
    exactly when those bytes are a body of fields.
    */
  lemma {:induction false} EntryWithinIff(s: seq<byte>, limit: nat, at: nat)
    requires limit <= |s| && at + |s| < INT64_LIMIT
    ensures EntryStop(s, 0, limit, at) == Some(limit) <==> exists fs :: IsBody(fs) && BodyBytes(fs) == s[..limit]
    ensures EntryStop(s, 0, limit, at) == Some(limit) <==> EntryFrom(s[..limit], 0, limit, [], 0, at).Ok?
    ensures EntryStop(s, 0, limit, at) == Some(limit) ==>
              EntryFrom(s[..limit], 0, limit, [], 0, at) == EntryFrom(s, 0, limit, [], 0, at)
  {
    hide EntryFrom, EntryStop, BodyBytes, IsBody, LastKey, OredValues;
    StopIffOk(s[..limit], 0, limit, [], 0, at);
    if EntryFrom(s[..limit], 0, limit, [], 0, at).Ok? {
      var fs := BodyOf(s[..limit], 0, limit, at);
      assert s[..limit][0..limit] == s[..limit];
    }
    if EntryStop(s, 0, limit, at) == Some(limit) {
      var fs := BodyOf(s, 0, limit, at);
      assert s[0..limit] == s[..limit];
    }
    if fs :| IsBody(fs) && BodyBytes(fs) == s[..limit] {
      BodyRead([], fs, s[limit..], [], 0, at);
      BodyRead([], fs, [], [], 0, at);
      assert [] + (s[..limit] + s[limit..]) == s && [] + (s[..limit] + []) == s[..limit];
    }
  }

  /** A key from behind the end of its entry, whose bytes are then read again as fields of the message. */
  lemma KeyFromBehind()
    ensures ReadSchedule(map[], [0x52, 2, 0x0a, 2, 0x78, 5], 0) == Ok(map[[0x78, 5] := 0])
  {
    hide ReadEntry, ReadTag, SkipUnknown, EntryStop;
    var last: seq<byte> := [0x78, 5];
    var entry: seq<byte> := [0x0a, 2] + last;
    var s: seq<byte> := [0x52] + ([2] + entry);
    OneByte(0x52);
    hide Decode;
    ScheduleTag([0x52], [2] + entry);
    OverrunKey(last);
    assert s[1..] == [2] + entry && s[1 + 3..] == last;
    FieldIgnored(map[last := 0], last);
    assert s == [0x52, 2, 0x0a, 2, 0x78, 5];
  }

  /** An entry of two bytes whose key is the two bytes behind it. */
  lemma {:induction false} OverrunKey(last: seq<byte>)
    requires |last| == 2
    ensures ReadEntry([2] + ([0x0a, 2] + last), 1) == Ok((last, 0, 3))
    ensures EntryStop([0x0a, 2] + last, 0, 2, 2) == Some(4)
  {
    var entry: seq<byte> := [0x0a, 2] + last;
    OverrunStep(last);
    OneByte(2);
    LengthIn([2], entry[..2], entry[2..], 1);
    assert entry[..2] + entry[2..] == entry && ([2] + entry)[1..] == entry;
    hide EntryStep, Length, Decode;
    assert EntryFrom(entry, 4, 2, last, 0, 2) == Ok((last, 0)) && EntryStop(entry, 4, 2, 2) == Some(4);
  }

  lemma OverrunStep(last: seq<byte>)
    requires |last| == 2
    ensures EntryStep([0x0a, 2] + last, 0, 2, [], 0, 2) == Ok((last, 0, 4))
  {
    hide Decode, EntryStep;
    var f := KeyField([0x0a], [2], last);
    OneByte(0x0a);
    OneByte(2);
    EntryKey([], f, [], 0, [], 2, 2);
    assert [] + (EntryFieldBytes(f) + []) == [0x0a, 2] + last;
  }

  /** A field of another number than 10 is skipped, whatever its type. */
  lemma {:induction false} OtherFieldSkipped(m: Schedule, f: Field, rest: seq<byte>, at: nat)
    requires WellFormed(f) && FieldNumber(f) > 0 && FieldNumber(f) != 10
    requires at + |FieldBytes(f)| < INT64_LIMIT
    ensures FieldBytes(f) != []
    ensures ReadSchedule(m, FieldBytes(f) + rest, at) == ReadSchedule(m, rest, at + |FieldBytes(f)|)
  {
    hide ReadTag, SkipUnknown, ReadEntry, FieldBytes, WellFormed, FieldNumber;
    UnknownTag(f, rest);
    UnknownSkipped(f, rest, at);
    assert (FieldBytes(f) + rest)[|FieldBytes(f)|..] == rest;
  }

  /** The tags that are refused: the end of a group, a number that is not positive, another type in field 10. */
  lemma {:induction false} ScheduleRefuses(m: Schedule, tag: seq<byte>, rest: seq<byte>, at: nat)
    requires IsVarint(tag)
    ensures var wire, r := Decode(tag).value.0, ReadSchedule(m, tag + rest, at);
            && (wire % 8 == 4 ==> r == Err(EndGroupForNonGroup))
            && (wire % 8 != 4 && Int32(wire / 8) <= 0 ==> r == Err(IllegalTag))
            && (wire % 8 !in {2, 4} && Int32(wire / 8) == 10 ==> r == Err(WrongWireType))
  {
    hide Decode, Int32, SkipUnknown, ReadEntry;
    DecodeVarintIn(tag, rest);
  }

  lemma {:induction false} FieldIgnored(m: Schedule, last: seq<byte>)
    requires last == [0x78, 5]
    ensures ReadSchedule(m, last, 4) == Ok(m)
  {
    var f := VarintField([0x78], [5]);
    OneByte(0x78);
    OneByte(5);
    hide Decode;
    assert WellFormed(f) && FieldBytes(f) == last && FieldNumber(f) == 15;
    hide ReadTag, SkipUnknown, ReadEntry;
    assert last + [] == last;
    OtherFieldSkipped(m, f, [], 4);
  }

  // ---- The value of a body ----

  lemma {:induction false} OredCovered(fs: seq<EntryField>, value: uint64, a: uint64)
    ensures Covered(OredValues(fs, value), a)
       <==> Covered(value, a) && forall i :: 0 <= i < |fs| && fs[i].ValueField? ==> Covered(fs[i].value, a)
    decreases |fs|
  {
    hide Or64, Covered;
    if fs != [] {
      var f, rest := fs[0], fs[1..];
      assert forall i :: 0 < i < |fs| ==> fs[i] == rest[i - 1];
      assert forall i :: 0 <= i < |rest| ==> rest[i] == fs[i + 1];
      OredCovered(rest, NextValue(f, value), a);
      if f.ValueField? {
        OrCovered(value, f.value, a);
      }
    }
  }

  lemma {:induction false} LastValueAmong(fs: seq<EntryField>, value: uint64)
    ensures || LastValue(fs, value) == value
            || exists i :: 0 <= i < |fs| && fs[i].ValueField? && fs[i].value == LastValue(fs, value)
    decreases |fs|
  {
    if fs != [] {
      var next := if fs[0].ValueField? then fs[0].value else value;
      LastValueAmong(fs[1..], next);
      if LastValue(fs, value) == next {
        assert next == value || (fs[0].ValueField? && fs[0].value == next);
      } else {
        var i :| 0 <= i < |fs[1..]| && fs[1..][i].ValueField? && fs[1..][i].value == LastValue(fs[1..], next);
        assert fs[i + 1] == fs[1..][i];
      }
    }
  }

  /** The values or-ed are the last value exactly when every value, or-ed to the last, leaves it as it is. */
  lemma {:induction false} OredIsLastIff(fs: seq<EntryField>)
    ensures OredValues(fs, 0) == LastValue(fs, 0)
       <==> forall i :: 0 <= i < |fs| && fs[i].ValueField? ==> Or64(fs[i].value, LastValue(fs, 0)) == LastValue(fs, 0)
  {
    var all, last := OredValues(fs, 0), LastValue(fs, 0);
    assert forall i :: 0 <= i < |fs| && fs[i].ValueField? ==>
             (Covered(fs[i].value, last) <==> Or64(fs[i].value, last) == last);
    Or64Zero(last);
    Or64Zero(all);
    assert Covered(0, last) && Covered(0, all);
    hide Or64, Covered, OredValues, LastValue;
    OredCovered(fs, 0, last);
    OredCovered(fs, 0, all);
    OrCovered(all, all, all);
    OrCovered(last, last, all);
    LastValueAmong(fs, 0);
  }

  /** So a map entry has the value that other scalar fields would have exactly under that condition. */
  lemma {:induction false} LastValueWinsIff(fs: seq<EntryField>, rest: seq<byte>, at: nat)
    requires IsBody(fs)
    requires at + |BodyBytes(fs)| < INT64_LIMIT
    ensures EntryFrom(BodyBytes(fs) + rest, 0, |BodyBytes(fs)|, [], 0, at) == Ok((LastKey(fs, []), LastValue(fs, 0)))
       <==> forall i :: 0 <= i < |fs| && fs[i].ValueField? ==> Or64(fs[i].value, LastValue(fs, 0)) == LastValue(fs, 0)
  {
    hide EntryFrom, BodyBytes, Or64, OredValues, LastValue, LastKey;
    BodyRead([], fs, rest, [], 0, at);
    assert [] + (BodyBytes(fs) + rest) == BodyBytes(fs) + rest;
    OredIsLastIff(fs);
  }

  /** 1 and then 2 are read as 3. */
  lemma OneOrTwo(tag: seq<byte>, one: seq<byte>, two: seq<byte>)
    ensures OredValues([ValueField(tag, one, 1), ValueField(tag, two, 2)], 0) == 3
  {
    hide Or64;
    assert Pow2(1) == 2;
    OrChunk(1, 1, 1);
    Or64Zero(1);
    var second := [ValueField(tag, two, 2)];
    assert [ValueField(tag, one, 1), ValueField(tag, two, 2)][1..] == second && second[1..] == [];
    assert OredValues(second, 1) == 3;
  }

  function PrintedFields(key: seq<byte>, value: uint64): seq<EntryField> {
    [KeyField(Tag(1, 2), Encode(|key|), key), ValueField(Tag(2, 0), Encode(value), value)]
  }

  lemma PrintedTag(number: nat, wireType: nat)
    requires 0 < number < 16 && wireType < 8
    ensures IsEntryTag(Tag(number, wireType), number)
  {
    hide Decode, Encode;
    EncodeIsVarint(number * 8 + wireType);
    assert (number * 8 + wireType) / 8 == number;
  }

  lemma {:induction false} EncodeIsVarint(v: uint64)
    ensures IsVarint(Encode(v)) && Decode(Encode(v)).value.0 == v
  {
    hide Decode, Encode;
    DecodeEncode(v, []);
    assert Encode(v) + [] == Encode(v);
  }

  lemma {:induction false} PrintedBody(key: seq<byte>, value: uint64)
    requires |key| < INT64_LIMIT
    ensures IsBody(PrintedFields(key, value)) && BodyBytes(PrintedFields(key, value)) == EntryBody(key, value)
    ensures LastKey(PrintedFields(key, value), []) == key
    ensures OredValues(PrintedFields(key, value), 0) == value
  {
    hide Encode, Decode, Tag, Or64, IsEntryTag, IsVarint;
    var fs := PrintedFields(key, value);
    var second := [fs[1]];
    assert fs[1..] == second && second[1..] == [];
    PrintedTag(1, 2);
    PrintedTag(2, 0);
    EncodeIsVarint(|key|);
    EncodeIsVarint(value);
    Associative(Tag(1, 2), Encode(|key|), key);
    assert BodyBytes(second) == Tag(2, 0) + Encode(value) + [];
    assert LastKey(second, key) == key;
    Or64Zero(value);
    assert OredValues(second, 0) == value;
  }

  lemma BodyLength(key: seq<byte>, value: uint64)
    ensures |key| < |EntryBody(key, value)| < |EntryBytes(key, value)|
  {
    hide KnownBytes, Size;
    EntrySizeExact(key, value);
  }

  /** The entry loop reads a printed entry, whatever follows it. */
  lemma {:induction false} EntryBodyRead(key: seq<byte>, value: uint64, rest: seq<byte>, at: nat)
    requires at + |EntryBody(key, value)| < INT64_LIMIT
    ensures EntryFrom(EntryBody(key, value) + rest, 0, |EntryBody(key, value)|, [], 0, at) == Ok((key, value))
  {
    hide EntryFrom, EntryStop, BodyBytes, IsBody, LastKey, OredValues, PrintedFields;
    BodyLength(key, value);
    hide EntryBody;
    PrintedBody(key, value);
    BodyRead([], PrintedFields(key, value), rest, [], 0, at);
    assert [] + (EntryBody(key, value) + rest) == EntryBody(key, value) + rest;
  }

  /** Field 10 with any body puts the last key with its values or-ed, however long its varints are. */
  lemma {:induction false} FieldRead(m: Schedule, tag: seq<byte>, length: seq<byte>, fs: seq<EntryField>,
                                     rest: seq<byte>, at: nat)
    requires IsVarint(tag) && Decode(tag).value.0 % 8 == 2 && Int32(Decode(tag).value.0 / 8) == 10
    requires IsVarint(length) && Decode(length).value.0 == |BodyBytes(fs)| && IsBody(fs)
    requires at + |tag| + |length| + |BodyBytes(fs)| < INT64_LIMIT
    ensures ReadSchedule(m, tag + (length + (BodyBytes(fs) + rest)), at)
            == ReadSchedule(m[LastKey(fs, []) := OredValues(fs, 0)], rest, at + |tag| + |length| + |BodyBytes(fs)|)
  {
    hide ReadTag, Decode, Int32, ReadEntry, SkipUnknown, BodyBytes, LastKey, OredValues, IsBody, Length;
    var body := BodyBytes(fs);
    var tail := length + (body + rest);
    var s := tag + tail;
    ScheduleTag(tag, tail);
    LengthIn(length, body, rest, at + |tag|);
    assert tail[|length|..] == body + rest;
    EntryPut(fs, tail, |length|, rest, at + |tag|);
    assert s[|tag|..] == tail && s[|tag| + (|length| + |body|)..] == rest;
  }

  lemma ScheduleTag(tag: seq<byte>, tail: seq<byte>)
    requires IsVarint(tag) && Decode(tag).value.0 % 8 == 2 && Int32(Decode(tag).value.0 / 8) == 10
    ensures tag != [] && ReadTag(tag + tail) == Ok((10, 2, |tag|))
  {
    hide Decode, Int32;
    DecodeVarintIn(tag, tail);
  }

  lemma {:induction false} EntryPut(fs: seq<EntryField>, s: seq<byte>, n: nat, rest: seq<byte>, at: nat)
    requires IsBody(fs)
    requires at + n + |BodyBytes(fs)| < INT64_LIMIT
    requires Length(s, at) == Ok((|BodyBytes(fs)|, n)) && s[n..] == BodyBytes(fs) + rest
    ensures ReadEntry(s, at) == Ok((LastKey(fs, []), OredValues(fs, 0), n + |BodyBytes(fs)|))
  {
    hide Length, EntryFrom, EntryStop, BodyBytes, LastKey, OredValues, IsBody;
    BodyRead([], fs, rest, [], 0, at + n);
    assert [] + (BodyBytes(fs) + rest) == BodyBytes(fs) + rest;
  }

  /** A printed entry is read, whatever follows it. */
  lemma {:induction false} EntryRead(m: Schedule, key: seq<byte>, value: uint64, rest: seq<byte>, at: nat)
    requires at + |EntryBytes(key, value)| < INT64_LIMIT
    ensures EntryBytes(key, value) != []
    ensures ReadSchedule(m, EntryBytes(key, value) + rest, at)
            == ReadSchedule(m[key := value], rest, at + |EntryBytes(key, value)|)
  {
    hide ReadSchedule, BodyBytes, LastKey, OredValues, EntryBody, KnownBytes, IsBody, PrintedFields, Size, Encode;
    var body := EntryBody(key, value);
    var tag, length: seq<byte> := [0x52], Encode(|body|);
    BodyLength(key, value);
    PrintedBody(key, value);
    EntryLayout(key, value);
    EncodeIsVarint(|body|);
    OneByte(0x52);
    assert EntryBytes(key, value) + rest == tag + (length + (body + rest));
    hide Decode;
    FieldRead(m, tag, length, PrintedFields(key, value), rest, at);
  }

  lemma KnownNotEmpty(f: Known)
    ensures KnownBytes(f) != []
  {
  }

  /** The schedule after the entries of `order` are put into `m0`, the last one first. */
  function PutInOrder(m0: Schedule, m: Schedule, order: seq<seq<byte>>): Schedule
    requires forall k :: k in order ==> k in m
  {
    if order == [] then m0 else PutInOrder(m0, m, order[1..])[order[0] := m[order[0]]]
  }

  lemma {:induction false} PrintedRead(m0: Schedule, m: Schedule, order: seq<seq<byte>>, rest: seq<byte>, at: nat)
    requires forall k :: k in order ==> k in m
    requires at + |Printed(m, order)| < INT64_LIMIT
    ensures ReadSchedule(m0, Printed(m, order) + rest, at)
            == ReadSchedule(PutInOrder(m0, m, order), rest, at + |Printed(m, order)|)
    decreases |order|
  {
    hide EntryBytes, ReadSchedule;
    if order == [] {
      assert [] + rest == rest;
    } else {
      var last := EntryBytes(order[0], m[order[0]]);
      Associative(Printed(m, order[1..]), last, rest);
      PrintedRead(m0, m, order[1..], last + rest, at);
      EntryRead(PutInOrder(m0, m, order[1..]), order[0], m[order[0]], rest, at + |Printed(m, order[1..])|);
    }
  }

  lemma {:induction false} PutInOrderAt(m: Schedule, order: seq<seq<byte>>, k: seq<byte>)
    requires forall k :: k in order ==> k in m
    ensures var r := PutInOrder(map[], m, order);
            (k in r <==> k in order) && (k in r ==> r[k] == m[k])
  {
    if order != [] {
      PutInOrderAt(m, order[1..], k);
    }
  }

  lemma {:induction false} PutInOrderIsMap(m: Schedule, order: seq<seq<byte>>)
    requires IsOrder(m, order)
    ensures PutInOrder(map[], m, order) == m
  {
    forall k
      ensures k in PutInOrder(map[], m, order) <==> k in m
      ensures k in m ==> PutInOrder(map[], m, order)[k] == m[k]
    {
      PutInOrderAt(m, order, k);
    }
  }

  lemma {:induction false} WholeRead(m: Schedule, order: seq<seq<byte>>)
    requires IsOrder(m, order) && |Printed(m, order)| < INT64_LIMIT
    ensures ReadSchedule(map[], Printed(m, order), 0) == Ok(m)
  {
    PutInOrderIsMap(m, order);
    hide Printed, PutInOrder;
    PrintedRead(map[], m, order, [], 0);
    assert Printed(m, order) + [] == Printed(m, order);
  }

  /** Whatever the order of the iteration, the map is read back, and the bytes are as many as `Size` says. */
  lemma {:induction false} ScheduleRoundTrip(m: Schedule, order: seq<seq<byte>>, sizeOrder: seq<seq<byte>>)
    requires IsOrder(m, order) && IsOrder(m, sizeOrder)
    ensures |Printed(m, order)| == SizeInOrder(m, sizeOrder)
    ensures |Printed(m, order)| < INT64_LIMIT ==> ReadSchedule(map[], Printed(m, order), 0) == Ok(m)
  {
    hide Printed, SizeInOrder, PutInOrder;
    PrintedSize(m, order);
    SizeOfAnyOrder(m, order, sizeOrder);
    if |Printed(m, order)| < INT64_LIMIT {
      WholeRead(m, order);
    }
  }

  lemma {:induction false} PrintedNext(m: Schedule, order: seq<seq<byte>>, tail: seq<byte>)
    requires order != [] && forall k :: k in order ==> k in m
    ensures Printed(m, order) + tail == Printed(m, order[1..]) + (EntryBytes(order[0], m[order[0]]) + tail)
    ensures SizeInOrder(m, order) == EntrySize(order[0], m[order[0]]) + SizeInOrder(m, order[1..])
  {
    hide EntryBytes, EntrySize;
    Associative(Printed(m, order[1..]), EntryBytes(order[0], m[order[0]]), tail);
  }

  // ---- The message ----

  class ScheduleMessage {
    var minimalForkSched: Schedule

    constructor ()
      ensures minimalForkSched == map[]
    {
      minimalForkSched := map[];
    }

    /** `order` is the iteration order the runtime happens to choose. */
    method SizeOf(order: seq<seq<byte>>) returns (n: nat)
      requires IsOrder(minimalForkSched, order)
      ensures n == SizeInOrder(minimalForkSched, order)
    {
      hide EntrySize;
      n := 0;
      var left := order;
      while left != []
        invariant forall k :: k in left ==> k in minimalForkSched
        invariant n + SizeInOrder(minimalForkSched, left) == SizeInOrder(minimalForkSched, order)
      {
        n := n + EntrySize(left[0], minimalForkSched[left[0]]);
        left := left[1..];
      }
    }

    method WriteEntry(a: array<byte>, i: nat, key: seq<byte>, value: uint64,
                      ghost before: seq<byte>, ghost tail: seq<byte>)
      returns (j: nat, ghost more: seq<byte>)
      requires EntrySize(key, value) <= i && a.Length < UINT64_LIMIT
      requires i + |tail| <= a.Length && |before| == a.Length && a[..] == Overwrite(before, i, tail)
      modifies a
      ensures more == EntryBytes(key, value) + tail
      ensures j + EntrySize(key, value) == i && j + |more| == i + |tail| && a[..] == Overwrite(before, j, more)
    {
      EntrySizeExact(key, value);
      KnownSize(Known(1, Bytes(key)));
      KnownSize(Known(2, Number(value)));
      KnownSize(Known(FIELD, Bytes(EntryBody(key, value))));
      SizeExact(value);
      ghost var second := KnownBytes(Known(2, Number(value)));
      assert second == [0x10] + Encode(value);
      hide Encode, KnownBytes, Overwrite, Size, Print;
      var base := i;
      j := VarintBefore(a, i, value, before, tail);
      j := CopyBefore(a, j, [0x10], before, Encode(value) + tail);
      Associative([0x10], Encode(value), tail);
      j, more := WriteMessage(a, j, 1, key, before, second + tail);
      Associative(KnownBytes(Known(1, Bytes(key))), second, tail);
      assert j + |EntryBody(key, value)| == base;
      j, more := WritePrefix(a, j, FIELD, EntryBody(key, value), base - j, before, tail);
    }

    /** Fills the buffer backwards from `end`, entry by entry, and returns the number of bytes written. */
    method MarshalToSizedBuffer(a: array<byte>, end: nat, order: seq<seq<byte>>) returns (n: nat)
      requires IsOrder(minimalForkSched, order)
      requires SizeInOrder(minimalForkSched, order) <= end <= a.Length < UINT64_LIMIT
      modifies a
      ensures n == SizeInOrder(minimalForkSched, order) == |Printed(minimalForkSched, order)|
      ensures a[..] == Overwrite(old(a[..]), end - n, Printed(minimalForkSched, order))
    {
      ghost var before, tail: seq<byte> := a[..], [];
      ghost var m := minimalForkSched;
      var i: nat := end;
      assert a[..] == Overwrite(before, i, tail);
      PrintedSize(m, order);
      assert Printed(m, order) + [] == Printed(m, order);
      assert Printed(m, []) == [];
      hide EntryBytes, EntrySize, Overwrite, Printed, SizeInOrder;
      var left := order;
      while left != []
        invariant forall k :: k in left ==> k in m
        invariant i + |tail| == end && a[..] == Overwrite(before, i, tail)
        invariant SizeInOrder(m, left) <= i
        invariant Printed(m, left) + tail == Printed(m, order)
      {
        PrintedNext(m, left, tail);
        i, tail := WriteEntry(a, i, left[0], minimalForkSched[left[0]], before, tail);
        left := left[1..];
      }
      assert [] + tail == tail;
      return end - i;
    }

    /** One round of the entry loop, at index `i` of the message. */
    method ReadEntryField(data: seq<byte>, start: nat, i: nat, post: nat, key: seq<byte>, value: uint64)
      returns (r: Result<(seq<byte>, uint64, nat), WireError>)
      requires start <= i < post <= |data|
      ensures match EntryStep(data[start..], i - start, post - start, key, value, start)
              case Err(e) => r == Err(e)
              case Ok((key', value', j)) => r == Ok((key', value', start + j))
    {
      hide Decode, SkipFrom, Or64, Int32;
      ghost var s := data[start..];
      assert s[i - start..] == data[i..];
      var wire := ReadVarint(data, i);
      if wire.Err? {
        return Err(wire.error);
      }
      var j := wire.value.1;
      assert s[j - start..] == data[j..];
      var number := Int32(wire.value.0 / 8);
      if number == 1 {
        var field := ReadBytesField(data, j, 2);
        if field.Err? {
          return Err(field.error);
        }
        assert s[field.value.1 - start - |field.value.0|..field.value.1 - start] == field.value.0;
        return Ok((field.value.0, value, field.value.1));
      } else if number == 2 {
        var field := ReadVarint(data, j);
        if field.Err? {
          return Err(field.error);
        }
        return Ok((key, Or64(value, field.value.0), field.value.1));
      } else {
        var n := SkipField(data[i..]);
        if n.Err? {
          return Err(n.error);
        }
        if i + n.value >= INT64_LIMIT {
          return Err(InvalidLength);
        }
        if i + n.value > post {
          return Err(UnexpectedEof);
        }
        return Ok((key, value, i + n.value));
      }
    }

    /** The entry loop of one map field. */
    method ReadEntryFields(data: seq<byte>, start: nat, post: nat) returns (r: Result<(seq<byte>, uint64), WireError>)
      requires start <= post <= |data|
      ensures r == EntryFrom(data[start..], 0, post - start, [], 0, start)
    {
      hide EntryStep;
      var key: seq<byte> := [];
      var value: uint64 := 0;
      var i := start;
      ghost var s, limit := data[start..], post - start;
      while i < post
        invariant start <= i <= |data|
        invariant EntryFrom(s, i - start, limit, key, value, start) == EntryFrom(s, 0, limit, [], 0, start)
      {
        var field := ReadEntryField(data, start, i, post, key, value);
        if field.Err? {
          return Err(field.error);
        }
        key, value, i := field.value.0, field.value.1, field.value.2;
      }
      return Ok((key, value));
    }

    /** The map field behind its tag. */
    method ReadMapField(data: seq<byte>, start: nat, wireType: nat)
      returns (r: Result<(seq<byte>, uint64, nat), WireError>)
      requires start <= |data|
      ensures wireType != 2 ==> r == Err(WrongWireType)
      ensures wireType == 2 ==>
                match ReadEntry(data[start..], start)
                case Err(e) => r == Err(e)
                case Ok((key, value, n)) => r == Ok((key, value, start + n))
    {
      hide EntryFrom, Length;
      var body := ReadBytesField(data, start, wireType);
      if body.Err? {
        return Err(body.error);
      }
      var post := body.value.1;
      var first := post - |body.value.0|;
      assert data[start..][first - start..] == data[first..];
      var entry := ReadEntryFields(data, first, post);
      if entry.Err? {
        return Err(entry.error);
      }
      return Ok((entry.value.0, entry.value.1, post));
    }

    method Unmarshal(data: seq<byte>) returns (err: Option<WireError>)
      modifies this
      ensures match err
              case None => ReadSchedule(old(minimalForkSched), data, 0) == Ok(minimalForkSched)
              case Some(e) => ReadSchedule(old(minimalForkSched), data, 0) == Err(e)
    {
      hide ReadTag, SkipUnknown, ReadEntry;
      var i := 0;
      while i < |data|
        invariant i <= |data|
        invariant ReadSchedule(minimalForkSched, data[i..], i) == ReadSchedule(old(minimalForkSched), data, 0)
      {
        var tag := ReadTagAt(data, i);
        if tag.Err? {
          return Some(tag.error);
        }
        var (number, wireType, j) := tag.value;
        assert data[i..][j - i..] == data[j..];
        if number == FIELD {
          var entry := ReadMapField(data, j, wireType);
          if entry.Err? {
            return Some(entry.error);
          }
          minimalForkSched := minimalForkSched[entry.value.0 := entry.value.1];
          assert data[i..][entry.value.2 - i..] == data[entry.value.2..];
          i := entry.value.2;
        } else {
          var next := SkipUnknownAt(data, i);
          if next.Err? {
            return Some(next.error);
          }
          assert data[i..][next.value - i..] == data[next.value..];
          i := next.value;
        }
      }
      return None;
    }
  }
}
