/**
  Messages on the wire, as every generated `Unmarshal` reads them: a loop over tagged fields that
  merges known fields into the message and skips the others.
  */
module Wire {
  import opened Integers
  import opened Wrappers
  import opened Varint
  import opened Skip

  datatype Payload = Number(value: uint64) | Bytes(bytes: seq<byte>)

  datatype Kind = NumberKind | BytesKind | Unknown

  /** A message type: how each field number is read, and what reading it does to the message. */
  datatype Schema<!M> = Schema(kind: int -> Kind, put: (M, int, Payload) -> Result<M, WireError>)

  /** The conversion of a field number to a signed 32-bit integer, which drops its higher bits. */
  function Int32(x: nat): int {
    var low := x % UINT32_LIMIT;
    if low < UINT32_LIMIT / 2 then low else low - UINT32_LIMIT
  }

  /** The length in front of `s`, which stands at index `at` of the message, and the bytes it takes. */
  function Length(s: seq<byte>, at: nat): (r: Result<(nat, nat), WireError>)
    ensures r.Ok? ==> 0 < r.value.1 && r.value.0 + r.value.1 <= |s|
  {
    match Decode(s)
    case Err(e) => Err(e)
    case Ok((length, n)) =>
      if length >= INT64_LIMIT || at + n + length >= INT64_LIMIT then Err(InvalidLength)
      else if n + length > |s| then Err(UnexpectedEof)
      else Ok((length, n))
  }

  function ReadPayload(kind: Kind, wireType: nat, s: seq<byte>, at: nat): (r: Result<(Payload, nat), WireError>)
    requires kind != Unknown
    ensures r.Ok? ==> r.value.1 <= |s|
  {
    match kind
    case NumberKind =>
      if wireType != 0 then Err(WrongWireType)
      else
        (match Decode(s)
         case Err(e) => Err(e)
         case Ok((v, n)) => Ok((Number(v), n)))
    case BytesKind =>
      if wireType != 2 then Err(WrongWireType)
      else
        (match Length(s, at)
         case Err(e) => Err(e)
         case Ok((length, n)) => Ok((Bytes(s[n..n + length]), n + length)))
  }

  function SkipUnknown(s: seq<byte>, at: nat): (r: Result<nat, WireError>)
    ensures r.Ok? ==> 0 < r.value <= |s|
  {
    match SkipFrom(s, 0, 0)
    case Err(e) => Err(e)
    case Ok(n) =>
      if at + n >= INT64_LIMIT then Err(InvalidLength)
      else if n > |s| then Err(UnexpectedEof)
      else Ok(n)
  }

  /** The field number, the wire type and the length of the tag in front of `s`. */
  function ReadTag(s: seq<byte>): (r: Result<(int, nat, nat), WireError>)
    ensures r.Ok? ==> 0 < r.value.0 && r.value.1 != 4 && 0 < r.value.2 <= |s|
  {
    match Decode(s)
    case Err(e) => Err(e)
    case Ok((wire, k)) =>
      if wire % 8 == 4 then Err(EndGroupForNonGroup)
      else if Int32(wire / 8) <= 0 then Err(IllegalTag)
      else Ok((Int32(wire / 8), wire % 8, k))
  }

  /** One round of `Unmarshal`: the message and the number of bytes read. */
  function Step<M>(c: Schema<M>, m: M, s: seq<byte>, at: nat): (r: Result<(M, nat), WireError>)
    ensures r.Ok? ==> 0 < r.value.1 <= |s|
  {
    match ReadTag(s)
    case Err(e) => Err(e)
    case Ok((number, wireType, k)) =>
      if c.kind(number) == Unknown then
        match SkipUnknown(s, at)
        case Err(e) => Err(e)
        case Ok(n) => Ok((m, n))
      else
        match ReadPayload(c.kind(number), wireType, s[k..], at + k)
        case Err(e) => Err(e)
        case Ok((payload, n)) =>
          match c.put(m, number, payload)
          case Err(e) => Err(e)
          case Ok(m') => Ok((m', k + n))
  }

  /** `Unmarshal` on the bytes of a message from index `at` on, into a message `m`. */
  function Parse<M>(c: Schema<M>, m: M, s: seq<byte>, at: nat): Result<M, WireError>
    decreases |s|
  {
    if s == [] then Ok(m)
    else
      match Step(c, m, s, at)
      case Err(e) => Err(e)
      case Ok((m', n)) => Parse(c, m', s[n..], at + n)
  }

  // ---- Concatenation is merging ----

  lemma ReadPayloadExtend(kind: Kind, wireType: nat, s: seq<byte>, t: seq<byte>, at: nat)
    requires kind != Unknown && ReadPayload(kind, wireType, s, at).Ok?
    ensures ReadPayload(kind, wireType, s + t, at) == ReadPayload(kind, wireType, s, at)
  {
    hide Raw;
    DecodeExtend(s, t);
    if kind == BytesKind {
      var (length, n) := Length(s, at).value;
      assert (s + t)[n..n + length] == s[n..n + length];
    }
  }

  lemma StepExtend<M>(c: Schema<M>, m: M, s: seq<byte>, t: seq<byte>, at: nat)
    requires Step(c, m, s, at).Ok?
    ensures Step(c, m, s + t, at) == Step(c, m, s, at)
  {
    hide Raw, ReadPayload, SkipFrom, Int32;
    DecodeExtend(s, t);
    var (number, wireType, k) := ReadTag(s).value;
    if c.kind(number) == Unknown {
      SkipExtend(s, t, 0, 0);
    } else {
      assert (s + t)[k..] == s[k..] + t;
      ReadPayloadExtend(c.kind(number), wireType, s[k..], t, at + k);
    }
  }

  /** Reading two messages one after the other reads them into one. */
  lemma {:induction false} ParseConcat<M>(c: Schema<M>, m: M, s: seq<byte>, t: seq<byte>, at: nat)
    requires Parse(c, m, s, at).Ok?
    ensures Parse(c, m, s + t, at) == Parse(c, Parse(c, m, s, at).value, t, at + |s|)
    decreases |s|
  {
    hide Step;
    if s == [] {
      assert s + t == t;
    } else {
      var (m', n) := Step(c, m, s, at).value;
      StepExtend(c, m, s, t, at);
      assert (s + t)[n..] == s[n..] + t;
      ParseConcat(c, m', s[n..], t, at + n);
    }
  }

  // ---- Unknown fields are ignored ----

  /** The field number a reader sees in a well-formed field. */
  function FieldNumber(f: Field): int
    requires WellFormed(f)
  {
    Int32(Decode(f.tag).value.0 / 8)
  }

  predicate Ignored<M>(c: Schema<M>, f: Field) {
    WellFormed(f) && FieldNumber(f) > 0 && c.kind(FieldNumber(f)) == Unknown
  }

  lemma {:induction false} TagInFront(f: Field, rest: seq<byte>)
    requires WellFormed(f)
    ensures Decode(f.tag).Ok? && Decode(f.tag).value.0 % 8 != 4
    ensures Decode(FieldBytes(f) + rest) == Decode(f.tag)
    ensures FieldBytes(f) != []
  {
    hide Decode;
    var payload := FieldBytes(f)[|f.tag|..];
    assert FieldBytes(f) == f.tag + payload;
    assert FieldBytes(f) + rest == f.tag + (payload + rest);
    DecodeExtend(f.tag, payload + rest);
  }

  lemma {:induction false} UnknownInFront<M>(c: Schema<M>, m: M, f: Field, rest: seq<byte>, at: nat)
    requires Ignored(c, f) && at + |FieldBytes(f)| < INT64_LIMIT
    ensures Parse(c, m, FieldBytes(f) + rest, at) == Parse(c, m, rest, at + |FieldBytes(f)|)
  {
    hide ReadTag, SkipUnknown, FieldBytes, WellFormed, FieldNumber;
    UnknownTag(f, rest);
    UnknownSkipped(f, rest, at);
    assert (FieldBytes(f) + rest)[|FieldBytes(f)|..] == rest;
  }

  lemma {:induction false} UnknownTag(f: Field, rest: seq<byte>)
    requires WellFormed(f) && FieldNumber(f) > 0
    ensures var tag := ReadTag(FieldBytes(f) + rest);
            tag.Ok? && tag.value.0 == FieldNumber(f)
  {
    hide Decode, FieldBytes, WellFormed, Int32;
    TagInFront(f, rest);
  }

  lemma {:induction false} UnknownSkipped(f: Field, rest: seq<byte>, at: nat)
    requires WellFormed(f) && at + |FieldBytes(f)| < INT64_LIMIT
    ensures FieldBytes(f) != [] && SkipUnknown(FieldBytes(f) + rest, at) == Ok(|FieldBytes(f)|)
  {
    hide Decode, FieldBytes, WellFormed, SkipFrom;
    TagInFront(f, rest);
    SkipOne(f, rest, 0, 0);
  }

  /** The same message, or an error in both; an error is the same up to how a bad length is reported. */
  predicate Agree<M(==)>(r: Result<M, WireError>, r': Result<M, WireError>) {
    r == r' || (r.Err? && r'.Err?)
  }

  lemma StepAnywhere<M>(c: Schema<M>, m: M, s: seq<byte>, at: nat, at': nat)
    requires at + |s| < INT64_LIMIT && at' + |s| < INT64_LIMIT
    ensures Agree(Step(c, m, s, at), Step(c, m, s, at'))
  {
    hide Decode, SkipFrom, Int32;
  }

  lemma {:induction false} ParseAnywhere<M>(c: Schema<M>, m: M, s: seq<byte>, at: nat, at': nat)
    requires at + |s| < INT64_LIMIT && at' + |s| < INT64_LIMIT
    ensures Agree(Parse(c, m, s, at), Parse(c, m, s, at'))
    decreases |s|
  {
    hide Step;
    if s != [] {
      StepAnywhere(c, m, s, at, at');
      if Step(c, m, s, at).Ok? {
        var (m', n) := Step(c, m, s, at).value;
        ParseAnywhere(c, m', s[n..], at + n, at' + n);
      }
    }
  }

  // ---- What a round does, from the bytes ----

  /** A field number is the 32-bit two's complement number congruent to the number of the tag. */
  lemma Int32Iff(x: nat, y: int)
    ensures Int32(x) == y <==> -0x8000_0000 <= y < 0x8000_0000 && (x - y) % 0x1_0000_0000 == 0
  {
    var q, low := x / 0x1_0000_0000, x % 0x1_0000_0000;
    assert x == q * 0x1_0000_0000 + low;
    var k := (x - y) / 0x1_0000_0000;
    assert x - y == k * 0x1_0000_0000 + (x - y) % 0x1_0000_0000;
  }

  /** The tags that are refused: the end of a group, a number that is not positive, a wire type that does not fit. */
  lemma StepRefuses<M>(c: Schema<M>, m: M, tag: seq<byte>, rest: seq<byte>, at: nat)
    requires IsVarint(tag)
    ensures var wire := Decode(tag).value.0;
            var number, wireType, r := Int32(wire / 8), wire % 8, Step(c, m, tag + rest, at);
            && (wireType == 4 ==> r == Err(EndGroupForNonGroup))
            && (wireType != 4 && number <= 0 ==> r == Err(IllegalTag))
            && (number > 0 && c.kind(number) == NumberKind && wireType !in {0, 4} ==> r == Err(WrongWireType))
            && (number > 0 && c.kind(number) == BytesKind && wireType !in {2, 4} ==> r == Err(WrongWireType))
  {
    hide Decode, Int32, SkipFrom;
    DecodeVarintIn(tag, rest);
  }

  /** A length is invalid if it or the index behind it does not fit 63 bits, and else has to be there. */
  lemma LengthErrors(length: seq<byte>, rest: seq<byte>, at: nat)
    requires IsVarint(length)
    ensures var v, r := Decode(length).value.0, Length(length + rest, at);
            && (r == Err(InvalidLength) <==> at + |length| + v >= 0x8000_0000_0000_0000)
            && (r == Err(UnexpectedEof) <==> at + |length| + v < 0x8000_0000_0000_0000 && |rest| < v)
            && (r.Ok? <==> at + |length| + v < 0x8000_0000_0000_0000 && v <= |rest|)
  {
    hide Decode;
    DecodeVarintIn(length, rest);
  }

  /** A length that is refused fails the message. */
  lemma StepBadLength<M>(c: Schema<M>, m: M, tag: seq<byte>, length: seq<byte>, rest: seq<byte>, at: nat)
    requires IsVarint(tag) && IsVarint(length) && Decode(tag).value.0 % 8 == 2
    ensures var number, v := Int32(Decode(tag).value.0 / 8), Decode(length).value.0;
            var r, end := Step(c, m, tag + (length + rest), at), at + |tag| + |length| + v;
            number > 0 && c.kind(number) == BytesKind ==>
              && (end >= 0x8000_0000_0000_0000 ==> r == Err(InvalidLength))
              && (end < 0x8000_0000_0000_0000 && |rest| < v ==> r == Err(UnexpectedEof))
  {
    hide Decode, Int32, SkipFrom;
    DecodeVarintIn(tag, length + rest);
    LengthErrors(length, rest, at + |tag|);
  }

  /** A number or a length-delimited field is put into the message, however long its varints are. */
  lemma StepPuts<M>(c: Schema<M>, m: M, tag: seq<byte>, v: seq<byte>, b: seq<byte>, rest: seq<byte>, at: nat)
    requires IsVarint(tag) && IsVarint(v)
    ensures var wire, value := Decode(tag).value.0, Decode(v).value.0;
            var number := Int32(wire / 8);
            && (number > 0 && c.kind(number) == NumberKind && wire % 8 == 0 ==>
                  Step(c, m, tag + (v + rest), at) ==
                  match c.put(m, number, Number(value))
                  case Err(e) => Err(e)
                  case Ok(m') => Ok((m', |tag| + |v|)))
            && (number > 0 && c.kind(number) == BytesKind && wire % 8 == 2
                && value == |b| && at + |tag| + |v| + |b| < INT64_LIMIT ==>
                  Step(c, m, tag + (v + (b + rest)), at) ==
                  match c.put(m, number, Bytes(b))
                  case Err(e) => Err(e)
                  case Ok(m') => Ok((m', |tag| + |v| + |b|)))
  {
    hide Decode, Int32, SkipFrom;
    DecodeVarintIn(tag, v + rest);
    DecodeVarintIn(v, rest);
    DecodeVarintIn(tag, v + (b + rest));
    DecodeVarintIn(v, b + rest);
    assert (v + (b + rest))[|v|..|v| + |b|] == b;
  }

  // ---- When an error is reported in the same way ----

  /** How far a round would move past the bytes that are left, if a length makes it. */
  function Overrun<M>(c: Schema<M>, s: seq<byte>): (end: Option<nat>)
    ensures end.Some? ==> |s| < end.value
  {
    match ReadTag(s)
    case Err(_) => None
    case Ok((number, wireType, k)) =>
      match c.kind(number)
      case Unknown =>
        (match SkipFrom(s, 0, 0)
         case Err(_) => None
         case Ok(n) => if n > |s| then Some(n) else None)
      case NumberKind => None
      case BytesKind =>
        if wireType != 2 then None
        else
          match Decode(s[k..])
          case Err(_) => None
          case Ok((length, n)) =>
            if length < INT64_LIMIT && k + n + length > |s| then Some(k + n + length) else None
  }

  /** A length past the end is an unexpected end, or an invalid length if the index does not fit 63 bits. */
  lemma StepOverrun<M>(c: Schema<M>, m: M, s: seq<byte>, at: nat)
    requires at + |s| < INT64_LIMIT && Overrun(c, s).Some?
    ensures Step(c, m, s, at) == Err(if at + Overrun(c, s).value >= INT64_LIMIT then InvalidLength else UnexpectedEof)
  {
    hide Decode, SkipFrom, Int32;
  }

  lemma StepNoOverrun<M>(c: Schema<M>, m: M, s: seq<byte>, at: nat, at': nat)
    requires at + |s| < INT64_LIMIT && at' + |s| < INT64_LIMIT && Overrun(c, s).None?
    ensures Step(c, m, s, at) == Step(c, m, s, at')
  {
    hide Decode, SkipFrom, Int32;
  }

  /** How far past the end of `s` the failing round of `Parse` would move, if a length makes it. */
  function FailingEnd<M>(c: Schema<M>, m: M, s: seq<byte>): Option<nat>
    decreases |s|
  {
    if s == [] then None
    else if Overrun(c, s).Some? then Overrun(c, s)
    else
      match Step(c, m, s, 0)
      case Err(_) => None
      case Ok((m', n)) =>
        match FailingEnd(c, m', s[n..])
        case None => None
        case Some(end) => Some(n + end)
  }

  /** Where the bytes stand only matters to an error about a length that just one of the positions can index. */
  lemma {:induction false} ParseAnywhereIff<M>(c: Schema<M>, m: M, s: seq<byte>, at: nat, at': nat)
    requires at + |s| < INT64_LIMIT && at' + |s| < INT64_LIMIT
    ensures Parse(c, m, s, at) == Parse(c, m, s, at') <==>
            match FailingEnd(c, m, s)
            case None => true
            case Some(end) => at + end < INT64_LIMIT <==> at' + end < INT64_LIMIT
    decreases |s|
  {
    hide Step, Overrun;
    if s != [] {
      if Overrun(c, s).Some? {
        StepOverrun(c, m, s, at);
        StepOverrun(c, m, s, at');
      } else {
        StepNoOverrun(c, m, s, at, 0);
        StepNoOverrun(c, m, s, at', 0);
        if Step(c, m, s, 0).Ok? {
          var (m', n) := Step(c, m, s, 0).value;
          ParseAnywhereIff(c, m', s[n..], at + n, at' + n);
        }
      }
    }
  }

  lemma {:induction false} UnknownBetween<M>(c: Schema<M>, m: M, front: seq<byte>, f: Field, back: seq<byte>)
    requires Parse(c, m, front, 0).Ok? && Ignored(c, f)
    requires |front| + |FieldBytes(f)| < INT64_LIMIT
    ensures Parse(c, m, front + (FieldBytes(f) + back), 0)
            == Parse(c, Parse(c, m, front, 0).value, back, |front| + |FieldBytes(f)|)
  {
    hide Parse, Ignored, FieldBytes;
    ParseConcat(c, m, front, FieldBytes(f) + back, 0);
    UnknownInFront(c, Parse(c, m, front, 0).value, f, back, |front|);
  }

  /** An unknown field between two fields of a message changes nothing. */
  lemma {:induction false} UnknownIgnored<M>(c: Schema<M>, m: M, front: seq<byte>, f: Field, back: seq<byte>)
    requires Parse(c, m, front, 0).Ok? && Ignored(c, f)
    requires |front| + |FieldBytes(f)| + |back| < INT64_LIMIT
    ensures Agree(Parse(c, m, front + (FieldBytes(f) + back), 0), Parse(c, m, front + back, 0))
  {
    hide Parse, Ignored, FieldBytes, WellFormed, Agree;
    UnknownBetween(c, m, front, f, back);
    ParseConcat(c, m, front, back, 0);
    ParseAnywhere(c, Parse(c, m, front, 0).value, back, |front| + |FieldBytes(f)|, |front|);
  }

  /**
    The result is the very same exactly if no length behind the field would move the index past 63 bits
    only where the field is there.
    */
  lemma {:induction false} UnknownIgnoredIff<M>(c: Schema<M>, m: M, front: seq<byte>, f: Field, back: seq<byte>)
    requires Parse(c, m, front, 0).Ok? && Ignored(c, f)
    requires |front| + |FieldBytes(f)| + |back| < INT64_LIMIT
    ensures Parse(c, m, front + (FieldBytes(f) + back), 0) == Parse(c, m, front + back, 0) <==>
            match FailingEnd(c, Parse(c, m, front, 0).value, back)
            case None => true
            case Some(end) => !(|front| + end < INT64_LIMIT <= |front| + |FieldBytes(f)| + end)
  {
    hide Parse, FailingEnd, Ignored, FieldBytes;
    UnknownBetween(c, m, front, f, back);
    ParseConcat(c, m, front, back, 0);
    ParseAnywhereIff(c, Parse(c, m, front, 0).value, back, |front| + |FieldBytes(f)|, |front|);
  }

  // ---- Printing known fields ----

  datatype Known = Known(number: nat, payload: Payload)

  function Tag(number: nat, wireType: nat): seq<byte> {
    Encode(number * 8 + wireType)
  }

  function KnownBytes(f: Known): seq<byte> {
    match f.payload
    case Number(v) => Tag(f.number, 0) + Encode(v)
    case Bytes(b) => Tag(f.number, 2) + Encode(|b|) + b
  }

  function Print(fs: seq<Known>): seq<byte> {
    if fs == [] then [] else KnownBytes(fs[0]) + Print(fs[1..])
  }

  predicate Fits<M>(c: Schema<M>, f: Known) {
    && 0 < f.number < 0x2000_0000
    && c.kind(f.number) == if f.payload.Number? then NumberKind else BytesKind
  }

  /** The message after its fields are put one by one. */
  function PutAll<M>(c: Schema<M>, m: M, fs: seq<Known>): Result<M, WireError>
    decreases |fs|
  {
    if fs == [] then Ok(m)
    else
      match c.put(m, fs[0].number, fs[0].payload)
      case Err(e) => Err(e)
      case Ok(m') => PutAll(c, m', fs[1..])
  }

  lemma TagRead(number: nat, wireType: nat, rest: seq<byte>)
    requires 0 < number < 0x2000_0000 && wireType < 8 && wireType != 4
    ensures var tag := Tag(number, wireType);
            ReadTag(tag + rest) == Ok((number, wireType, |tag|)) && (tag + rest)[|tag|..] == rest
  {
    hide Decode, Encode;
    DecodeEncode(number * 8 + wireType, rest);
    assert (number * 8 + wireType) / 8 == number && (number * 8 + wireType) % 8 == wireType;
  }

  lemma PayloadRead(f: Known, rest: seq<byte>, at: nat)
    requires at + |KnownBytes(f)| < INT64_LIMIT
    ensures var (kind, wireType) := if f.payload.Number? then (NumberKind, 0) else (BytesKind, 2);
            var body := KnownBytes(f)[|Tag(f.number, wireType)|..];
            && KnownBytes(f) == Tag(f.number, wireType) + body
            && ReadPayload(kind, wireType, body + rest, at + |Tag(f.number, wireType)|) == Ok((f.payload, |body|))
  {
    hide Decode, Encode, Tag, Length;
    match f.payload {
      case Number(v) =>
        DecodeEncode(v, rest);
        assert KnownBytes(f)[|Tag(f.number, 0)|..] == Encode(v);
      case Bytes(b) =>
        var tag, length := Tag(f.number, 2), Encode(|b|);
        Associative(tag, length, b);
        assert KnownBytes(f)[|tag|..] == length + b;
        LengthRead(b, rest, at + |tag|);
    }
  }

  lemma {:induction false} LengthRead(b: seq<byte>, rest: seq<byte>, at: nat)
    requires at + |Encode(|b|)| + |b| < INT64_LIMIT
    ensures var length := Encode(|b|);
            && Length(length + b + rest, at) == Ok((|b|, |length|))
            && (length + b + rest)[|length|..|length| + |b|] == b
  {
    hide Decode, Encode;
    var length := Encode(|b|);
    DecodeEncode(|b|, b + rest);
    Associative(length, b, rest);
  }

  lemma KnownSplit(f: Known, rest: seq<byte>, at: nat) returns (tag: seq<byte>, body: seq<byte>)
    requires 0 < f.number < 0x2000_0000 && at + |KnownBytes(f)| < INT64_LIMIT
    ensures KnownBytes(f) == tag + body && tag != []
    ensures var s, wireType := KnownBytes(f) + rest, if f.payload.Number? then 0 else 2;
            && ReadTag(s) == Ok((f.number, wireType, |tag|))
            && s[|tag|..] == body + rest
            && ReadPayload(if f.payload.Number? then NumberKind else BytesKind, wireType, body + rest, at + |tag|)
               == Ok((f.payload, |body|))
  {
    hide ReadTag, Encode, ReadPayload, KnownBytes;
    var wireType := if f.payload.Number? then 0 else 2;
    PayloadRead(f, rest, at);
    tag := Tag(f.number, wireType);
    body := KnownBytes(f)[|tag|..];
    TagRead(f.number, wireType, body + rest);
    assert KnownBytes(f) + rest == tag + (body + rest);
  }

  lemma KnownStep<M>(c: Schema<M>, m: M, f: Known, rest: seq<byte>, at: nat)
    requires Fits(c, f) && at + |KnownBytes(f)| < INT64_LIMIT
    ensures KnownBytes(f) != []
    ensures Step(c, m, KnownBytes(f) + rest, at) ==
            match c.put(m, f.number, f.payload)
            case Err(e) => Err(e)
            case Ok(m') => Ok((m', |KnownBytes(f)|))
  {
    hide ReadTag, KnownBytes, ReadPayload, SkipUnknown;
    var tag, body := KnownSplit(f, rest, at);
  }

  /** What is printed from fields is read back as those fields, in order. */
  lemma {:induction false} ParsePrint<M>(c: Schema<M>, m: M, fs: seq<Known>, at: nat)
    requires forall f :: f in fs ==> Fits(c, f)
    requires at + |Print(fs)| < INT64_LIMIT
    ensures Parse(c, m, Print(fs), at) == PutAll(c, m, fs)
    decreases |fs|
  {
    hide Step, KnownBytes;
    if fs != [] {
      var f, rest := fs[0], fs[1..];
      KnownStep(c, m, f, Print(rest), at);
      assert Print(fs) == KnownBytes(f) + Print(rest);
      assert Print(fs)[|KnownBytes(f)|..] == Print(rest);
      match c.put(m, f.number, f.payload)
      case Err(_) =>
      case Ok(m') => ParsePrint(c, m', rest, at + |KnownBytes(f)|);
    }
  }

  lemma {:induction false} PrintFour(f: seq<Known>, g: seq<Known>, h: seq<Known>, k: seq<Known>, tail: seq<byte>)
    ensures Print(f + (g + (h + k))) + tail == Print(f) + (Print(g) + (Print(h) + (Print(k) + tail)))
  {
    hide Print;
    PrintConcat(f, g + (h + k));
    PrintConcat(g, h + k);
    PrintConcat(h, k);
  }

  /** A scalar field that is left out is one that would change nothing. */
  lemma {:induction false} PutScalar<M>(c: Schema<M>, m: M, number: nat, v: uint64, b: seq<byte>)
    ensures PutAll(c, m, NumberField(number, v)) == if v == 0 then Ok(m) else c.put(m, number, Number(v))
    ensures PutAll(c, m, BytesField(number, b)) == if b == [] then Ok(m) else c.put(m, number, Bytes(b))
  {
  }

  lemma {:induction false} PrintConcat(fs: seq<Known>, gs: seq<Known>)
    ensures Print(fs + gs) == Print(fs) + Print(gs)
  {
    if fs == [] {
      assert fs + gs == gs;
    } else {
      assert (fs + gs)[1..] == fs[1..] + gs;
      PrintConcat(fs[1..], gs);
    }
  }

  lemma {:induction false} PutAllConcat<M>(c: Schema<M>, m: M, fs: seq<Known>, gs: seq<Known>)
    requires PutAll(c, m, fs).Ok?
    ensures PutAll(c, m, fs + gs) == PutAll(c, PutAll(c, m, fs).value, gs)
    decreases |fs|
  {
    if fs == [] {
      assert fs + gs == gs;
    } else {
      assert (fs + gs)[1..] == fs[1..] + gs;
      PutAllConcat(c, c.put(m, fs[0].number, fs[0].payload).value, fs[1..], gs);
    }
  }

  // ---- The pieces of the reading loops ----

  method ReadTagAt(data: seq<byte>, start: nat) returns (r: Result<(int, nat, nat), WireError>)
    requires start <= |data|
    ensures r == match ReadTag(data[start..])
                 case Err(e) => Err(e)
                 case Ok((number, wireType, k)) => Ok((number, wireType, start + k))
  {
    hide Decode;
    var wire := ReadVarint(data, start);
    if wire.Err? {
      return Err(wire.error);
    }
    var number, wireType := Int32(wire.value.0 / 8), wire.value.0 % 8;
    if wireType == 4 {
      return Err(EndGroupForNonGroup);
    }
    if number <= 0 {
      return Err(IllegalTag);
    }
    return Ok((number, wireType, wire.value.1));
  }

  method ReadNumberField(data: seq<byte>, start: nat, wireType: nat) returns (r: Result<(uint64, nat), WireError>)
    requires start <= |data|
    ensures match ReadPayload(NumberKind, wireType, data[start..], start)
            case Err(e) => r == Err(e)
            case Ok((payload, n)) => r.Ok? && payload == Number(r.value.0) && r.value.1 == start + n
  {
    hide Decode;
    if wireType != 0 {
      return Err(WrongWireType);
    }
    r := ReadVarint(data, start);
  }

  method ReadBytesField(data: seq<byte>, start: nat, wireType: nat) returns (r: Result<(seq<byte>, nat), WireError>)
    requires start <= |data|
    ensures match ReadPayload(BytesKind, wireType, data[start..], start)
            case Err(e) => r == Err(e)
            case Ok((payload, n)) => r.Ok? && payload == Bytes(r.value.0) && r.value.1 == start + n
  {
    hide Decode;
    if wireType != 2 {
      return Err(WrongWireType);
    }
    var length := ReadVarint(data, start);
    if length.Err? {
      return Err(length.error);
    }
    var i := length.value.1;
    if length.value.0 >= INT64_LIMIT {
      return Err(InvalidLength);
    }
    var post := i + length.value.0;
    if post >= INT64_LIMIT {
      return Err(InvalidLength);
    }
    if post > |data| {
      return Err(UnexpectedEof);
    }
    assert data[start..][i - start..post - start] == data[i..post];
    return Ok((data[i..post], post));
  }

  method SkipUnknownAt(data: seq<byte>, start: nat) returns (r: Result<nat, WireError>)
    requires start <= |data|
    ensures r == match SkipUnknown(data[start..], start)
                 case Err(e) => Err(e)
                 case Ok(n) => Ok(start + n)
  {
    hide SkipFrom;
    var n := SkipField(data[start..]);
    if n.Err? {
      return Err(n.error);
    }
    if start + n.value >= INT64_LIMIT {
      return Err(InvalidLength);
    }
    if start + n.value > |data| {
      return Err(UnexpectedEof);
    }
    return Ok(start + n.value);
  }

  // ---- The pieces of the backward filling ----

  /** A scalar field is left out when it has its default value. */
  function NumberField(number: nat, v: uint64): seq<Known> {
    if v == 0 then [] else [Known(number, Number(v))]
  }

  function BytesField(number: nat, b: seq<byte>): seq<Known> {
    if b == [] then [] else [Known(number, Bytes(b))]
  }

  function NumberSize(v: uint64): nat {
    if v != 0 then 1 + Size(v) else 0
  }

  function MessageSize(length: nat): nat {
    1 + length + Size(length)
  }

  function BytesSize(b: seq<byte>): nat {
    if |b| > 0 then MessageSize(|b|) else 0
  }

  lemma KnownSize(f: Known)
    requires 0 < f.number < 16
    ensures |KnownBytes(f)| == match f.payload
                               case Number(v) => 1 + Size(v)
                               case Bytes(b) => MessageSize(|b|)
    ensures Tag(f.number, 0) == [f.number * 8] && Tag(f.number, 2) == [f.number * 8 + 2]
    ensures Print([f]) == KnownBytes(f)
  {
    match f.payload
    case Number(v) => SizeExact(v);
    case Bytes(b) => SizeExact(|b|);
  }

  lemma FieldSizes(number: nat, v: uint64, b: seq<byte>)
    requires 0 < number < 16
    ensures |Print(NumberField(number, v))| == NumberSize(v)
    ensures |Print(BytesField(number, b))| == BytesSize(b)
  {
    hide KnownBytes;
    KnownSize(Known(number, Number(v)));
    KnownSize(Known(number, Bytes(b)));
  }

  /** A number behind its tag byte, unless it is zero. */
  function NumberBehind(tag: byte, v: uint64): seq<byte> {
    if v == 0 then [] else [tag] + Encode(v)
  }

  /** Bytes behind their tag byte and their length. */
  function MessageBehind(tag: byte, b: seq<byte>): seq<byte> {
    [tag] + Encode(|b|) + b
  }

  function BytesBehind(tag: byte, b: seq<byte>): seq<byte> {
    if b == [] then [] else MessageBehind(tag, b)
  }

  /** What the fields are printed as, with their one byte of tag. */
  lemma FieldLayout(number: nat, v: uint64, b: seq<byte>)
    requires 0 < number < 16
    ensures Print(NumberField(number, v)) == NumberBehind(number * 8, v)
    ensures Print(BytesField(number, b)) == BytesBehind(number * 8 + 2, b)
    ensures KnownBytes(Known(number, Bytes(b))) == MessageBehind(number * 8 + 2, b)
  {
    hide Size, Encode;
    KnownSize(Known(number, Number(v)));
    KnownSize(Known(number, Bytes(b)));
  }

  /** What reading a scalar leaves in the field: the later value, unless it was left out. */
  function LaterNumber(v: uint64, later: uint64): uint64 {
    if later == 0 then v else later
  }

  function LaterBytes(b: seq<byte>, later: seq<byte>): seq<byte> {
    if later == [] then b else later
  }

  /** Chunks written in front of each other. */
  lemma OverwriteBefore(s: seq<byte>, i: nat, chunk: seq<byte>, tail: seq<byte>)
    requires |chunk| <= i && i + |tail| <= |s|
    ensures Overwrite(Overwrite(s, i, tail), i - |chunk|, chunk) == Overwrite(s, i - |chunk|, chunk + tail)
  {
  }

  /**
    Writes `bytes` so that they end in front of `i`. `before` is the buffer at the start of the
    message and `tail` what was written behind `i` since then.
    */
  method CopyBefore(a: array<byte>, i: nat, bytes: seq<byte>, ghost before: seq<byte>, ghost tail: seq<byte>)
    returns (j: nat)
    requires |bytes| <= i && i + |tail| <= a.Length && |before| == a.Length && a[..] == Overwrite(before, i, tail)
    modifies a
    ensures j + |bytes| == i && a[..] == Overwrite(before, j, bytes + tail)
  {
    j := i - |bytes|;
    forall k | 0 <= k < |bytes| {
      a[j + k] := bytes[k];
    }
    assert a[..] == Overwrite(old(a[..]), j, bytes);
    OverwriteBefore(before, i, bytes, tail);
  }

  method VarintBefore(a: array<byte>, i: nat, v: uint64, ghost before: seq<byte>, ghost tail: seq<byte>)
    returns (j: nat)
    requires Size(v) <= i && i + |tail| <= a.Length && |before| == a.Length && a[..] == Overwrite(before, i, tail)
    modifies a
    ensures j + |Encode(v)| == i && a[..] == Overwrite(before, j, Encode(v) + tail)
  {
    hide Encode;
    j := EncodeVarint(a, i, v);
    OverwriteBefore(before, i, Encode(v), tail);
  }

  method WriteNumber(a: array<byte>, i: nat, number: nat, v: uint64, ghost before: seq<byte>, ghost tail: seq<byte>)
    returns (j: nat, ghost more: seq<byte>)
    requires 0 < number < 16 && NumberSize(v) <= i
    requires i + |tail| <= a.Length && |before| == a.Length && a[..] == Overwrite(before, i, tail)
    modifies a
    ensures more == Print(NumberField(number, v)) + tail
    ensures j + NumberSize(v) == i && j + |more| == i + |tail| && a[..] == Overwrite(before, j, more)
  {
    hide Encode;
    FieldSizes(number, v, []);
    KnownSize(Known(number, Number(v)));
    j, more := i, tail;
    if v != 0 {
      SizeExact(v);
      j := VarintBefore(a, i, v, before, tail);
      j := CopyBefore(a, j, [number * 8], before, Encode(v) + tail);
      more := Print(NumberField(number, v)) + tail;
      assert more == [number * 8] + (Encode(v) + tail);
    }
  }

  /** Puts the length and the tag in front of the bytes of a field that stand at `i`. */
  method WritePrefix(a: array<byte>, i: nat, number: nat, ghost b: seq<byte>, length: nat,
                     ghost before: seq<byte>, ghost tail: seq<byte>)
    returns (j: nat, ghost more: seq<byte>)
    requires 0 < number < 16 && length == |b| < UINT64_LIMIT && 1 + Size(length) <= i
    requires i + length + |tail| <= a.Length && |before| == a.Length && a[..] == Overwrite(before, i, b + tail)
    modifies a
    ensures more == Print([Known(number, Bytes(b))]) + tail
    ensures j + 1 + Size(length) == i && j + |more| == i + length + |tail| && a[..] == Overwrite(before, j, more)
  {
    hide Encode;
    KnownSize(Known(number, Bytes(b)));
    SizeExact(length);
    j := VarintBefore(a, i, length, before, b + tail);
    j := CopyBefore(a, j, [number * 8 + 2], before, Encode(length) + (b + tail));
    more := Print([Known(number, Bytes(b))]) + tail;
    assert more == [number * 8 + 2] + (Encode(length) + (b + tail));
  }

  /** A length-delimited field that is always written. */
  method WriteMessage(a: array<byte>, i: nat, number: nat, b: seq<byte>, ghost before: seq<byte>, ghost tail: seq<byte>)
    returns (j: nat, ghost more: seq<byte>)
    requires 0 < number < 16 && MessageSize(|b|) <= i && |b| < UINT64_LIMIT
    requires i + |tail| <= a.Length && |before| == a.Length && a[..] == Overwrite(before, i, tail)
    modifies a
    ensures more == Print([Known(number, Bytes(b))]) + tail
    ensures j + MessageSize(|b|) == i && j + |more| == i + |tail| && a[..] == Overwrite(before, j, more)
  {
    hide Overwrite;
    j := CopyBefore(a, i, b, before, tail);
    j, more := WritePrefix(a, j, number, b, |b|, before, tail);
  }

  method WriteBytes(a: array<byte>, i: nat, number: nat, b: seq<byte>, ghost before: seq<byte>, ghost tail: seq<byte>)
    returns (j: nat, ghost more: seq<byte>)
    requires 0 < number < 16 && BytesSize(b) <= i && |b| < UINT64_LIMIT
    requires i + |tail| <= a.Length && |before| == a.Length && a[..] == Overwrite(before, i, tail)
    modifies a
    ensures more == Print(BytesField(number, b)) + tail
    ensures j + BytesSize(b) == i && j + |more| == i + |tail| && a[..] == Overwrite(before, j, more)
  {
    j, more := i, tail;
    if |b| > 0 {
      j, more := WriteMessage(a, i, number, b, before, tail);
    }
  }
}
