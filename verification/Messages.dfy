/**
  The messages `Derivation`, `ConsensusState` and `Header` of the generated code: the size, the
  backward filling, and the reading loop of each. Byte fields do not tell nil from empty.
  */
module Messages {
  import opened Integers
  import opened Wrappers
  import opened Varint
  import opened Skip
  import opened Wire

  // ---- Derivation ----

  datatype Derivation = Derivation(agreedL2OutputRoot: seq<byte>, l2OutputRoot: seq<byte>, l2BlockNumber: uint64)

  const EMPTY_DERIVATION := Derivation([], [], 0)

  function DerivationKind(number: int): Kind {
    match number
    case 1 => BytesKind
    case 2 => BytesKind
    case 3 => NumberKind
    case _ => Unknown
  }

  function PutDerivation(m: Derivation, number: int, p: Payload): Result<Derivation, WireError> {
    match (number, p)
    case (1, Bytes(b)) => Ok(m.(agreedL2OutputRoot := b))
    case (2, Bytes(b)) => Ok(m.(l2OutputRoot := b))
    case (3, Number(v)) => Ok(m.(l2BlockNumber := v))
    case _ => Ok(m)
  }

  const DERIVATION: Schema<Derivation> := Schema(DerivationKind, PutDerivation)

  function DerivationFields(m: Derivation): seq<Known> {
    BytesField(1, m.agreedL2OutputRoot) + (BytesField(2, m.l2OutputRoot) + NumberField(3, m.l2BlockNumber))
  }

  function DerivationSize(m: Derivation): nat {
    BytesSize(m.agreedL2OutputRoot) + BytesSize(m.l2OutputRoot) + NumberSize(m.l2BlockNumber)
  }

  function DerivationBytes(m: Derivation): seq<byte> {
    Print(DerivationFields(m))
  }

  /** The printed form is as long as `Size` says. */
  lemma DerivationSizeExact(m: Derivation)
    ensures |DerivationBytes(m)| == DerivationSize(m)
    ensures DerivationBytes(m) == Print(BytesField(1, m.agreedL2OutputRoot))
                                  + (Print(BytesField(2, m.l2OutputRoot))
                                     + (Print(NumberField(3, m.l2BlockNumber)) + []))
  {
    hide Print, BytesField, NumberField, BytesSize, NumberSize;
    PrintConcat(BytesField(1, m.agreedL2OutputRoot), BytesField(2, m.l2OutputRoot) + NumberField(3, m.l2BlockNumber));
    PrintConcat(BytesField(2, m.l2OutputRoot), NumberField(3, m.l2BlockNumber));
    FieldSizes(1, 0, m.agreedL2OutputRoot);
    FieldSizes(2, 0, m.l2OutputRoot);
    FieldSizes(3, m.l2BlockNumber, []);
  }

  /** The bytes of a derivation. */
  lemma DerivationLayout(m: Derivation)
    ensures DerivationBytes(m) == BytesBehind(0x0a, m.agreedL2OutputRoot) + BytesBehind(0x12, m.l2OutputRoot)
                                  + NumberBehind(0x18, m.l2BlockNumber)
  {
    DerivationSizeExact(m);
    hide Print, BytesBehind, NumberBehind, BytesField, NumberField;
    FieldLayout(1, 0, m.agreedL2OutputRoot);
    FieldLayout(2, 0, m.l2OutputRoot);
    FieldLayout(3, m.l2BlockNumber, []);
  }

  /** A derivation read into another replaces the fields that were printed. */
  lemma {:induction false} DerivationMerge(m0: Derivation, m: Derivation, at: nat)
    requires at + DerivationSize(m) < INT64_LIMIT
    ensures Parse(DERIVATION, m0, DerivationBytes(m), at)
            == Ok(Derivation(LaterBytes(m0.agreedL2OutputRoot, m.agreedL2OutputRoot),
                             LaterBytes(m0.l2OutputRoot, m.l2OutputRoot),
                             LaterNumber(m0.l2BlockNumber, m.l2BlockNumber)))
  {
    hide Print, Parse;
    DerivationSizeExact(m);
    ParsePrint(DERIVATION, m0, DerivationFields(m), at);
    var m1 := m0.(agreedL2OutputRoot := LaterBytes(m0.agreedL2OutputRoot, m.agreedL2OutputRoot));
    var m2 := m1.(l2OutputRoot := LaterBytes(m0.l2OutputRoot, m.l2OutputRoot));
    var m3 := m2.(l2BlockNumber := LaterNumber(m0.l2BlockNumber, m.l2BlockNumber));
    var f2, f3 := BytesField(2, m.l2OutputRoot), NumberField(3, m.l2BlockNumber);
    PutAllConcat(DERIVATION, m0, BytesField(1, m.agreedL2OutputRoot), f2 + f3);
    PutAllConcat(DERIVATION, m1, f2, f3);
    assert PutAll(DERIVATION, m2, f3) == Ok(m3);
  }

  /** Every derivation is read back from what it is printed as. */
  lemma DerivationRoundTrip(m: Derivation)
    requires DerivationSize(m) < INT64_LIMIT
    ensures Parse(DERIVATION, EMPTY_DERIVATION, DerivationBytes(m), 0) == Ok(m)
  {
    hide Parse, DerivationBytes, DerivationSize;
    DerivationMerge(EMPTY_DERIVATION, m, 0);
  }

  /** The fields that are skipped, and the wire types that are refused. */
  lemma {:induction false} DerivationNumbers(m: Derivation, f: Field, tag: seq<byte>, rest: seq<byte>, at: nat)
    requires IsVarint(tag)
    ensures Ignored(DERIVATION, f) <==> WellFormed(f) && FieldNumber(f) > 3
    ensures var number, wireType := Int32(Decode(tag).value.0 / 8), Decode(tag).value.0 % 8;
            (number in {1, 2} && wireType !in {2, 4}) || (number == 3 && wireType !in {0, 4}) ==>
              Parse(DERIVATION, m, tag + rest, at) == Err(WrongWireType)
  {
    hide Decode, Int32, Step;
    StepRefuses(DERIVATION, m, tag, rest, at);
  }

  class DerivationMessage {
    var agreedL2OutputRoot: seq<byte>
    var l2OutputRoot: seq<byte>
    var l2BlockNumber: uint64

    constructor ()
      ensures Value() == EMPTY_DERIVATION
    {
      agreedL2OutputRoot, l2OutputRoot, l2BlockNumber := [], [], 0;
    }

    function Value(): Derivation
      reads this
    {
      Derivation(agreedL2OutputRoot, l2OutputRoot, l2BlockNumber)
    }

    /** Fills the buffer backwards from `end` and returns the number of bytes written. */
    method MarshalToSizedBuffer(a: array<byte>, end: nat) returns (n: nat)
      requires DerivationSize(Value()) <= end <= a.Length < UINT64_LIMIT
      modifies a
      ensures n == DerivationSize(Value()) == |DerivationBytes(Value())|
      ensures a[..] == Overwrite(old(a[..]), end - n, DerivationBytes(Value()))
    {
      hide Print, NumberField, BytesField;
      ghost var before, tail: seq<byte> := a[..], [];
      var i := end;
      i, tail := WriteNumber(a, i, 3, l2BlockNumber, before, tail);
      i, tail := WriteBytes(a, i, 2, l2OutputRoot, before, tail);
      i, tail := WriteBytes(a, i, 1, agreedL2OutputRoot, before, tail);
      DerivationSizeExact(Value());
      return end - i;
    }

    method Marshal() returns (a: array<byte>)
      requires DerivationSize(Value()) < INT64_LIMIT
      ensures a[..] == DerivationBytes(Value())
    {
      hide DerivationSize, DerivationBytes;
      a := new byte[DerivationSize(Value())];
      var n := MarshalToSizedBuffer(a, a.Length);
    }

    /** One field, read from index `start` on: the index after it, or an error. */
    method UnmarshalField(data: seq<byte>, start: nat) returns (r: Result<nat, WireError>)
      requires start < |data|
      modifies this
      ensures match r
              case Ok(i) =>
                && start < i <= |data|
                && Step(DERIVATION, old(Value()), data[start..], start) == Ok((Value(), i - start))
              case Err(e) => Step(DERIVATION, old(Value()), data[start..], start) == Err(e)
    {
      hide ReadTag, ReadPayload, SkipUnknown;
      var tag := ReadTagAt(data, start);
      if tag.Err? {
        return Err(tag.error);
      }
      var (number, wireType, i) := tag.value;
      assert data[start..][i - start..] == data[i..];
      if number == 1 {
        var field := ReadBytesField(data, i, wireType);
        if field.Err? {
          return Err(field.error);
        }
        agreedL2OutputRoot := field.value.0;
        return Ok(field.value.1);
      } else if number == 2 {
        var field := ReadBytesField(data, i, wireType);
        if field.Err? {
          return Err(field.error);
        }
        l2OutputRoot := field.value.0;
        return Ok(field.value.1);
      } else if number == 3 {
        var field := ReadNumberField(data, i, wireType);
        if field.Err? {
          return Err(field.error);
        }
        l2BlockNumber := field.value.0;
        return Ok(field.value.1);
      } else {
        r := SkipUnknownAt(data, start);
      }
    }

    method Unmarshal(data: seq<byte>) returns (err: Option<WireError>)
      modifies this
      ensures match err
              case None => Parse(DERIVATION, old(Value()), data, 0) == Ok(Value())
              case Some(e) => Parse(DERIVATION, old(Value()), data, 0) == Err(e)
    {
      hide Step;
      var i := 0;
      while i < |data|
        invariant i <= |data|
        invariant Parse(DERIVATION, Value(), data[i..], i) == Parse(DERIVATION, old(Value()), data, 0)
      {
        var next := UnmarshalField(data, i);
        if next.Err? {
          return Some(next.error);
        }
        assert data[i..][next.value - i..] == data[next.value..];
        i := next.value;
      }
      return None;
    }
  }

  // ---- ConsensusState ----

  datatype ConsensusState = ConsensusState(
    storageRoot: seq<byte>,
    timestamp: uint64,
    outputRoot: seq<byte>,
    l1Slot: uint64,
    l1CurrentSyncCommittee: seq<byte>,
    l1NextSyncCommittee: seq<byte>,
    l1Timestamp: uint64,
    l1Origin: uint64)

  const EMPTY_CONSENSUS_STATE := ConsensusState([], 0, [], 0, [], [], 0, 0)

  function ConsensusStateKind(number: int): Kind {
    if number in {1, 3, 5, 6} then BytesKind else if number in {2, 4, 7, 8} then NumberKind else Unknown
  }

  function PutConsensusState(m: ConsensusState, number: int, p: Payload): Result<ConsensusState, WireError> {
    match (number, p)
    case (1, Bytes(b)) => Ok(m.(storageRoot := b))
    case (2, Number(v)) => Ok(m.(timestamp := v))
    case (3, Bytes(b)) => Ok(m.(outputRoot := b))
    case (4, Number(v)) => Ok(m.(l1Slot := v))
    case (5, Bytes(b)) => Ok(m.(l1CurrentSyncCommittee := b))
    case (6, Bytes(b)) => Ok(m.(l1NextSyncCommittee := b))
    case (7, Number(v)) => Ok(m.(l1Timestamp := v))
    case (8, Number(v)) => Ok(m.(l1Origin := v))
    case _ => Ok(m)
  }

  const CONSENSUS_STATE: Schema<ConsensusState> := Schema(ConsensusStateKind, PutConsensusState)

  function ConsensusStateFront(m: ConsensusState): seq<Known> {
    BytesField(1, m.storageRoot)
    + (NumberField(2, m.timestamp) + (BytesField(3, m.outputRoot) + NumberField(4, m.l1Slot)))
  }

  function ConsensusStateBack(m: ConsensusState): seq<Known> {
    BytesField(5, m.l1CurrentSyncCommittee)
    + (BytesField(6, m.l1NextSyncCommittee) + (NumberField(7, m.l1Timestamp) + NumberField(8, m.l1Origin)))
  }

  function FrontSize(m: ConsensusState): nat {
    BytesSize(m.storageRoot) + NumberSize(m.timestamp) + BytesSize(m.outputRoot) + NumberSize(m.l1Slot)
  }

  function BackSize(m: ConsensusState): nat {
    BytesSize(m.l1CurrentSyncCommittee) + BytesSize(m.l1NextSyncCommittee)
    + NumberSize(m.l1Timestamp) + NumberSize(m.l1Origin)
  }

  function ConsensusStateSize(m: ConsensusState): nat {
    FrontSize(m) + BackSize(m)
  }

  function ConsensusStateBytes(m: ConsensusState): seq<byte> {
    Print(ConsensusStateFront(m) + ConsensusStateBack(m))
  }

  lemma FrontBytes(m: ConsensusState, tail: seq<byte>)
    ensures Print(ConsensusStateFront(m)) + tail
            == Print(BytesField(1, m.storageRoot))
               + (Print(NumberField(2, m.timestamp))
               + (Print(BytesField(3, m.outputRoot))
               + (Print(NumberField(4, m.l1Slot))
               + tail)))
    ensures |Print(ConsensusStateFront(m))| == FrontSize(m)
  {
    hide Print, BytesField, NumberField, BytesSize, NumberSize;
    var f, g := BytesField(1, m.storageRoot), NumberField(2, m.timestamp);
    var h, k := BytesField(3, m.outputRoot), NumberField(4, m.l1Slot);
    PrintConcat(f, g + (h + k));
    PrintConcat(g, h + k);
    PrintConcat(h, k);
    FieldSizes(1, 0, m.storageRoot);
    FieldSizes(2, m.timestamp, []);
    FieldSizes(3, 0, m.outputRoot);
    FieldSizes(4, m.l1Slot, []);
  }

  lemma BackBytes(m: ConsensusState, tail: seq<byte>)
    ensures Print(ConsensusStateBack(m)) + tail
            == Print(BytesField(5, m.l1CurrentSyncCommittee))
               + (Print(BytesField(6, m.l1NextSyncCommittee))
               + (Print(NumberField(7, m.l1Timestamp))
               + (Print(NumberField(8, m.l1Origin))
               + tail)))
    ensures |Print(ConsensusStateBack(m))| == BackSize(m)
  {
    hide Print, BytesField, NumberField, BytesSize, NumberSize;
    var f, g := BytesField(5, m.l1CurrentSyncCommittee), BytesField(6, m.l1NextSyncCommittee);
    var h, k := NumberField(7, m.l1Timestamp), NumberField(8, m.l1Origin);
    PrintConcat(f, g + (h + k));
    PrintConcat(g, h + k);
    PrintConcat(h, k);
    FieldSizes(5, 0, m.l1CurrentSyncCommittee);
    FieldSizes(6, 0, m.l1NextSyncCommittee);
    FieldSizes(7, m.l1Timestamp, []);
    FieldSizes(8, m.l1Origin, []);
  }

  lemma ConsensusStateSizeExact(m: ConsensusState)
    ensures |ConsensusStateBytes(m)| == ConsensusStateSize(m)
    ensures ConsensusStateBytes(m) == Print(ConsensusStateFront(m)) + (Print(ConsensusStateBack(m)) + [])
    ensures |Print(ConsensusStateBack(m))| == BackSize(m)
  {
    hide Print, ConsensusStateFront, ConsensusStateBack, FrontSize, BackSize;
    PrintConcat(ConsensusStateFront(m), ConsensusStateBack(m));
    FrontBytes(m, []);
    BackBytes(m, []);
  }

  lemma {:induction false} PutFour<M>(c: Schema<M>, m: M, f: seq<Known>, g: seq<Known>, h: seq<Known>, k: seq<Known>)
    requires PutAll(c, m, f).Ok? && PutAll(c, PutAll(c, m, f).value, g).Ok?
    requires PutAll(c, PutAll(c, PutAll(c, m, f).value, g).value, h).Ok?
    ensures PutAll(c, m, f + (g + (h + k)))
            == PutAll(c, PutAll(c, PutAll(c, PutAll(c, m, f).value, g).value, h).value, k)
  {
    hide PutAll;
    var m1 := PutAll(c, m, f).value;
    var m2 := PutAll(c, m1, g).value;
    PutAllConcat(c, m, f, g + (h + k));
    PutAllConcat(c, m1, g, h + k);
    PutAllConcat(c, m2, h, k);
  }

  /** `m0` with the printed fields among the first four of `m`. */
  function FrontMerged(m0: ConsensusState, m: ConsensusState): ConsensusState {
    m0.(storageRoot := LaterBytes(m0.storageRoot, m.storageRoot),
        timestamp := LaterNumber(m0.timestamp, m.timestamp),
        outputRoot := LaterBytes(m0.outputRoot, m.outputRoot),
        l1Slot := LaterNumber(m0.l1Slot, m.l1Slot))
  }

  lemma {:induction false} FrontPut(m0: ConsensusState, m: ConsensusState)
    ensures PutAll(CONSENSUS_STATE, m0, ConsensusStateFront(m)) == Ok(FrontMerged(m0, m))
  {
    hide PutAll, NumberField, BytesField;
    var m1 := m0.(storageRoot := LaterBytes(m0.storageRoot, m.storageRoot));
    var m2 := m1.(timestamp := LaterNumber(m0.timestamp, m.timestamp));
    var m3 := m2.(outputRoot := LaterBytes(m0.outputRoot, m.outputRoot));
    PutScalar(CONSENSUS_STATE, m0, 1, 0, m.storageRoot);
    PutScalar(CONSENSUS_STATE, m1, 2, m.timestamp, []);
    PutScalar(CONSENSUS_STATE, m2, 3, 0, m.outputRoot);
    PutScalar(CONSENSUS_STATE, m3, 4, m.l1Slot, []);
    PutFour(CONSENSUS_STATE, m0, BytesField(1, m.storageRoot), NumberField(2, m.timestamp),
            BytesField(3, m.outputRoot), NumberField(4, m.l1Slot));
  }

  lemma {:induction false} BackPut(m0: ConsensusState, m: ConsensusState)
    ensures PutAll(CONSENSUS_STATE, m0, ConsensusStateBack(m))
            == Ok(m0.(l1CurrentSyncCommittee := LaterBytes(m0.l1CurrentSyncCommittee, m.l1CurrentSyncCommittee),
                      l1NextSyncCommittee := LaterBytes(m0.l1NextSyncCommittee, m.l1NextSyncCommittee),
                      l1Timestamp := LaterNumber(m0.l1Timestamp, m.l1Timestamp),
                      l1Origin := LaterNumber(m0.l1Origin, m.l1Origin)))
  {
    hide PutAll, NumberField, BytesField;
    var m1 := m0.(l1CurrentSyncCommittee := LaterBytes(m0.l1CurrentSyncCommittee, m.l1CurrentSyncCommittee));
    var m2 := m1.(l1NextSyncCommittee := LaterBytes(m0.l1NextSyncCommittee, m.l1NextSyncCommittee));
    var m3 := m2.(l1Timestamp := LaterNumber(m0.l1Timestamp, m.l1Timestamp));
    PutScalar(CONSENSUS_STATE, m0, 5, 0, m.l1CurrentSyncCommittee);
    PutScalar(CONSENSUS_STATE, m1, 6, 0, m.l1NextSyncCommittee);
    PutScalar(CONSENSUS_STATE, m2, 7, m.l1Timestamp, []);
    PutScalar(CONSENSUS_STATE, m3, 8, m.l1Origin, []);
    PutFour(CONSENSUS_STATE, m0, BytesField(5, m.l1CurrentSyncCommittee), BytesField(6, m.l1NextSyncCommittee),
            NumberField(7, m.l1Timestamp), NumberField(8, m.l1Origin));
  }

  lemma FrontFits(m: ConsensusState)
    ensures forall f :: f in ConsensusStateFront(m) ==> Fits(CONSENSUS_STATE, f)
  {
  }

  lemma BackFits(m: ConsensusState)
    ensures forall f :: f in ConsensusStateBack(m) ==> Fits(CONSENSUS_STATE, f)
  {
  }

  /** The bytes of a consensus state. */
  lemma ConsensusStateLayout(m: ConsensusState)
    ensures ConsensusStateBytes(m)
            == BytesBehind(0x0a, m.storageRoot) + NumberBehind(0x10, m.timestamp)
               + BytesBehind(0x1a, m.outputRoot) + NumberBehind(0x20, m.l1Slot)
               + BytesBehind(0x2a, m.l1CurrentSyncCommittee) + BytesBehind(0x32, m.l1NextSyncCommittee)
               + NumberBehind(0x38, m.l1Timestamp) + NumberBehind(0x40, m.l1Origin)
  {
    hide Print, BytesBehind, NumberBehind, BytesField, NumberField, ConsensusStateFront, ConsensusStateBack;
    hide FrontSize, BackSize, ConsensusStateBytes;
    ConsensusStateSizeExact(m);
    BackBytes(m, []);
    FrontBytes(m, Print(ConsensusStateBack(m)) + []);
    FieldLayout(1, m.timestamp, m.storageRoot);
    FieldLayout(2, m.timestamp, []);
    FieldLayout(3, 0, m.outputRoot);
    FieldLayout(4, m.l1Slot, []);
    FieldLayout(5, 0, m.l1CurrentSyncCommittee);
    FieldLayout(6, 0, m.l1NextSyncCommittee);
    FieldLayout(7, m.l1Timestamp, []);
    FieldLayout(8, m.l1Origin, []);
  }

  /** A consensus state read into another replaces the fields that were printed. */
  lemma {:induction false} ConsensusStateMerge(m0: ConsensusState, m: ConsensusState, at: nat)
    requires at + ConsensusStateSize(m) < INT64_LIMIT
    ensures Parse(CONSENSUS_STATE, m0, ConsensusStateBytes(m), at)
            == Ok(ConsensusState(
                    LaterBytes(m0.storageRoot, m.storageRoot),
                    LaterNumber(m0.timestamp, m.timestamp),
                    LaterBytes(m0.outputRoot, m.outputRoot),
                    LaterNumber(m0.l1Slot, m.l1Slot),
                    LaterBytes(m0.l1CurrentSyncCommittee, m.l1CurrentSyncCommittee),
                    LaterBytes(m0.l1NextSyncCommittee, m.l1NextSyncCommittee),
                    LaterNumber(m0.l1Timestamp, m.l1Timestamp),
                    LaterNumber(m0.l1Origin, m.l1Origin)))
  {
    var fs := ConsensusStateFront(m) + ConsensusStateBack(m);
    FrontFits(m);
    BackFits(m);
    hide Print, Parse, PutAll, ConsensusStateFront, ConsensusStateBack, ConsensusStateSize, Fits;
    ConsensusStateSizeExact(m);
    FrontPut(m0, m);
    BackPut(FrontMerged(m0, m), m);
    PutAllConcat(CONSENSUS_STATE, m0, ConsensusStateFront(m), ConsensusStateBack(m));
    ParsePrint(CONSENSUS_STATE, m0, fs, at);
  }

  /** Every consensus state is read back from what it is printed as. */
  lemma ConsensusStateRoundTrip(m: ConsensusState)
    requires ConsensusStateSize(m) < INT64_LIMIT
    ensures Parse(CONSENSUS_STATE, EMPTY_CONSENSUS_STATE, ConsensusStateBytes(m), 0) == Ok(m)
  {
    hide Parse, ConsensusStateBytes, ConsensusStateSize;
    ConsensusStateMerge(EMPTY_CONSENSUS_STATE, m, 0);
  }

  /** The fields that are skipped, and the wire types that are refused. */
  lemma {:induction false} ConsensusStateNumbers(m: ConsensusState, f: Field, tag: seq<byte>, rest: seq<byte>, at: nat)
    requires IsVarint(tag)
    ensures Ignored(CONSENSUS_STATE, f) <==> WellFormed(f) && FieldNumber(f) > 8
    ensures var number, wireType := Int32(Decode(tag).value.0 / 8), Decode(tag).value.0 % 8;
            || (number in {1, 3, 5, 6} && wireType !in {2, 4})
            || (number in {2, 4, 7, 8} && wireType !in {0, 4}) ==>
              Parse(CONSENSUS_STATE, m, tag + rest, at) == Err(WrongWireType)
  {
    hide Decode, Int32, Step;
    StepRefuses(CONSENSUS_STATE, m, tag, rest, at);
  }

  class ConsensusStateMessage {
    var storageRoot: seq<byte>
    var timestamp: uint64
    var outputRoot: seq<byte>
    var l1Slot: uint64
    var l1CurrentSyncCommittee: seq<byte>
    var l1NextSyncCommittee: seq<byte>
    var l1Timestamp: uint64
    var l1Origin: uint64

    constructor ()
      ensures Value() == EMPTY_CONSENSUS_STATE
    {
      storageRoot := [];
      timestamp := 0;
      outputRoot := [];
      l1Slot := 0;
      l1CurrentSyncCommittee := [];
      l1NextSyncCommittee := [];
      l1Timestamp := 0;
      l1Origin := 0;
    }

    function Value(): ConsensusState
      reads this
    {
      ConsensusState(
        storageRoot, timestamp, outputRoot, l1Slot, l1CurrentSyncCommittee, l1NextSyncCommittee, l1Timestamp, l1Origin)
    }

    /** The last four fields, written first. `m` is the value of the message. */
    method WriteBack(a: array<byte>, i: nat, ghost m: ConsensusState, ghost before: seq<byte>, ghost tail: seq<byte>)
      returns (j: nat, ghost more: seq<byte>)
      requires m == Value() && BackSize(m) <= i && a.Length < UINT64_LIMIT
      requires i + |tail| <= a.Length && |before| == a.Length && a[..] == Overwrite(before, i, tail)
      modifies a
      ensures more == Print(ConsensusStateBack(m)) + tail
      ensures j + |more| == i + |tail| && a[..] == Overwrite(before, j, more)
    {
      hide Print, NumberField, BytesField, ConsensusStateBack, Overwrite, Size;
      BackBytes(m, tail);
      j, more := i, tail;
      j, more := WriteNumber(a, j, 8, l1Origin, before, more);
      j, more := WriteNumber(a, j, 7, l1Timestamp, before, more);
      j, more := WriteBytes(a, j, 6, l1NextSyncCommittee, before, more);
      j, more := WriteBytes(a, j, 5, l1CurrentSyncCommittee, before, more);
    }

    /** The first four fields. */
    method WriteFront(a: array<byte>, i: nat, ghost m: ConsensusState, ghost before: seq<byte>, ghost tail: seq<byte>)
      returns (j: nat, ghost more: seq<byte>)
      requires m == Value() && FrontSize(m) <= i && a.Length < UINT64_LIMIT
      requires i + |tail| <= a.Length && |before| == a.Length && a[..] == Overwrite(before, i, tail)
      modifies a
      ensures more == Print(ConsensusStateFront(m)) + tail
      ensures j + |more| == i + |tail| && a[..] == Overwrite(before, j, more)
    {
      hide Print, NumberField, BytesField, ConsensusStateFront, Overwrite, Size;
      FrontBytes(m, tail);
      j, more := i, tail;
      j, more := WriteNumber(a, j, 4, l1Slot, before, more);
      j, more := WriteBytes(a, j, 3, outputRoot, before, more);
      j, more := WriteNumber(a, j, 2, timestamp, before, more);
      j, more := WriteBytes(a, j, 1, storageRoot, before, more);
    }

    /** Fills the buffer backwards from `end` and returns the number of bytes written. */
    method MarshalToSizedBuffer(a: array<byte>, end: nat) returns (n: nat)
      requires ConsensusStateSize(Value()) <= end <= a.Length < UINT64_LIMIT
      modifies a
      ensures n == ConsensusStateSize(Value()) == |ConsensusStateBytes(Value())|
      ensures a[..] == Overwrite(old(a[..]), end - n, ConsensusStateBytes(Value()))
    {
      hide Print, ConsensusStateFront, ConsensusStateBack, FrontSize, BackSize, Overwrite, ConsensusStateBytes;
      ghost var before, tail: seq<byte> := a[..], [];
      ghost var m := Value();
      ConsensusStateSizeExact(m);
      OverwriteNothing(before, end);
      var i: nat;
      i, tail := WriteBack(a, end, m, before, tail);
      i, tail := WriteFront(a, i, m, before, tail);
      return end - i;
    }

    method Marshal() returns (a: array<byte>)
      requires ConsensusStateSize(Value()) < INT64_LIMIT
      ensures a[..] == ConsensusStateBytes(Value())
    {
      hide ConsensusStateSize, ConsensusStateBytes;
      a := new byte[ConsensusStateSize(Value())];
      var n := MarshalToSizedBuffer(a, a.Length);
    }

    /** One field, read from index `start` on: the index after it, or an error. */
    method UnmarshalField(data: seq<byte>, start: nat) returns (r: Result<nat, WireError>)
      requires start < |data|
      modifies this
      ensures match r
              case Ok(i) =>
                && start < i <= |data|
                && Step(CONSENSUS_STATE, old(Value()), data[start..], start) == Ok((Value(), i - start))
              case Err(e) => Step(CONSENSUS_STATE, old(Value()), data[start..], start) == Err(e)
    {
      hide ReadTag, ReadPayload, SkipUnknown;
      var tag := ReadTagAt(data, start);
      if tag.Err? {
        return Err(tag.error);
      }
      var (number, wireType, i) := tag.value;
      assert data[start..][i - start..] == data[i..];
      if number in {1, 3, 5, 6} {
        var field := ReadBytesField(data, i, wireType);
        if field.Err? {
          return Err(field.error);
        }
        match number {
          case 1 => storageRoot := field.value.0;
          case 3 => outputRoot := field.value.0;
          case 5 => l1CurrentSyncCommittee := field.value.0;
          case _ => l1NextSyncCommittee := field.value.0;
        }
        return Ok(field.value.1);
      } else if number in {2, 4, 7, 8} {
        var field := ReadNumberField(data, i, wireType);
        if field.Err? {
          return Err(field.error);
        }
        match number {
          case 2 => timestamp := field.value.0;
          case 4 => l1Slot := field.value.0;
          case 7 => l1Timestamp := field.value.0;
          case _ => l1Origin := field.value.0;
        }
        return Ok(field.value.1);
      } else {
        r := SkipUnknownAt(data, start);
      }
    }

    method Unmarshal(data: seq<byte>) returns (err: Option<WireError>)
      modifies this
      ensures match err
              case None => Parse(CONSENSUS_STATE, old(Value()), data, 0) == Ok(Value())
              case Some(e) => Parse(CONSENSUS_STATE, old(Value()), data, 0) == Err(e)
    {
      hide Step;
      var i := 0;
      while i < |data|
        invariant i <= |data|
        invariant Parse(CONSENSUS_STATE, Value(), data[i..], i) == Parse(CONSENSUS_STATE, old(Value()), data, 0)
      {
        var next := UnmarshalField(data, i);
        if next.Err? {
          return Some(next.error);
        }
        assert data[i..][next.value - i..] == data[next.value..];
        i := next.value;
      }
      return None;
    }
  }

  // ---- Header ----

  /** A message type of another package: its own printer and reader, which are taken to fit. */
  datatype SubCodec<!X> = SubCodec(empty: X, encode: X -> seq<byte>, decode: (X, seq<byte>) -> Result<X, WireError>)

  ghost predicate RoundTrips<X>(c: SubCodec<X>, x: X) {
    |c.encode(x)| < INT64_LIMIT ==> c.decode(c.empty, c.encode(x)) == Ok(x)
  }

  datatype HeaderCodecs<!X> = HeaderCodecs(height: SubCodec<X>, accountUpdate: SubCodec<X>, l1Header: SubCodec<X>)

  datatype Header<X> = Header(
    trustedHeight: Option<X>,
    accountUpdate: Option<X>,
    derivation: Option<Derivation>,
    preimages: seq<byte>,
    trustedToDeterministic: seq<X>,
    deterministicToLatest: seq<X>)

  function EmptyHeader<X>(): Header<X> {
    Header(None, None, None, [], [], [])
  }

  function HeaderKind(number: int): Kind {
    if 1 <= number <= 6 then BytesKind else Unknown
  }

  /** The message a nullable field is read into. */
  function Target<T>(field: Option<T>, empty: T): T {
    match field
    case None => empty
    case Some(t) => t
  }

  function PutHeader<X>(c: HeaderCodecs<X>, m: Header<X>, number: int, p: Payload): Result<Header<X>, WireError> {
    match (number, p)
    case (1, Bytes(b)) =>
      (match c.height.decode(Target(m.trustedHeight, c.height.empty), b)
       case Err(e) => Err(e)
       case Ok(x) => Ok(m.(trustedHeight := Some(x))))
    case (2, Bytes(b)) =>
      (match c.accountUpdate.decode(Target(m.accountUpdate, c.accountUpdate.empty), b)
       case Err(e) => Err(e)
       case Ok(x) => Ok(m.(accountUpdate := Some(x))))
    case (3, Bytes(b)) =>
      (match Parse(DERIVATION, Target(m.derivation, EMPTY_DERIVATION), b, 0)
       case Err(e) => Err(e)
       case Ok(d) => Ok(m.(derivation := Some(d))))
    case (4, Bytes(b)) => Ok(m.(preimages := b))
    case (5, Bytes(b)) =>
      (match c.l1Header.decode(c.l1Header.empty, b)
       case Err(e) => Err(e)
       case Ok(x) => Ok(m.(trustedToDeterministic := m.trustedToDeterministic + [x])))
    case (6, Bytes(b)) =>
      (match c.l1Header.decode(c.l1Header.empty, b)
       case Err(e) => Err(e)
       case Ok(x) => Ok(m.(deterministicToLatest := m.deterministicToLatest + [x])))
    case _ => Ok(m)
  }

  function HeaderSchema<X>(c: HeaderCodecs<X>): Schema<Header<X>> {
    Schema(HeaderKind, (m, number, p) => PutHeader(c, m, number, p))
  }

  /** A nullable message is written whenever it is there, even if it is empty. */
  function OptionalField<T>(number: nat, field: Option<T>, encode: T -> seq<byte>): seq<Known> {
    match field
    case None => []
    case Some(t) => [Known(number, Bytes(encode(t)))]
  }

  function RepeatedField<X>(number: nat, xs: seq<X>, encode: X -> seq<byte>): seq<Known> {
    if xs == [] then [] else [Known(number, Bytes(encode(xs[0])))] + RepeatedField(number, xs[1..], encode)
  }

  function HeaderSingles<X>(c: HeaderCodecs<X>, m: Header<X>): seq<Known> {
    OptionalField(1, m.trustedHeight, c.height.encode)
    + (OptionalField(2, m.accountUpdate, c.accountUpdate.encode)
       + (OptionalField(3, m.derivation, DerivationBytes) + BytesField(4, m.preimages)))
  }

  function HeaderLists<X>(c: HeaderCodecs<X>, m: Header<X>): seq<Known> {
    RepeatedField(5, m.trustedToDeterministic, c.l1Header.encode)
    + RepeatedField(6, m.deterministicToLatest, c.l1Header.encode)
  }

  function HeaderBytes<X>(c: HeaderCodecs<X>, m: Header<X>): seq<byte> {
    Print(HeaderSingles(c, m) + HeaderLists(c, m))
  }

  function OptionalSize<T>(field: Option<T>, size: T -> nat): nat {
    match field
    case None => 0
    case Some(t) => MessageSize(size(t))
  }

  function RepeatedSize<X>(xs: seq<X>, encode: X -> seq<byte>): nat {
    if xs == [] then 0 else MessageSize(|encode(xs[0])|) + RepeatedSize(xs[1..], encode)
  }

  function ListsSize<X>(c: HeaderCodecs<X>, m: Header<X>): nat {
    RepeatedSize(m.trustedToDeterministic, c.l1Header.encode)
    + RepeatedSize(m.deterministicToLatest, c.l1Header.encode)
  }

  function SinglesSize<X>(c: HeaderCodecs<X>, m: Header<X>): nat {
    OptionalSize(m.trustedHeight, x => |c.height.encode(x)|)
    + OptionalSize(m.accountUpdate, x => |c.accountUpdate.encode(x)|)
    + OptionalSize(m.derivation, DerivationSize)
    + BytesSize(m.preimages)
  }

  function HeaderSize<X>(c: HeaderCodecs<X>, m: Header<X>): nat {
    SinglesSize(c, m) + ListsSize(c, m)
  }

  lemma OptionalSizes<T>(number: nat, field: Option<T>, encode: T -> seq<byte>, size: T -> nat)
    requires 0 < number < 16 && (field.Some? ==> size(field.value) == |encode(field.value)|)
    ensures |Print(OptionalField(number, field, encode))| == OptionalSize(field, size)
  {
    hide KnownBytes, Size;
    if field.Some? {
      KnownSize(Known(number, Bytes(encode(field.value))));
    }
  }

  lemma {:induction false} RepeatedSizes<X>(number: nat, xs: seq<X>, encode: X -> seq<byte>)
    requires 0 < number < 16
    ensures |Print(RepeatedField(number, xs, encode))| == RepeatedSize(xs, encode)
  {
    hide KnownBytes, Size;
    if xs != [] {
      var f := Known(number, Bytes(encode(xs[0])));
      KnownSize(f);
      RepeatedSizes(number, xs[1..], encode);
      PrintConcat([f], RepeatedField(number, xs[1..], encode));
    }
  }

  /** The printed lists in front of what is already written. */
  function ListsInFront<X>(c: HeaderCodecs<X>, m: Header<X>, tail: seq<byte>): seq<byte> {
    Print(RepeatedField(5, m.trustedToDeterministic, c.l1Header.encode))
    + (Print(RepeatedField(6, m.deterministicToLatest, c.l1Header.encode)) + tail)
  }

  /** The other printed fields in front of what is already written. */
  function SinglesInFront<X>(c: HeaderCodecs<X>, m: Header<X>, tail: seq<byte>): seq<byte> {
    Print(OptionalField(1, m.trustedHeight, c.height.encode))
    + (Print(OptionalField(2, m.accountUpdate, c.accountUpdate.encode))
       + (Print(OptionalField(3, m.derivation, DerivationBytes)) + (Print(BytesField(4, m.preimages)) + tail)))
  }

  /** The printed header from its last field to its first, as it is written. */
  lemma HeaderParts<X>(c: HeaderCodecs<X>, m: Header<X>)
    ensures HeaderBytes(c, m) == SinglesInFront(c, m, ListsInFront(c, m, []))
    ensures |ListsInFront(c, m, [])| == ListsSize(c, m)
  {
    HeaderPartSizes(c, m);
    hide Print, OptionalField, BytesField, RepeatedField;
    PrintConcat(HeaderSingles(c, m), HeaderLists(c, m));
    PrintConcat(RepeatedField(5, m.trustedToDeterministic, c.l1Header.encode),
                RepeatedField(6, m.deterministicToLatest, c.l1Header.encode));
    PrintFour(OptionalField(1, m.trustedHeight, c.height.encode),
              OptionalField(2, m.accountUpdate, c.accountUpdate.encode),
              OptionalField(3, m.derivation, DerivationBytes), BytesField(4, m.preimages), Print(HeaderLists(c, m)));
  }

  lemma HeaderPartSizes<X>(c: HeaderCodecs<X>, m: Header<X>)
    ensures |Print(OptionalField(1, m.trustedHeight, c.height.encode))|
            == OptionalSize(m.trustedHeight, x => |c.height.encode(x)|)
    ensures |Print(OptionalField(2, m.accountUpdate, c.accountUpdate.encode))|
            == OptionalSize(m.accountUpdate, x => |c.accountUpdate.encode(x)|)
    ensures |Print(OptionalField(3, m.derivation, DerivationBytes))| == OptionalSize(m.derivation, DerivationSize)
    ensures |Print(BytesField(4, m.preimages))| == BytesSize(m.preimages)
    ensures |Print(RepeatedField(5, m.trustedToDeterministic, c.l1Header.encode))|
            == RepeatedSize(m.trustedToDeterministic, c.l1Header.encode)
    ensures |Print(RepeatedField(6, m.deterministicToLatest, c.l1Header.encode))|
            == RepeatedSize(m.deterministicToLatest, c.l1Header.encode)
  {
    hide Print, OptionalField, BytesField, RepeatedField, OptionalSize, BytesSize, RepeatedSize, DerivationSize;
    hide DerivationBytes;
    if m.derivation.Some? {
      DerivationSizeExact(m.derivation.value);
    }
    OptionalSizes(1, m.trustedHeight, c.height.encode, x => |c.height.encode(x)|);
    OptionalSizes(2, m.accountUpdate, c.accountUpdate.encode, x => |c.accountUpdate.encode(x)|);
    OptionalSizes(3, m.derivation, DerivationBytes, DerivationSize);
    FieldSizes(4, 0, m.preimages);
    RepeatedSizes(5, m.trustedToDeterministic, c.l1Header.encode);
    RepeatedSizes(6, m.deterministicToLatest, c.l1Header.encode);
  }

  lemma HeaderSizeExact<X>(c: HeaderCodecs<X>, m: Header<X>)
    ensures |HeaderBytes(c, m)| == HeaderSize(c, m)
  {
    hide Print, OptionalField, BytesField, RepeatedField, OptionalSize, BytesSize, RepeatedSize, HeaderBytes;
    HeaderParts(c, m);
    HeaderPartSizes(c, m);
  }

  /** The codecs fit the submessages of `m`. */
  ghost predicate SubMessagesRoundTrip<X>(c: HeaderCodecs<X>, m: Header<X>) {
    && (m.trustedHeight.Some? ==> RoundTrips(c.height, m.trustedHeight.value))
    && (m.accountUpdate.Some? ==> RoundTrips(c.accountUpdate, m.accountUpdate.value))
    && (forall x :: x in m.trustedToDeterministic ==> RoundTrips(c.l1Header, x))
    && (forall x :: x in m.deterministicToLatest ==> RoundTrips(c.l1Header, x))
  }

  lemma {:induction false} RepeatedElementSize<X>(xs: seq<X>, encode: X -> seq<byte>, x: X)
    requires x in xs
    ensures |encode(x)| <= RepeatedSize(xs, encode)
  {
    if x != xs[0] {
      RepeatedElementSize(xs[1..], encode, x);
    }
  }

  lemma {:induction false} PutRepeated<X>(c: HeaderCodecs<X>, m: Header<X>, number: nat, xs: seq<X>)
    requires number == 5 || number == 6
    requires forall x :: x in xs ==> c.l1Header.decode(c.l1Header.empty, c.l1Header.encode(x)) == Ok(x)
    ensures PutAll(HeaderSchema(c), m, RepeatedField(number, xs, c.l1Header.encode)) ==
            Ok(if number == 5 then m.(trustedToDeterministic := m.trustedToDeterministic + xs)
               else m.(deterministicToLatest := m.deterministicToLatest + xs))
    decreases |xs|
  {
    if xs == [] {
      assert m.trustedToDeterministic + xs == m.trustedToDeterministic;
      assert m.deterministicToLatest + xs == m.deterministicToLatest;
    } else {
      var fs := RepeatedField(number, xs, c.l1Header.encode);
      assert fs[0] == Known(number, Bytes(c.l1Header.encode(xs[0])));
      assert fs[1..] == RepeatedField(number, xs[1..], c.l1Header.encode);
      var next := PutHeader(c, m, number, fs[0].payload).value;
      PutRepeated(c, next, number, xs[1..]);
      assert m.trustedToDeterministic + [xs[0]] + xs[1..] == m.trustedToDeterministic + xs;
      assert m.deterministicToLatest + [xs[0]] + xs[1..] == m.deterministicToLatest + xs;
    }
  }

  lemma {:induction false} PutOptional<M, T>(c: Schema<M>, m: M, number: nat, field: Option<T>, encode: T -> seq<byte>)
    ensures PutAll(c, m, OptionalField(number, field, encode)) ==
            if field.None? then Ok(m) else c.put(m, number, Bytes(encode(field.value)))
  {
  }

  /** What `r` is after `later` was read into `was`. */
  ghost predicate ReadInto<X>(c: SubCodec<X>, was: Option<X>, later: Option<X>, r: Option<X>) {
    match later
    case None => r == was
    case Some(x) => r.Some? && c.decode(Target(was, c.empty), c.encode(x)) == Ok(r.value)
  }

  function MergedDerivation(was: Option<Derivation>, later: Option<Derivation>): Option<Derivation> {
    match later
    case None => was
    case Some(d) =>
      var d0 := Target(was, EMPTY_DERIVATION);
      Some(Derivation(LaterBytes(d0.agreedL2OutputRoot, d.agreedL2OutputRoot),
                      LaterBytes(d0.l2OutputRoot, d.l2OutputRoot),
                      LaterNumber(d0.l2BlockNumber, d.l2BlockNumber)))
  }

  lemma {:induction false} SinglesPut<X>(c: HeaderCodecs<X>, m0: Header<X>, m: Header<X>,
                                         height: Option<X>, account: Option<X>)
    requires HeaderSize(c, m) < INT64_LIMIT
    requires ReadInto(c.height, m0.trustedHeight, m.trustedHeight, height)
    requires ReadInto(c.accountUpdate, m0.accountUpdate, m.accountUpdate, account)
    ensures PutAll(HeaderSchema(c), m0, HeaderSingles(c, m)) ==
            Ok(m0.(trustedHeight := height, accountUpdate := account,
                   derivation := MergedDerivation(m0.derivation, m.derivation),
                   preimages := LaterBytes(m0.preimages, m.preimages)))
  {
    hide PutAll, OptionalField, BytesField, RepeatedSize, DerivationBytes, DerivationSize, Size, Parse;
    var s := HeaderSchema(c);
    var m1 := m0.(trustedHeight := height);
    var m2 := m1.(accountUpdate := account);
    var m3 := m2.(derivation := MergedDerivation(m0.derivation, m.derivation));
    PutOptional(s, m0, 1, m.trustedHeight, c.height.encode);
    PutOptional(s, m1, 2, m.accountUpdate, c.accountUpdate.encode);
    PutOptional(s, m2, 3, m.derivation, DerivationBytes);
    if m.derivation.Some? {
      DerivationMerge(Target(m0.derivation, EMPTY_DERIVATION), m.derivation.value, 0);
    }
    PutScalar(s, m3, 4, 0, m.preimages);
    PutFour(s, m0, OptionalField(1, m.trustedHeight, c.height.encode),
            OptionalField(2, m.accountUpdate, c.accountUpdate.encode),
            OptionalField(3, m.derivation, DerivationBytes), BytesField(4, m.preimages));
  }

  /** The codec of the L1 headers fits those of both lists. */
  ghost predicate ListsRoundTrip<X>(c: HeaderCodecs<X>, m: Header<X>) {
    && (forall x :: x in m.trustedToDeterministic ==> RoundTrips(c.l1Header, x))
    && (forall x :: x in m.deterministicToLatest ==> RoundTrips(c.l1Header, x))
  }

  lemma {:induction false} ListsPut<X>(c: HeaderCodecs<X>, m0: Header<X>, m: Header<X>)
    requires HeaderSize(c, m) < INT64_LIMIT && ListsRoundTrip(c, m)
    ensures PutAll(HeaderSchema(c), m0, HeaderLists(c, m)) ==
            Ok(m0.(trustedToDeterministic := m0.trustedToDeterministic + m.trustedToDeterministic,
                   deterministicToLatest := m0.deterministicToLatest + m.deterministicToLatest))
  {
    hide PutAll, RepeatedField, RepeatedSize, DerivationSize, PutHeader;
    forall x | x in m.trustedToDeterministic
      ensures c.l1Header.decode(c.l1Header.empty, c.l1Header.encode(x)) == Ok(x)
    {
      RepeatedElementSize(m.trustedToDeterministic, c.l1Header.encode, x);
    }
    forall x | x in m.deterministicToLatest
      ensures c.l1Header.decode(c.l1Header.empty, c.l1Header.encode(x)) == Ok(x)
    {
      RepeatedElementSize(m.deterministicToLatest, c.l1Header.encode, x);
    }
    var middle := m0.(trustedToDeterministic := m0.trustedToDeterministic + m.trustedToDeterministic);
    PutRepeated(c, m0, 5, m.trustedToDeterministic);
    PutRepeated(c, middle, 6, m.deterministicToLatest);
    PutAllConcat(HeaderSchema(c), m0, RepeatedField(5, m.trustedToDeterministic, c.l1Header.encode),
                 RepeatedField(6, m.deterministicToLatest, c.l1Header.encode));
  }

  lemma {:induction false} RepeatedFits<X>(c: HeaderCodecs<X>, number: nat, xs: seq<X>)
    requires number == 5 || number == 6
    ensures forall f :: f in RepeatedField(number, xs, c.l1Header.encode) ==> Fits(HeaderSchema(c), f)
  {
    if xs != [] {
      RepeatedFits(c, number, xs[1..]);
    }
  }

  /** A header read into another: submessages are read into those that are there, lists are appended. */
  lemma {:induction false} HeaderMerge<X>(c: HeaderCodecs<X>, m0: Header<X>, m: Header<X>,
                                          height: Option<X>, account: Option<X>, at: nat)
    requires at + HeaderSize(c, m) < INT64_LIMIT && ListsRoundTrip(c, m)
    requires ReadInto(c.height, m0.trustedHeight, m.trustedHeight, height)
    requires ReadInto(c.accountUpdate, m0.accountUpdate, m.accountUpdate, account)
    ensures Parse(HeaderSchema(c), m0, HeaderBytes(c, m), at)
            == Ok(Header(height, account, MergedDerivation(m0.derivation, m.derivation),
                         LaterBytes(m0.preimages, m.preimages),
                         m0.trustedToDeterministic + m.trustedToDeterministic,
                         m0.deterministicToLatest + m.deterministicToLatest))
  {
    var fs := HeaderSingles(c, m) + HeaderLists(c, m);
    assert forall f :: f in fs ==> Fits(HeaderSchema(c), f) by {
      RepeatedFits(c, 5, m.trustedToDeterministic);
      RepeatedFits(c, 6, m.deterministicToLatest);
    }
    hide Print, Parse, PutAll, HeaderSingles, HeaderLists, HeaderSize, Fits, ListsRoundTrip, HeaderSchema, ReadInto;
    hide MergedDerivation;
    HeaderSizeExact(c, m);
    SinglesPut(c, m0, m, height, account);
    var middle := PutAll(HeaderSchema(c), m0, HeaderSingles(c, m)).value;
    ListsPut(c, middle, m);
    PutAllConcat(HeaderSchema(c), m0, HeaderSingles(c, m), HeaderLists(c, m));
    ParsePrint(HeaderSchema(c), m0, fs, at);
  }

  /** Every header is read back from what it is printed as, nested and repeated messages included. */
  lemma HeaderRoundTrip<X>(c: HeaderCodecs<X>, m: Header<X>)
    requires HeaderSize(c, m) < INT64_LIMIT && SubMessagesRoundTrip(c, m)
    ensures Parse(HeaderSchema(c), EmptyHeader(), HeaderBytes(c, m), 0) == Ok(m)
  {
    hide Parse, HeaderBytes, DerivationSize, RepeatedSize, HeaderSchema;
    HeaderMerge(c, EmptyHeader(), m, m.trustedHeight, m.accountUpdate, 0);
    assert [] + m.trustedToDeterministic == m.trustedToDeterministic;
    assert [] + m.deterministicToLatest == m.deterministicToLatest;
  }

  function OptionalBehind<T>(tag: byte, field: Option<T>, encode: T -> seq<byte>): seq<byte> {
    match field
    case None => []
    case Some(t) => MessageBehind(tag, encode(t))
  }

  function RepeatedBehind<X>(tag: byte, xs: seq<X>, encode: X -> seq<byte>): seq<byte> {
    if xs == [] then [] else MessageBehind(tag, encode(xs[0])) + RepeatedBehind(tag, xs[1..], encode)
  }

  lemma OptionalLayout<T>(number: nat, field: Option<T>, encode: T -> seq<byte>)
    requires 0 < number < 16
    ensures Print(OptionalField(number, field, encode)) == OptionalBehind(number * 8 + 2, field, encode)
  {
    if field.Some? {
      FieldLayout(number, 0, encode(field.value));
    }
  }

  lemma {:induction false} RepeatedLayout<X>(number: nat, xs: seq<X>, encode: X -> seq<byte>)
    requires 0 < number < 16
    ensures Print(RepeatedField(number, xs, encode)) == RepeatedBehind(number * 8 + 2, xs, encode)
  {
    hide KnownBytes, MessageBehind;
    if xs != [] {
      FieldLayout(number, 0, encode(xs[0]));
      RepeatedLayout(number, xs[1..], encode);
    }
  }

  /** The bytes of a header. */
  lemma HeaderLayout<X>(c: HeaderCodecs<X>, m: Header<X>)
    ensures HeaderBytes(c, m)
            == OptionalBehind(0x0a, m.trustedHeight, c.height.encode)
               + OptionalBehind(0x12, m.accountUpdate, c.accountUpdate.encode)
               + OptionalBehind(0x1a, m.derivation, DerivationBytes)
               + BytesBehind(0x22, m.preimages)
               + RepeatedBehind(0x2a, m.trustedToDeterministic, c.l1Header.encode)
               + RepeatedBehind(0x32, m.deterministicToLatest, c.l1Header.encode)
  {
    hide Print, OptionalField, BytesField, RepeatedField, HeaderBytes, OptionalBehind, BytesBehind, RepeatedBehind;
    HeaderParts(c, m);
    OptionalLayout(1, m.trustedHeight, c.height.encode);
    OptionalLayout(2, m.accountUpdate, c.accountUpdate.encode);
    OptionalLayout(3, m.derivation, DerivationBytes);
    FieldLayout(4, 0, m.preimages);
    RepeatedLayout(5, m.trustedToDeterministic, c.l1Header.encode);
    RepeatedLayout(6, m.deterministicToLatest, c.l1Header.encode);
  }

  /** The fields that are skipped, and the wire types that are refused. */
  lemma {:induction false} HeaderNumbers<X>(c: HeaderCodecs<X>, m: Header<X>, f: Field, tag: seq<byte>,
                                            rest: seq<byte>, at: nat)
    requires IsVarint(tag)
    ensures Ignored(HeaderSchema(c), f) <==> WellFormed(f) && FieldNumber(f) > 6
    ensures var number, wireType := Int32(Decode(tag).value.0 / 8), Decode(tag).value.0 % 8;
            1 <= number <= 6 && wireType !in {2, 4} ==>
              Parse(HeaderSchema(c), m, tag + rest, at) == Err(WrongWireType)
  {
    hide Decode, Int32, Step;
    StepRefuses(HeaderSchema(c), m, tag, rest, at);
  }

  /** The error of reading submessage `b` as field `number` of `m`. */
  function SubMessageError<X>(c: HeaderCodecs<X>, m: Header<X>, number: int, b: seq<byte>): Option<WireError> {
    var r := if number == 1 then c.height.decode(Target(m.trustedHeight, c.height.empty), b)
             else if number == 2 then c.accountUpdate.decode(Target(m.accountUpdate, c.accountUpdate.empty), b)
             else c.l1Header.decode(c.l1Header.empty, b);
    match r
    case Err(e) => Some(e)
    case Ok(_) => None
  }

  /** A submessage that cannot be read fails the whole header, with the same error. */
  lemma {:induction false} HeaderSubMessageFails<X>(c: HeaderCodecs<X>, m: Header<X>, tag: seq<byte>, v: seq<byte>,
                                                    b: seq<byte>, rest: seq<byte>, at: nat)
    requires IsVarint(tag) && IsVarint(v) && Decode(tag).value.0 % 8 == 2
    requires Decode(v).value.0 == |b| && at + |tag| + |v| + |b| < INT64_LIMIT
    ensures var number, r := Int32(Decode(tag).value.0 / 8), Parse(HeaderSchema(c), m, tag + (v + (b + rest)), at);
            && (number in {1, 2, 5, 6} && SubMessageError(c, m, number, b).Some? ==>
                  r == Err(SubMessageError(c, m, number, b).value))
            && (number == 3 ==>
                  match Parse(DERIVATION, Target(m.derivation, EMPTY_DERIVATION), b, 0)
                  case Err(e) => r == Err(e)
                  case Ok(_) => true)
  {
    hide Decode, Int32, Step;
    StepPuts(HeaderSchema(c), m, tag, v, b, rest, at);
  }

  // ---- The header message ----

  method WriteOptional<X>(a: array<byte>, i: nat, number: nat, field: Option<X>, encode: X -> seq<byte>,
                          ghost before: seq<byte>, ghost tail: seq<byte>)
    returns (j: nat, ghost more: seq<byte>)
    requires 0 < number < 16 && a.Length < UINT64_LIMIT
    requires |Print(OptionalField(number, field, encode))| <= i
    requires i + |tail| <= a.Length && |before| == a.Length && a[..] == Overwrite(before, i, tail)
    modifies a
    ensures more == Print(OptionalField(number, field, encode)) + tail
    ensures j + |more| == i + |tail| && a[..] == Overwrite(before, j, more)
  {
    hide Overwrite;
    j, more := i, tail;
    if field.Some? {
      KnownSize(Known(number, Bytes(encode(field.value))));
      j, more := WriteMessage(a, i, number, encode(field.value), before, tail);
    }
  }

  /** The messages of a repeated field, the last one first. */
  method WriteRepeated<X>(a: array<byte>, i: nat, number: nat, xs: seq<X>, encode: X -> seq<byte>,
                          ghost before: seq<byte>, ghost tail: seq<byte>)
    returns (j: nat, ghost more: seq<byte>)
    requires 0 < number < 16 && RepeatedSize(xs, encode) <= i && a.Length < UINT64_LIMIT
    requires i + |tail| <= a.Length && |before| == a.Length && a[..] == Overwrite(before, i, tail)
    modifies a
    ensures more == Print(RepeatedField(number, xs, encode)) + tail
    ensures j + |more| == i + |tail| && a[..] == Overwrite(before, j, more)
  {
    j, more := i, tail;
    var k := |xs|;
    assert Print(RepeatedField(number, xs[k..], encode)) == [];
    hide Overwrite, Print, RepeatedSize, RepeatedField, Size;
    while k > 0
      invariant 0 <= k <= |xs|
      invariant more == Print(RepeatedField(number, xs[k..], encode)) + tail
      invariant j + |more| == i + |tail| && a[..] == Overwrite(before, j, more)
    {
      k := k - 1;
      RepeatedLast(number, xs, k, encode);
      ghost var first := Print([Known(number, Bytes(encode(xs[k])))]);
      ghost var rest := Print(RepeatedField(number, xs[k + 1..], encode));
      j, more := WriteMessage(a, j, number, encode(xs[k]), before, more);
      Associative(first, rest, tail);
    }
    assert xs[0..] == xs;
  }

  /** The messages from `k` on: the one at `k` in front of the others, and room for all of them. */
  lemma {:induction false} RepeatedLast<X>(number: nat, xs: seq<X>, k: nat, encode: X -> seq<byte>)
    requires 0 < number < 16 && k < |xs|
    ensures var rest := Print(RepeatedField(number, xs[k + 1..], encode));
            && Print(RepeatedField(number, xs[k..], encode)) == Print([Known(number, Bytes(encode(xs[k])))]) + rest
            && MessageSize(|encode(xs[k])|) + |rest| <= RepeatedSize(xs, encode)
  {
    hide Print, Size;
    assert xs[k..][1..] == xs[k + 1..];
    PrintConcat([Known(number, Bytes(encode(xs[k])))], RepeatedField(number, xs[k + 1..], encode));
    RepeatedSizes(number, xs[k + 1..], encode);
    RepeatedSuffix(xs, k, encode);
  }

  lemma {:induction false} RepeatedSuffix<X>(xs: seq<X>, k: nat, encode: X -> seq<byte>)
    requires k <= |xs|
    ensures RepeatedSize(xs[k..], encode) <= RepeatedSize(xs, encode)
  {
    if k > 0 {
      assert xs[1..][k - 1..] == xs[k..];
      RepeatedSuffix(xs[1..], k - 1, encode);
    } else {
      assert xs[0..] == xs;
    }
  }

  /** A derivation as field 3, `d` being its value. */
  method WriteNested(a: array<byte>, i: nat, message: DerivationMessage, ghost d: Derivation,
                     ghost before: seq<byte>, ghost tail: seq<byte>)
    returns (j: nat, ghost more: seq<byte>)
    requires d == message.Value() && MessageSize(DerivationSize(d)) <= i && a.Length < UINT64_LIMIT
    requires i + |tail| <= a.Length && |before| == a.Length && a[..] == Overwrite(before, i, tail)
    modifies a
    ensures more == Print([Known(3, Bytes(DerivationBytes(d)))]) + tail
    ensures j + |more| == i + |tail| && a[..] == Overwrite(before, j, more)
  {
    hide DerivationSize, DerivationBytes, Encode, Print, KnownBytes, Overwrite, Size;
    var n := message.MarshalToSizedBuffer(a, i);
    OverwriteBefore(before, i, DerivationBytes(d), tail);
    j, more := WritePrefix(a, i - n, 3, DerivationBytes(d), n, before, tail);
  }

  class HeaderMessage<X> {
    const codecs: HeaderCodecs<X>
    var trustedHeight: Option<X>
    var accountUpdate: Option<X>
    var derivation: DerivationMessage?
    var preimages: seq<byte>
    var trustedToDeterministic: seq<X>
    var deterministicToLatest: seq<X>

    constructor (codecs: HeaderCodecs<X>)
      ensures this.codecs == codecs && derivation == null && Value() == EmptyHeader()
    {
      this.codecs := codecs;
      trustedHeight, accountUpdate, derivation := None, None, null;
      preimages, trustedToDeterministic, deterministicToLatest := [], [], [];
    }

    ghost function Parts(): set<object>
      reads this
    {
      if derivation == null then {this} else {this, derivation}
    }

    function DerivationValue(): Option<Derivation>
      reads this, derivation
    {
      if derivation == null then None else Some(derivation.Value())
    }

    function Value(): Header<X>
      reads this, derivation
    {
      Header(trustedHeight, accountUpdate, DerivationValue(), preimages, trustedToDeterministic, deterministicToLatest)
    }

    method WriteDerivation(a: array<byte>, i: nat, ghost before: seq<byte>, ghost tail: seq<byte>)
      returns (j: nat, ghost more: seq<byte>)
      requires OptionalSize(DerivationValue(), DerivationSize) <= i && a.Length < UINT64_LIMIT
      requires i + |tail| <= a.Length && |before| == a.Length && a[..] == Overwrite(before, i, tail)
      modifies a
      ensures more == Print(OptionalField(3, DerivationValue(), DerivationBytes)) + tail
      ensures j + |more| == i + |tail| && a[..] == Overwrite(before, j, more)
    {
      assert Print([]) + tail == tail;
      hide Print, DerivationSize, DerivationBytes, Overwrite, Size;
      j, more := i, tail;
      if derivation != null {
        j, more := WriteNested(a, i, derivation, derivation.Value(), before, tail);
      }
    }

    /** The two lists, written first. `m` is the value of the message. */
    method WriteLists(a: array<byte>, i: nat, ghost m: Header<X>, ghost before: seq<byte>, ghost tail: seq<byte>)
      returns (j: nat, ghost more: seq<byte>)
      requires m == Value() && ListsSize(codecs, m) <= i && a.Length < UINT64_LIMIT
      requires i + |tail| <= a.Length && |before| == a.Length && a[..] == Overwrite(before, i, tail)
      modifies a
      ensures more == ListsInFront(codecs, m, tail)
      ensures j + |more| == i + |tail| && a[..] == Overwrite(before, j, more)
    {
      hide Overwrite, Print, RepeatedField, RepeatedSize;
      RepeatedSizes(6, deterministicToLatest, codecs.l1Header.encode);
      j, more := WriteRepeated(a, i, 6, deterministicToLatest, codecs.l1Header.encode, before, tail);
      j, more := WriteRepeated(a, j, 5, trustedToDeterministic, codecs.l1Header.encode, before, more);
    }

    /** The other fields. */
    method WriteSingles(a: array<byte>, i: nat, ghost m: Header<X>, ghost before: seq<byte>, ghost tail: seq<byte>)
      returns (j: nat, ghost more: seq<byte>)
      requires m == Value() && SinglesSize(codecs, m) <= i && a.Length < UINT64_LIMIT
      requires i + |tail| <= a.Length && |before| == a.Length && a[..] == Overwrite(before, i, tail)
      modifies a
      ensures more == SinglesInFront(codecs, m, tail)
      ensures j + |more| == i + |tail| && a[..] == Overwrite(before, j, more)
    {
      HeaderPartSizes(codecs, m);
      assert |preimages| <= BytesSize(preimages);
      hide Overwrite, Print, OptionalField, BytesField, OptionalSize, BytesSize, DerivationSize, DerivationBytes;
      j, more := WriteBytes(a, i, 4, preimages, before, tail);
      j, more := WriteDerivation(a, j, before, more);
      j, more := WriteOptional(a, j, 2, accountUpdate, codecs.accountUpdate.encode, before, more);
      j, more := WriteOptional(a, j, 1, trustedHeight, codecs.height.encode, before, more);
    }

    /** Fills the buffer backwards from `end` and returns the number of bytes written. */
    method MarshalToSizedBuffer(a: array<byte>, end: nat) returns (n: nat)
      requires HeaderSize(codecs, Value()) <= end <= a.Length < UINT64_LIMIT
      modifies a
      ensures n == HeaderSize(codecs, Value()) == |HeaderBytes(codecs, Value())|
      ensures a[..] == Overwrite(old(a[..]), end - n, HeaderBytes(codecs, Value()))
    {
      hide Overwrite, ListsInFront, SinglesInFront, ListsSize, SinglesSize, HeaderBytes;
      ghost var before, tail: seq<byte> := a[..], [];
      ghost var m := Value();
      HeaderParts(codecs, m);
      HeaderSizeExact(codecs, m);
      OverwriteNothing(before, end);
      var i: nat;
      i, tail := WriteLists(a, end, m, before, tail);
      i, tail := WriteSingles(a, i, m, before, tail);
      return end - i;
    }

    method Marshal() returns (a: array<byte>)
      requires HeaderSize(codecs, Value()) < INT64_LIMIT
      ensures a[..] == HeaderBytes(codecs, Value())
    {
      hide HeaderSize, HeaderBytes;
      a := new byte[HeaderSize(codecs, Value())];
      var n := MarshalToSizedBuffer(a, a.Length);
    }

    /** Merges the bytes of a nested derivation into the one that is there, or into a new one. */
    method UnmarshalDerivation(bytes: seq<byte>) returns (err: Option<WireError>)
      modifies Parts()
      ensures fresh(Parts() - old(Parts()))
      ensures unchanged(this) || derivation != null
      ensures trustedHeight == old(trustedHeight) && accountUpdate == old(accountUpdate)
      ensures preimages == old(preimages) && trustedToDeterministic == old(trustedToDeterministic)
      ensures deterministicToLatest == old(deterministicToLatest)
      ensures derivation != null
      ensures var target := Target(old(DerivationValue()), EMPTY_DERIVATION);
              match err
              case None => Parse(DERIVATION, target, bytes, 0) == Ok(derivation.Value())
              case Some(e) => Parse(DERIVATION, target, bytes, 0) == Err(e)
    {
      hide Parse;
      if derivation == null {
        derivation := new DerivationMessage();
      }
      err := derivation.Unmarshal(bytes);
    }

    /** One field, read from index `start` on: the index after it, or an error. */
    method UnmarshalField(data: seq<byte>, start: nat) returns (r: Result<nat, WireError>)
      requires start < |data|
      modifies Parts()
      ensures fresh(Parts() - old(Parts()))
      ensures match r
              case Ok(i) =>
                && start < i <= |data|
                && Step(HeaderSchema(codecs), old(Value()), data[start..], start) == Ok((Value(), i - start))
              case Err(e) => Step(HeaderSchema(codecs), old(Value()), data[start..], start) == Err(e)
    {
      hide ReadTag, ReadPayload, SkipUnknown, Parse;
      var tag := ReadTagAt(data, start);
      if tag.Err? {
        return Err(tag.error);
      }
      var (number, wireType, i) := tag.value;
      assert data[start..][i - start..] == data[i..];
      if number > 6 {
        r := SkipUnknownAt(data, start);
        return;
      }
      var field := ReadBytesField(data, i, wireType);
      if field.Err? {
        return Err(field.error);
      }
      var bytes, post := field.value.0, field.value.1;
      match number {
        case 1 =>
          var x := codecs.height.decode(Target(trustedHeight, codecs.height.empty), bytes);
          if x.Err? {
            return Err(x.error);
          }
          trustedHeight := Some(x.value);
        case 2 =>
          var x := codecs.accountUpdate.decode(Target(accountUpdate, codecs.accountUpdate.empty), bytes);
          if x.Err? {
            return Err(x.error);
          }
          accountUpdate := Some(x.value);
        case 3 =>
          var err := UnmarshalDerivation(bytes);
          if err.Some? {
            return Err(err.value);
          }
        case 4 => preimages := bytes;
        case 5 =>
          var x := codecs.l1Header.decode(codecs.l1Header.empty, bytes);
          if x.Err? {
            return Err(x.error);
          }
          trustedToDeterministic := trustedToDeterministic + [x.value];
        case _ =>
          var x := codecs.l1Header.decode(codecs.l1Header.empty, bytes);
          if x.Err? {
            return Err(x.error);
          }
          deterministicToLatest := deterministicToLatest + [x.value];
      }
      return Ok(post);
    }

    method Unmarshal(data: seq<byte>) returns (err: Option<WireError>)
      modifies Parts()
      ensures fresh(Parts() - old(Parts()))
      ensures match err
              case None => Parse(HeaderSchema(codecs), old(Value()), data, 0) == Ok(Value())
              case Some(e) => Parse(HeaderSchema(codecs), old(Value()), data, 0) == Err(e)
    {
      hide Step, HeaderSchema;
      var i := 0;
      while i < |data|
        invariant i <= |data|
        invariant fresh(Parts() - old(Parts()))
        invariant Parse(HeaderSchema(codecs), Value(), data[i..], i)
                  == Parse(HeaderSchema(codecs), old(Value()), data, 0)
      {
        var next := UnmarshalField(data, i);
        if next.Err? {
          return Some(next.error);
        }
        assert data[i..][next.value - i..] == data[next.value..];
        i := next.value;
      }
      return None;
    }
  }
}
