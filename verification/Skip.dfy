/**
  Skipping an unknown field, `skipOptimism` and `skipConfig`: one flat loop with a depth counter,
  against the recursive grammar of fields and groups in the sections "Message Structure" and "Groups"
  of the Protocol Buffers encoding specification.
  */
module Skip {
  import opened Integers
  import opened Wrappers
  import opened Varint

  // ---- The flat loop, as a function ----

  /** What one round reads after a tag: how far it moves and the depth it leaves. */
  function Body(wireType: nat, s: seq<byte>, depth: nat): (r: Result<(nat, nat), WireError>) {
    match wireType
    case 0 =>
      (match Decode(s)
       case Err(e) => Err(e)
       case Ok((_, n)) => Ok((n, depth)))
    case 1 => Ok((8, depth))
    case 2 =>
      (match Decode(s)
       case Err(e) => Err(e)
       case Ok((length, n)) => if length >= INT64_LIMIT then Err(InvalidLength) else Ok((n + length, depth)))
    case 3 => Ok((0, depth + 1))
    case 4 => if depth == 0 then Err(UnexpectedEndOfGroup) else Ok((0, depth - 1))
    case 5 => Ok((4, depth))
    case _ => Err(IllegalWireType)
  }

  /** One round on the bytes left, `i` bytes from the start: the new index and depth. */
  function Round(s: seq<byte>, i: nat, depth: nat): (r: Result<(nat, nat), WireError>)
    ensures r.Ok? ==> i < r.value.0
  {
    match Decode(s)
    case Err(e) => Err(e)
    case Ok((wire, k)) =>
      match Body(wire % 8, s[k..], depth)
      case Err(e) => Err(e)
      case Ok((n, depth')) => if i + k + n >= INT64_LIMIT then Err(InvalidLength) else Ok((i + k + n, depth'))
  }

  /** The index after the field in front of `s`. It can lie past the end, which callers check. */
  function SkipFrom(s: seq<byte>, i: nat, depth: nat): (r: Result<nat, WireError>)
    ensures r.Ok? ==> i < r.value
    decreases |s|
  {
    if s == [] then Err(UnexpectedEof)
    else
      match Round(s, i, depth)
      case Err(e) => Err(e)
      case Ok((j, depth')) =>
        if depth' == 0 then Ok(j)
        else if j - i > |s| then Err(UnexpectedEof)
        else SkipFrom(s[j - i..], j, depth')
  }

  // ---- The flat loop ----

  /** The body of the loop: a tag and what belongs to it. */
  method SkipRound(data: seq<byte>, start: nat, depthBefore: nat) returns (r: Result<(nat, nat), WireError>)
    requires start < |data|
    ensures r == Round(data[start..], start, depthBefore)
  {
    hide Decode;
    var tag := ReadVarint(data, start);
    if tag.Err? {
      return Err(tag.error);
    }
    var i, depth := tag.value.1, depthBefore;
    assert data[start..][i - start..] == data[i..];
    var wireType := tag.value.0 % 8;
    match wireType {
      case 0 =>
        var value := ReadVarint(data, i);
        if value.Err? {
          return Err(value.error);
        }
        i := value.value.1;
      case 1 => i := i + 8;
      case 2 =>
        var length := ReadVarint(data, i);
        if length.Err? {
          return Err(length.error);
        }
        if length.value.0 >= INT64_LIMIT {
          return Err(InvalidLength);
        }
        i := length.value.1 + length.value.0;
      case 3 => depth := depth + 1;
      case 4 =>
        if depth == 0 {
          return Err(UnexpectedEndOfGroup);
        }
        depth := depth - 1;
      case 5 => i := i + 4;
      case _ => return Err(IllegalWireType);
    }
    if i >= INT64_LIMIT {
      return Err(InvalidLength);
    }
    return Ok((i, depth));
  }

  method SkipField(data: seq<byte>) returns (r: Result<nat, WireError>)
    ensures r == SkipFrom(data, 0, 0)
  {
    hide Round;
    var i: nat := 0;
    var depth: nat := 0;
    while i < |data|
      invariant i <= |data| ==> SkipFrom(data, 0, 0) == SkipFrom(data[i..], i, depth)
      invariant i > |data| ==> SkipFrom(data, 0, 0) == Err(UnexpectedEof)
    {
      var round := SkipRound(data, i, depth);
      if round.Err? {
        return Err(round.error);
      }
      var (j, depth') := round.value;
      if depth' == 0 {
        return Ok(j);
      }
      if j <= |data| {
        assert data[i..][j - i..] == data[j..];
      }
      i, depth := j, depth';
    }
    return Err(UnexpectedEof);
  }

  // ---- The grammar ----

  /** A field with its bytes as they stand on the wire; varints need not be the shortest ones. */
  datatype Field =
    | VarintField(tag: seq<byte>, value: seq<byte>)
    | Fixed64Field(tag: seq<byte>, bytes: seq<byte>)
    | LengthField(tag: seq<byte>, length: seq<byte>, bytes: seq<byte>)
    | Group(tag: seq<byte>, members: Fields, end: seq<byte>)
    | Fixed32Field(tag: seq<byte>, bytes: seq<byte>)

  datatype Fields = NoFields | More(first: Field, rest: Fields)

  function FieldBytes(f: Field): seq<byte> {
    match f
    case VarintField(tag, value) => tag + value
    case Fixed64Field(tag, bytes) => tag + bytes
    case LengthField(tag, length, bytes) => tag + length + bytes
    case Group(tag, members, end) => tag + FieldsBytes(members) + end
    case Fixed32Field(tag, bytes) => tag + bytes
  }

  function FieldsBytes(fs: Fields): seq<byte> {
    match fs
    case NoFields => []
    case More(f, rest) => FieldBytes(f) + FieldsBytes(rest)
  }

  /** Exactly one varint. */
  predicate IsVarint(s: seq<byte>) {
    Decode(s).Ok? && Decode(s).value.1 == |s|
  }

  predicate IsTag(s: seq<byte>, wireType: nat) {
    IsVarint(s) && Decode(s).value.0 % 8 == wireType
  }

  /** The shape of a field. As in the loop, nothing here looks at field numbers. */
  predicate WellFormed(f: Field) {
    match f
    case VarintField(tag, value) => IsTag(tag, 0) && IsVarint(value)
    case Fixed64Field(tag, bytes) => IsTag(tag, 1) && |bytes| == 8
    case LengthField(tag, length, bytes) =>
      IsTag(tag, 2) && IsVarint(length) && Decode(length).value.0 == |bytes| < INT64_LIMIT
    case Group(tag, members, end) => IsTag(tag, 3) && AllWellFormed(members) && IsTag(end, 4)
    case Fixed32Field(tag, bytes) => IsTag(tag, 5) && |bytes| == 4
  }

  predicate AllWellFormed(fs: Fields) {
    match fs
    case NoFields => true
    case More(f, rest) => WellFormed(f) && AllWellFormed(rest)
  }

  // ---- Every field is skipped exactly ----

  lemma DecodeVarintIn(v: seq<byte>, rest: seq<byte>)
    requires IsVarint(v)
    ensures Decode(v + rest) == Decode(v) && (v + rest)[|v|..] == rest
  {
    DecodeExtend(v, rest);
  }

  /** The rest of the loop after `f`, which either ends it or is inside a group. */
  ghost function After(s: seq<byte>, i: nat, depth: nat): Result<nat, WireError> {
    if depth == 0 then Ok(i) else SkipFrom(s, i, depth)
  }

  lemma {:induction false} SkipLeaf(f: Field, rest: seq<byte>, i: nat, depth: nat)
    requires WellFormed(f) && !f.Group? && i + |FieldBytes(f)| < INT64_LIMIT
    ensures SkipFrom(FieldBytes(f) + rest, i, depth) == After(rest, i + |FieldBytes(f)|, depth)
  {
    hide Round, FieldBytes, WellFormed;
    RoundLeaf(f, rest, i, depth);
    assert (FieldBytes(f) + rest)[|FieldBytes(f)|..] == rest;
  }

  /** A round reads a field that is not a group. */
  lemma {:induction false} RoundLeaf(f: Field, rest: seq<byte>, i: nat, depth: nat)
    requires WellFormed(f) && !f.Group? && i + |FieldBytes(f)| < INT64_LIMIT
    ensures FieldBytes(f) != []
    ensures Round(FieldBytes(f) + rest, i, depth) == Ok((i + |FieldBytes(f)|, depth))
  {
    hide Decode;
    var s := FieldBytes(f) + rest;
    var payload := s[|f.tag|..];
    assert s == f.tag + payload;
    DecodeVarintIn(f.tag, payload);
    if f.VarintField? {
      assert payload == f.value + rest;
      DecodeVarintIn(f.value, rest);
    } else if f.LengthField? {
      assert payload == f.length + (f.bytes + rest);
      DecodeVarintIn(f.length, f.bytes + rest);
    }
  }

  lemma {:induction false} SkipGroupTag(tag: seq<byte>, rest: seq<byte>, i: nat, depth: nat)
    requires i + |tag| < INT64_LIMIT
    ensures IsTag(tag, 3) ==> SkipFrom(tag + rest, i, depth) == After(rest, i + |tag|, depth + 1)
    ensures IsTag(tag, 4) && 0 < depth ==> SkipFrom(tag + rest, i, depth) == After(rest, i + |tag|, depth - 1)
  {
    hide Decode;
    if IsVarint(tag) {
      DecodeVarintIn(tag, rest);
    }
  }

  lemma {:induction false} SkipOne(f: Field, rest: seq<byte>, i: nat, depth: nat)
    requires WellFormed(f) && i + |FieldBytes(f)| < INT64_LIMIT
    ensures SkipFrom(FieldBytes(f) + rest, i, depth) == After(rest, i + |FieldBytes(f)|, depth)
    decreases f
  {
    hide SkipFrom, IsVarint, Decode, Round;
    match f
    case Group(tag, members, end) =>
      var inner := FieldsBytes(members) + (end + rest);
      assert FieldBytes(f) + rest == tag + inner;
      SkipGroupTag(tag, inner, i, depth);
      SkipMany(members, end + rest, i + |tag|, depth + 1);
      SkipGroupTag(end, rest, i + |tag| + |FieldsBytes(members)|, depth + 1);
    case _ => SkipLeaf(f, rest, i, depth);
  }

  lemma {:induction false} SkipMany(fs: Fields, rest: seq<byte>, i: nat, depth: nat)
    requires AllWellFormed(fs) && i + |FieldsBytes(fs)| < INT64_LIMIT && 0 < depth
    ensures SkipFrom(FieldsBytes(fs) + rest, i, depth) == SkipFrom(rest, i + |FieldsBytes(fs)|, depth)
    decreases fs
  {
    hide SkipFrom, WellFormed;
    match fs
    case NoFields => assert FieldsBytes(fs) + rest == rest;
    case More(f, more) =>
      assert FieldsBytes(fs) + rest == FieldBytes(f) + (FieldsBytes(more) + rest);
      SkipOne(f, FieldsBytes(more) + rest, i, depth);
      SkipMany(more, rest, i + |FieldBytes(f)|, depth);
  }

  // ---- Only fields are skipped ----

  /** What the loop still has to read inside one open group: its remaining members and its end. */
  datatype Level = Level(members: Fields, end: seq<byte>)

  function LevelsBytes(levels: seq<Level>): seq<byte> {
    if levels == [] then []
    else FieldsBytes(levels[0].members) + levels[0].end + LevelsBytes(levels[1..])
  }

  predicate LevelsWellFormed(levels: seq<Level>) {
    levels != [] ==>
      AllWellFormed(levels[0].members) && IsTag(levels[0].end, 4) && LevelsWellFormed(levels[1..])
  }

  /** A round that stays inside the input reads a leaf field or the tag of a group. */
  lemma RoundReads(s: seq<byte>, i: nat, depth: nat) returns (tag: seq<byte>, leaf: Option<Field>)
    requires s != [] && Round(s, i, depth).Ok? && Round(s, i, depth).value.0 - i <= |s|
    ensures var (j, depth') := Round(s, i, depth).value;
            match leaf
            case Some(f) => WellFormed(f) && !f.Group? && FieldBytes(f) == s[..j - i] && depth' == depth
            case None => tag == s[..j - i]
                         && ((IsTag(tag, 3) && depth' == depth + 1) || (IsTag(tag, 4) && depth' == depth - 1))
  {
    hide Raw;
    var (wire, k) := Decode(s).value;
    var n := Round(s, i, depth).value.0 - i - k;
    tag, leaf := s[..k], None;
    var rest := s[k..];
    DecodePrefix(s);
    assert s[..k + n] == tag + rest[..n];
    match wire % 8
    case 0 =>
      DecodePrefix(rest);
      leaf := Some(VarintField(tag, rest[..n]));
    case 1 => leaf := Some(Fixed64Field(tag, rest[..n]));
    case 2 =>
      DecodePrefix(rest);
      var m := Decode(rest).value.1;
      assert rest[..n] == rest[..m] + rest[m..n];
      leaf := Some(LengthField(tag, rest[..m], rest[m..n]));
    case 5 => leaf := Some(Fixed32Field(tag, rest[..n]));
    case _ => assert s[..k + n] == tag;
  }

  lemma {:induction false} SkippedLevels(s: seq<byte>, i: nat, depth: nat) returns (levels: seq<Level>)
    requires 0 < depth && SkipFrom(s, i, depth).Ok? && SkipFrom(s, i, depth).value - i <= |s|
    ensures |levels| == depth && LevelsWellFormed(levels)
    ensures LevelsBytes(levels) == s[..SkipFrom(s, i, depth).value - i]
    decreases |s|
  {
    hide Round, IsTag, WellFormed, FieldBytes, LevelsBytes, LevelsWellFormed;
    var end := SkipFrom(s, i, depth).value;
    var (j, depth') := Round(s, i, depth).value;
    var tag, leaf := RoundReads(s, i, depth);
    var rest := s[j - i..];
    if depth' == 0 {
      levels := NewLevel(tag, []);
    } else {
      assert s[..end - i] == s[..j - i] + rest[..end - j];
      var inner := SkippedLevels(rest, j, depth');
      if leaf.Some? {
        levels := Prepend(leaf.value, inner);
      } else if depth' == depth - 1 {
        levels := NewLevel(tag, inner);
      } else {
        levels := CloseGroup(tag, inner);
      }
    }
  }

  lemma NewLevel(end: seq<byte>, levels: seq<Level>) returns (all: seq<Level>)
    requires IsTag(end, 4) && (levels == [] || LevelsWellFormed(levels))
    ensures |all| == |levels| + 1 && LevelsWellFormed(all)
    ensures LevelsBytes(all) == end + LevelsBytes(levels) && (levels == [] ==> LevelsBytes(all) == end)
  {
    hide IsTag;
    all := [Level(NoFields, end)] + levels;
    assert all[1..] == levels;
  }

  lemma Prepend(f: Field, levels: seq<Level>) returns (all: seq<Level>)
    requires WellFormed(f) && levels != [] && LevelsWellFormed(levels)
    ensures |all| == |levels| && LevelsWellFormed(all) && LevelsBytes(all) == FieldBytes(f) + LevelsBytes(levels)
  {
    hide Decode;
    hide IsTag, WellFormed, FieldBytes, LevelsBytes, LevelsWellFormed;
    var members := levels[0].members;
    all := [levels[0].(members := More(f, members))] + levels[1..];
    assert all[1..] == levels[1..];
    LevelsSplit(levels);
    LevelsSplit(all);
    assert FieldsBytes(More(f, members)) == FieldBytes(f) + FieldsBytes(members);
  }

  /** The innermost open group, opened by `tag`, becomes a member of the group around it. */
  lemma CloseGroup(tag: seq<byte>, levels: seq<Level>) returns (all: seq<Level>)
    requires IsTag(tag, 3) && |levels| >= 2 && LevelsWellFormed(levels)
    ensures |all| == |levels| - 1 && LevelsWellFormed(all) && LevelsBytes(all) == tag + LevelsBytes(levels)
  {
    hide IsTag, WellFormed, AllWellFormed, FieldBytes, FieldsBytes, LevelsBytes, LevelsWellFormed;
    LevelsSplit(levels);
    var group := GroupOf(tag, levels[0]);
    all := Prepend(group, levels[1..]);
    var inner, rest := FieldsBytes(levels[0].members) + levels[0].end, LevelsBytes(levels[1..]);
    Associative(tag, inner, rest);
  }

  lemma GroupOf(tag: seq<byte>, level: Level) returns (group: Field)
    requires IsTag(tag, 3) && AllWellFormed(level.members) && IsTag(level.end, 4)
    ensures WellFormed(group) && FieldBytes(group) == tag + (FieldsBytes(level.members) + level.end)
  {
    group := Group(tag, level.members, level.end);
    hide IsTag, FieldsBytes;
    Associative(tag, FieldsBytes(level.members), level.end);
  }

  lemma {:induction false} LevelsSplit(levels: seq<Level>)
    requires levels != []
    ensures LevelsBytes(levels) == FieldsBytes(levels[0].members) + levels[0].end + LevelsBytes(levels[1..])
    ensures LevelsWellFormed(levels)
       <==> AllWellFormed(levels[0].members) && IsTag(levels[0].end, 4) && LevelsWellFormed(levels[1..])
    ensures |levels| == 1 ==> LevelsBytes(levels) == FieldsBytes(levels[0].members) + levels[0].end
  {
    hide IsTag, AllWellFormed, FieldsBytes;
    assert |levels| == 1 ==> levels[1..] == [];
  }

  lemma SkippedField(s: seq<byte>) returns (f: Field)
    requires SkipFrom(s, 0, 0).Ok? && SkipFrom(s, 0, 0).value <= |s|
    ensures WellFormed(f) && FieldBytes(f) == s[..SkipFrom(s, 0, 0).value]
  {
    hide Round, IsTag, WellFormed, AllWellFormed, FieldBytes, FieldsBytes, LevelsBytes, LevelsWellFormed;
    var end := SkipFrom(s, 0, 0).value;
    var (j, depth') := Round(s, 0, 0).value;
    var tag, leaf := RoundReads(s, 0, 0);
    if leaf.Some? {
      f := leaf.value;
    } else {
      var rest := s[j..];
      assert s[..end] == s[..j] + rest[..end - j];
      var levels := SkippedLevels(rest, j, 1);
      LevelsSplit(levels);
      f := GroupOf(tag, levels[0]);
    }
  }

  /** Skipping `n` bytes that are there means there is a field of `n` bytes, and the other way round. */
  lemma {:induction false} SkipsExactlyFields(s: seq<byte>, n: nat)
    requires n <= |s| && n < INT64_LIMIT
    ensures SkipFrom(s, 0, 0) == Ok(n) <==> exists f :: WellFormed(f) && FieldBytes(f) == s[..n]
  {
    hide Round, Decode, SkipFrom, WellFormed, FieldBytes;
    if SkipFrom(s, 0, 0) == Ok(n) {
      var f := SkippedField(s);
    }
    if f :| WellFormed(f) && FieldBytes(f) == s[..n] {
      SkipOne(f, s[n..], 0, 0);
      assert s == FieldBytes(f) + s[n..];
    }
  }

  /** What a round refuses. */
  lemma RoundErrors(tag: seq<byte>, rest: seq<byte>, i: nat, depth: nat)
    requires IsVarint(tag)
    ensures var wireType, r := Decode(tag).value.0 % 8, Round(tag + rest, i, depth);
            && (wireType == 4 && depth == 0 ==> r == Err(UnexpectedEndOfGroup))
            && (wireType == 6 || wireType == 7 ==> r == Err(IllegalWireType))
            && (wireType == 0 && Decode(rest).Err? ==> r == Err(Decode(rest).error))
            && (wireType == 2 && Decode(rest).Err? ==> r == Err(Decode(rest).error))
            && (wireType == 2 && Decode(rest).Ok? && Decode(rest).value.0 >= INT64_LIMIT ==> r == Err(InvalidLength))
  {
    hide Decode;
    DecodeVarintIn(tag, rest);
  }

  /** Input that ends inside a group, or a length past its end there, is an unexpected end. */
  lemma {:induction false} SkipStops(s: seq<byte>, i: nat, depth: nat)
    ensures s == [] ==> SkipFrom(s, i, depth) == Err(UnexpectedEof)
    ensures s != [] && Round(s, i, depth).Err? ==> SkipFrom(s, i, depth) == Err(Round(s, i, depth).error)
    ensures s != [] && Round(s, i, depth).Ok? && Round(s, i, depth).value.0 - i > |s| && Round(s, i, depth).value.1 > 0
            ==> SkipFrom(s, i, depth) == Err(UnexpectedEof)
  {
  }

  // ---- The fields of the standard ----

  /** Every field number is one of the standard, and a group is closed by its own. */
  predicate Numbered(f: Field)
    requires WellFormed(f)
  {
    && IsNumber(TagNumber(f.tag))
    && (f.Group? ==> AllNumbered(f.members) && TagNumber(f.end) == TagNumber(f.tag))
  }

  predicate AllNumbered(fs: Fields)
    requires AllWellFormed(fs)
  {
    match fs
    case NoFields => true
    case More(f, rest) => Numbered(f) && AllNumbered(rest)
  }

  function TagNumber(tag: seq<byte>): nat
    requires IsVarint(tag)
  {
    Decode(tag).value.0 / 8
  }

  predicate IsNumber(n: nat) {
    0 < n < 0x2000_0000
  }

  predicate Strict(f: Field) {
    WellFormed(f) && Numbered(f)
  }

  lemma VarintUnique(v: seq<byte>, w: seq<byte>, r: seq<byte>, r': seq<byte>)
    requires IsVarint(v) && IsVarint(w) && v + r == w + r'
    ensures v == w && r == r'
  {
    hide Decode;
    DecodeVarintIn(v, r);
    DecodeVarintIn(w, r');
    assert (v + r)[..|v|] == v && (w + r')[..|w|] == w;
  }

  /** The wire type that a constructor stands for. */
  function WireType(f: Field): nat {
    match f
    case VarintField(_, _) => 0
    case Fixed64Field(_, _) => 1
    case LengthField(_, _, _) => 2
    case Group(_, _, _) => 3
    case Fixed32Field(_, _) => 5
  }

  /** What follows the tag of a field. */
  function AfterTag(f: Field): seq<byte> {
    match f
    case VarintField(_, value) => value
    case Fixed64Field(_, bytes) => bytes
    case LengthField(_, length, bytes) => length + bytes
    case Group(_, members, end) => FieldsBytes(members) + end
    case Fixed32Field(_, bytes) => bytes
  }

  lemma {:induction false} TagFirst(f: Field, r: seq<byte>)
    requires WellFormed(f)
    ensures IsTag(f.tag, WireType(f)) && FieldBytes(f) + r == f.tag + (AfterTag(f) + r)
  {
    hide IsTag, FieldsBytes;
    Associative(f.tag, AfterTag(f), r);
    assert FieldBytes(f) == f.tag + AfterTag(f);
  }

  lemma {:induction false} SameTag(f: Field, g: Field, r: seq<byte>, r': seq<byte>)
    requires WellFormed(f) && WellFormed(g) && FieldBytes(f) + r == FieldBytes(g) + r'
    ensures f.tag == g.tag && WireType(f) == WireType(g) && AfterTag(f) + r == AfterTag(g) + r'
  {
    hide WellFormed, FieldBytes, AfterTag;
    TagFirst(f, r);
    TagFirst(g, r');
    VarintUnique(f.tag, g.tag, AfterTag(f) + r, AfterTag(g) + r');
  }

  /** The grammar is unambiguous. */
  lemma {:induction false} FieldUnique(f: Field, g: Field, r: seq<byte>, r': seq<byte>)
    requires WellFormed(f) && WellFormed(g) && FieldBytes(f) + r == FieldBytes(g) + r'
    ensures f == g && r == r'
    decreases f
  {
    SameTag(f, g, r, r');
    hide Decode, FieldBytes, FieldsBytes, IsVarint;
    match f {
      case VarintField(_, value) => VarintUnique(value, g.value, r, r');
      case Fixed64Field(_, bytes) => SameLength(bytes, g.bytes, r, r');
      case LengthField(_, length, bytes) =>
        Associative(length, bytes, r);
        Associative(g.length, g.bytes, r');
        VarintUnique(length, g.length, bytes + r, g.bytes + r');
        SameLength(bytes, g.bytes, r, r');
      case Group(_, members, end) =>
        Associative(FieldsBytes(members), end, r);
        Associative(FieldsBytes(g.members), g.end, r');
        FieldsUnique(members, g.members, end, g.end, r, r');
      case Fixed32Field(_, bytes) => SameLength(bytes, g.bytes, r, r');
    }
  }

  lemma SameLength(a: seq<byte>, b: seq<byte>, r: seq<byte>, r': seq<byte>)
    requires |a| == |b| && a + r == b + r'
    ensures a == b && r == r'
  {
    assert (a + r)[..|a|] == a && (b + r')[..|b|] == b;
    assert (a + r)[|a|..] == r && (b + r')[|b|..] == r';
  }

  /** No field starts like the end of a group. */
  lemma {:induction false} EndIsNoField(f: Field, end: seq<byte>, r: seq<byte>, r': seq<byte>)
    requires WellFormed(f) && IsTag(end, 4)
    ensures FieldBytes(f) + r != end + r'
  {
    hide WellFormed, FieldBytes, AfterTag, Decode;
    TagFirst(f, r);
    if FieldBytes(f) + r == end + r' {
      VarintUnique(f.tag, end, AfterTag(f) + r, r');
    }
  }

  lemma {:induction false} FieldsUnique(fs: Fields, gs: Fields, end: seq<byte>, end': seq<byte>,
                                        r: seq<byte>, r': seq<byte>)
    requires AllWellFormed(fs) && AllWellFormed(gs) && IsTag(end, 4) && IsTag(end', 4)
    requires FieldsBytes(fs) + (end + r) == FieldsBytes(gs) + (end' + r')
    ensures fs == gs && end == end' && r == r'
    decreases fs
  {
    hide WellFormed, FieldBytes, Decode;
    match (fs, gs) {
      case (NoFields, NoFields) =>
        assert [] + (end + r) == end + r && [] + (end' + r') == end' + r';
        VarintUnique(end, end', r, r');
      case (NoFields, More(g, rest)) =>
        assert [] + (end + r) == end + r;
        Associative(FieldBytes(g), FieldsBytes(rest), end' + r');
        EndIsNoField(g, end, FieldsBytes(rest) + (end' + r'), r);
      case (More(f, rest), NoFields) =>
        assert [] + (end' + r') == end' + r';
        Associative(FieldBytes(f), FieldsBytes(rest), end + r);
        EndIsNoField(f, end', FieldsBytes(rest) + (end + r), r');
      case (More(f, rest), More(g, rest')) =>
        Associative(FieldBytes(f), FieldsBytes(rest), end + r);
        Associative(FieldBytes(g), FieldsBytes(rest'), end' + r');
        FieldUnique(f, g, FieldsBytes(rest) + (end + r), FieldsBytes(rest') + (end' + r'));
        FieldsUnique(rest, rest', end, end', r, r');
    }
  }

  /**
    What is skipped is a field of the standard exactly when the one field that the bytes stand for has
    only numbers of the standard and closes its groups by their own.
    */
  lemma {:induction false} SkippedIsStandardIff(s: seq<byte>, n: nat) returns (f: Field)
    requires SkipFrom(s, 0, 0) == Ok(n) && n <= |s|
    ensures WellFormed(f) && FieldBytes(f) == s[..n]
    ensures (exists g :: Strict(g) && FieldBytes(g) == s[..n]) <==> Strict(f)
  {
    hide SkipFrom, WellFormed, Numbered, FieldBytes;
    f := SkippedField(s);
    if g :| Strict(g) && FieldBytes(g) == s[..n] {
      FieldUnique(f, g, [], []);
    }
  }

  lemma OneByte(b: byte)
    requires b < 0x80
    ensures Decode([b]) == Ok((b, 1))
  {
  }

  /** A member numbered 0 is skipped inside a group, though it is an illegal tag anywhere else. */
  lemma NumberZeroSkipped()
    ensures var start, member, end := 9 * 8 + 3, 0 * 8 + 0, 9 * 8 + 4;
            SkipFrom([start, member, 5, end], 0, 0) == Ok(4)
  {
    var start, member, end: byte := 75, 0, 76;
    OneByte(start);
    OneByte(member);
    OneByte(5);
    OneByte(end);
    hide Decode;
    var inner := VarintField([member], [5]);
    var members := More(inner, NoFields);
    var f := Group([start], members, [end]);
    assert WellFormed(inner) && AllWellFormed(members) && WellFormed(f);
    assert FieldBytes(inner) == [member] + [5] && FieldsBytes(NoFields) == [];
    assert FieldsBytes(members) == FieldBytes(inner) + [];
    assert FieldBytes(f) == [start] + FieldsBytes(members) + [end];
    hide *;
    assert [start] + ([member] + [5] + []) + [end] + [] == [start, member, 5, end];
    SkipOne(f, [], 0, 0);
  }

  /** A group closed by the number of another field is skipped like any other. */
  lemma MismatchedGroupSkipped()
    ensures var start, end := 1 * 8 + 3, 2 * 8 + 4;
            SkipFrom([start, end], 0, 0) == Ok(2)
  {
    var start, end: byte := 11, 20;
    OneByte(start);
    OneByte(end);
    hide Decode;
    var f := Group([start], NoFields, [end]);
    assert FieldBytes(f) + [] == [start, end];
    SkipOne(f, [], 0, 0);
  }

  // ---- Locality ----

  lemma RoundExtend(s: seq<byte>, t: seq<byte>, i: nat, depth: nat)
    requires Round(s, i, depth).Ok?
    ensures Round(s + t, i, depth) == Round(s, i, depth)
  {
    DecodeExtend(s, t);
    var (wire, k) := Decode(s).value;
    assert (s + t)[k..] == s[k..] + t;
    if wire % 8 == 0 || wire % 8 == 2 {
      DecodeExtend(s[k..], t);
    }
  }

  lemma {:induction false} SkipExtend(s: seq<byte>, t: seq<byte>, i: nat, depth: nat)
    requires SkipFrom(s, i, depth).Ok?
    ensures SkipFrom(s + t, i, depth) == SkipFrom(s, i, depth)
    decreases |s|
  {
    hide Round, Decode;
    RoundExtend(s, t, i, depth);
    var (j, depth') := Round(s, i, depth).value;
    if depth' != 0 {
      assert (s + t)[j - i..] == s[j - i..] + t;
      SkipExtend(s[j - i..], t, j, depth');
    }
  }
}
