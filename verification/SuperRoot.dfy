/**
  The encoded super root that a dispute game carries, and the search for a chain's output root in it.
  Hashing the encoding is not part of this model.
  */
module SuperRoot {
  import opened Integers
  import opened Wrappers

  const VERSION: byte := 1
  const HEADER_SIZE: nat := 9
  const ENTRY_SIZE: nat := 64

  datatype Entry = Entry(chainId: nat, outputRoot: seq<byte>)

  datatype Root = Root(version: byte, timestamp: nat, entries: seq<Entry>)

  datatype DecodeError = TooShort | UnexpectedVersion | UnexpectedSize

  // ---- Big-endian numbers ----

  function FromBytes(b: seq<byte>): nat {
    if b == [] then 0 else FromBytes(b[..|b| - 1]) * 256 + b[|b| - 1]
  }

  function ToBytes(v: nat, n: nat): (b: seq<byte>)
    ensures |b| == n
  {
    if n == 0 then [] else ToBytes(v / 256, n - 1) + [v % 256]
  }

  function Pow256(n: nat): nat {
    if n == 0 then 1 else 256 * Pow256(n - 1)
  }

  lemma {:induction false} FromToBytes(v: nat, n: nat)
    requires v < Pow256(n)
    ensures FromBytes(ToBytes(v, n)) == v
  {
    if n > 0 {
      FromToBytes(v / 256, n - 1);
      assert ToBytes(v, n)[..n - 1] == ToBytes(v / 256, n - 1);
    }
  }

  lemma {:induction false} ToFromBytes(b: seq<byte>)
    ensures FromBytes(b) < Pow256(|b|) && ToBytes(FromBytes(b), |b|) == b
  {
    if b != [] {
      ToFromBytes(b[..|b| - 1]);
      assert b[..|b| - 1] + [b[|b| - 1]] == b;
    }
  }

  /** The first byte is the highest. */
  lemma {:induction false} FromBytesFirst(b: byte, rest: seq<byte>)
    ensures FromBytes([b] + rest) == (b as nat) * Pow256(|rest|) + FromBytes(rest)
  {
    if rest == [] {
      assert ([b] + rest)[..0] == [] && FromBytes([]) == 0;
    } else {
      var front, last := rest[..|rest| - 1], rest[|rest| - 1];
      FromBytesFirst(b, front);
      assert ([b] + rest)[..|rest|] == [b] + front;
    }
  }

  lemma Pow256Values()
    ensures Pow256(0) == 1 && Pow256(1) == 0x100 && Pow256(2) == 0x1_0000 && Pow256(3) == 0x100_0000
    ensures Pow256(4) == 0x1_0000_0000 && Pow256(5) == 0x100_0000_0000 && Pow256(6) == 0x1_0000_0000_0000
    ensures Pow256(7) == 0x100_0000_0000_0000 && Pow256(8) == 0x1_0000_0000_0000_0000
  {
    assert Pow256(2) == 256 * Pow256(1) && Pow256(3) == 256 * Pow256(2) && Pow256(4) == 256 * Pow256(3);
    assert Pow256(5) == 256 * Pow256(4) && Pow256(6) == 256 * Pow256(5);
    assert Pow256(7) == 256 * Pow256(6) && Pow256(8) == 256 * Pow256(7);
  }

  function Quad(a: nat, b: nat, c: nat, d: nat): nat {
    a * 0x100_0000 + b * 0x1_0000 + c * 0x100 + d
  }

  lemma {:induction false} FromFourBytes(b: seq<byte>)
    requires |b| == 4
    ensures FromBytes(b) == Quad(b[0], b[1], b[2], b[3])
  {
    assert b == [b[0]] + b[1..] && b[1..] == [b[1]] + b[2..] && b[2..] == [b[2]] + b[3..] && b[3..] == [b[3]] + [];
    FromBytesFirst(b[0], b[1..]);
    FromBytesFirst(b[1], b[2..]);
    FromBytesFirst(b[2], b[3..]);
    FromBytesFirst(b[3], []);
    Pow256Values();
  }

  lemma {:induction false} FromEightBytes(b: seq<byte>)
    requires |b| == 8
    ensures FromBytes(b) == FromBytes(b[..4]) * 0x1_0000_0000 + FromBytes(b[4..])
  {
    FromBytesConcat(b[..4], b[4..]);
    assert b == b[..4] + b[4..];
    Pow256Values();
  }

  lemma {:induction false} FromBytesConcat(a: seq<byte>, b: seq<byte>)
    ensures FromBytes(a + b) == FromBytes(a) * Pow256(|b|) + FromBytes(b)
  {
    if b == [] {
      assert a + b == a;
    } else {
      var front := b[..|b| - 1];
      FromBytesConcat(a, front);
      assert (a + b)[..|a + b| - 1] == a + front;
      hide FromBytes;
      assert FromBytes(a) * (256 * Pow256(|front|)) == (FromBytes(a) * Pow256(|front|)) * 256;
    }
  }

  // ---- Decoding and encoding ----

  function DecodeEntry(s: seq<byte>): Entry
    requires |s| == ENTRY_SIZE
  {
    Entry(FromBytes(s[..32]), s[32..])
  }

  function DecodeEntries(s: seq<byte>): seq<Entry>
    requires |s| % ENTRY_SIZE == 0
  {
    if s == [] then [] else [DecodeEntry(s[..ENTRY_SIZE])] + DecodeEntries(s[ENTRY_SIZE..])
  }

  function Decode(raw: seq<byte>): Result<Root, DecodeError> {
    if |raw| < HEADER_SIZE then Err(TooShort)
    else if raw[0] != VERSION then Err(UnexpectedVersion)
    else if |raw| == HEADER_SIZE || (|raw| - HEADER_SIZE) % ENTRY_SIZE != 0 then Err(UnexpectedSize)
    else Ok(Root(raw[0], FromBytes(raw[1..HEADER_SIZE]), DecodeEntries(raw[HEADER_SIZE..])))
  }

  function EncodeEntries(entries: seq<Entry>): seq<byte> {
    if entries == [] then []
    else ToBytes(entries[0].chainId, 32) + entries[0].outputRoot + EncodeEntries(entries[1..])
  }

  function Encode(r: Root): seq<byte> {
    [r.version] + ToBytes(r.timestamp, 8) + EncodeEntries(r.entries)
  }

  predicate ValidEntry(e: Entry) {
    e.chainId < Pow256(32) && |e.outputRoot| == 32
  }

  predicate Valid(r: Root) {
    && r.version == VERSION
    && r.timestamp < Pow256(8)
    && r.entries != []
    && forall e :: e in r.entries ==> ValidEntry(e)
  }

  lemma {:induction false} EntriesDecodeEncode(entries: seq<Entry>)
    requires forall e :: e in entries ==> ValidEntry(e)
    ensures |EncodeEntries(entries)| == ENTRY_SIZE * |entries|
    ensures DecodeEntries(EncodeEntries(entries)) == entries
  {
    hide FromBytes, ToBytes, Pow256;
    if entries != [] {
      var e, rest := entries[0], EncodeEntries(entries[1..]);
      var s := EncodeEntries(entries);
      var id := ToBytes(e.chainId, 32);
      assert ValidEntry(e);
      EntriesDecodeEncode(entries[1..]);
      FromToBytes(e.chainId, 32);
      assert s == (id + e.outputRoot) + rest && |id + e.outputRoot| == ENTRY_SIZE;
      assert s[..ENTRY_SIZE] == id + e.outputRoot && s[ENTRY_SIZE..] == rest;
      assert (id + e.outputRoot)[..32] == id && (id + e.outputRoot)[32..] == e.outputRoot;
    }
  }

  lemma {:induction false} EntriesEncodeDecode(s: seq<byte>)
    requires |s| % ENTRY_SIZE == 0
    ensures EncodeEntries(DecodeEntries(s)) == s
    ensures s != [] ==> DecodeEntries(s) != []
    ensures forall e :: e in DecodeEntries(s) ==> ValidEntry(e)
  {
    hide FromBytes, ToBytes, Pow256;
    if s != [] {
      var first := s[..ENTRY_SIZE];
      EntriesEncodeDecode(s[ENTRY_SIZE..]);
      ToFromBytes(first[..32]);
      assert first == first[..32] + first[32..];
      assert s == first + s[ENTRY_SIZE..];
      assert DecodeEntries(s)[1..] == DecodeEntries(s[ENTRY_SIZE..]);
    }
  }

  /** Decoding any encoding gives back its fields. */
  lemma DecodeEncode(r: Root)
    requires Valid(r)
    ensures Decode(Encode(r)) == Ok(r)
  {
    hide FromBytes, ToBytes, Pow256, DecodeEntries, EncodeEntries, ValidEntry;
    var raw := Encode(r);
    EntriesDecodeEncode(r.entries);
    FromToBytes(r.timestamp, 8);
    assert raw[1..HEADER_SIZE] == ToBytes(r.timestamp, 8);
    assert raw[HEADER_SIZE..] == EncodeEntries(r.entries);
  }

  /** Encoding what was decoded gives back the bytes. */
  lemma EncodeDecode(raw: seq<byte>)
    requires Decode(raw).Ok?
    ensures Valid(Decode(raw).value) && Encode(Decode(raw).value) == raw
  {
    hide FromBytes, ToBytes, Pow256, DecodeEntries, EncodeEntries, ValidEntry;
    EntriesEncodeDecode(raw[HEADER_SIZE..]);
    ToFromBytes(raw[1..HEADER_SIZE]);
    assert raw == [raw[0]] + raw[1..HEADER_SIZE] + raw[HEADER_SIZE..];
  }

  /** Accepted are exactly the encodings, and those are exactly the well-sized strings of the version. */
  lemma AcceptedIffEncoding(raw: seq<byte>)
    ensures Decode(raw).Ok? <==> exists r :: Valid(r) && Encode(r) == raw
    ensures Decode(raw).Ok? <==>
            |raw| >= 73 && raw[0] == 1 && (|raw| - 9) % 64 == 0
  {
    hide Valid, Encode;
    if Decode(raw).Ok? {
      EncodeDecode(raw);
    }
    if r :| Valid(r) && Encode(r) == raw {
      DecodeEncode(r);
    }
  }

  /** Where the parts of an accepted string stand. */
  lemma DecodeLayout(raw: seq<byte>)
    requires Decode(raw).Ok?
    ensures var r, n := Decode(raw).value, (|raw| - 9) / 64;
            && |raw| == 9 + 64 * n && 0 < n
            && r.version == raw[0] == 1
            && r.timestamp == FromBytes(raw[1..9])
            && |r.entries| == n
            && forall i :: 0 <= i < n ==>
                 r.entries[i] == Entry(FromBytes(raw[9 + 64 * i..41 + 64 * i]), raw[41 + 64 * i..73 + 64 * i])
  {
    var n := (|raw| - 9) / 64;
    assert |raw| == 9 + 64 * n;
    hide FromBytes, DecodeEntries;
    EntriesAt(raw, 9, n, 0);
    forall i | 0 <= i < n
      ensures Decode(raw).value.entries[i]
              == Entry(FromBytes(raw[9 + 64 * i..41 + 64 * i]), raw[41 + 64 * i..73 + 64 * i])
    {
      EntriesAt(raw, 9, n, i);
    }
  }

  lemma {:induction false} EntriesAt(raw: seq<byte>, offset: nat, n: nat, i: nat)
    requires |raw| == offset + 64 * n && i < n
    ensures |DecodeEntries(raw[offset..])| == n && DecodeEntries(raw[offset..])[i] == EntryAt(raw, offset + 64 * i)
    decreases n
  {
    hide DecodeEntries, EntryAt;
    NextEntry(raw, offset);
    if n == 1 {
      NoEntries([], raw);
    } else {
      EntriesAt(raw, offset + 64, n - 1, if i == 0 then 0 else i - 1);
    }
  }

  /** The three errors, by size and first byte. */
  lemma DecodeErrors(raw: seq<byte>)
    ensures Decode(raw) == Err(TooShort) <==> |raw| < 9
    ensures Decode(raw) == Err(UnexpectedVersion) <==> |raw| >= 9 && raw[0] != 1
    ensures Decode(raw) == Err(UnexpectedSize)
       <==> |raw| >= 9 && raw[0] == 1 && (|raw| == 9 || (|raw| - 9) % 64 != 0)
  {
    hide DecodeEntries, FromBytes;
  }

  lemma DecodeInjective(raw: seq<byte>, other: seq<byte>)
    requires Decode(raw).Ok? && Decode(raw) == Decode(other)
    ensures raw == other
  {
    hide Decode, Encode, Valid;
    EncodeDecode(raw);
    EncodeDecode(other);
  }

  // ---- The loops ----

  function EntryAt(raw: seq<byte>, offset: nat): Entry
    requires offset + ENTRY_SIZE <= |raw|
  {
    Entry(FromBytes(raw[offset..offset + 32]), raw[offset + 32..offset + ENTRY_SIZE])
  }

  lemma NextEntry(raw: seq<byte>, offset: nat)
    requires offset + ENTRY_SIZE <= |raw| && (|raw| - offset) % ENTRY_SIZE == 0
    ensures DecodeEntries(raw[offset..]) == [EntryAt(raw, offset)] + DecodeEntries(raw[offset + ENTRY_SIZE..])
  {
    hide FromBytes;
    var s := raw[offset..];
    assert s[..ENTRY_SIZE][..32] == raw[offset..offset + 32];
    assert s[..ENTRY_SIZE][32..] == raw[offset + 32..offset + ENTRY_SIZE];
    assert s[ENTRY_SIZE..] == raw[offset + ENTRY_SIZE..];
  }

  lemma NextEntries(read: seq<Entry>, raw: seq<byte>, offset: nat)
    requires offset < |raw| && (|raw| - offset) % ENTRY_SIZE == 0
    ensures offset + ENTRY_SIZE <= |raw| && (|raw| - (offset + ENTRY_SIZE)) % ENTRY_SIZE == 0
    ensures read + DecodeEntries(raw[offset..])
            == read + [EntryAt(raw, offset)] + DecodeEntries(raw[offset + ENTRY_SIZE..])
  {
    hide DecodeEntries, EntryAt;
    NextEntry(raw, offset);
    var entry, rest := [EntryAt(raw, offset)], DecodeEntries(raw[offset + ENTRY_SIZE..]);
    assert read + (entry + rest) == read + entry + rest;
  }

  lemma NoEntries(read: seq<Entry>, raw: seq<byte>)
    ensures read + DecodeEntries(raw[|raw|..]) == read
  {
  }

  method DecodeSuperRootProof(raw: seq<byte>) returns (r: Result<Root, DecodeError>)
    ensures r == Decode(raw)
  {
    hide FromBytes, DecodeEntries;
    if |raw| < HEADER_SIZE {
      return Err(TooShort);
    }
    if raw[0] != VERSION {
      return Err(UnexpectedVersion);
    }
    var size := |raw| - HEADER_SIZE;
    if size == 0 || size % ENTRY_SIZE != 0 {
      return Err(UnexpectedSize);
    }
    var entries: seq<Entry> := [];
    var offset := HEADER_SIZE;
    while offset < |raw|
      invariant HEADER_SIZE <= offset <= |raw| && (|raw| - offset) % ENTRY_SIZE == 0
      invariant entries + DecodeEntries(raw[offset..]) == DecodeEntries(raw[HEADER_SIZE..])
    {
      NextEntries(entries, raw, offset);
      var chainId := FromBytes(raw[offset..offset + 32]);
      var entry := Entry(chainId, raw[offset + 32..offset + ENTRY_SIZE]);
      entries := entries + [entry];
      offset := offset + ENTRY_SIZE;
    }
    assert offset == |raw|;
    NoEntries(entries, raw);
    return Ok(Root(raw[0], FromBytes(raw[1..HEADER_SIZE]), entries));
  }

  /** The output root of the first entry of a chain. */
  method OutputRootOf(r: Root, chainId: nat) returns (root: Option<seq<byte>>)
    ensures root.None? <==> forall e :: e in r.entries ==> e.chainId != chainId
    ensures root.Some? ==>
              exists i :: && 0 <= i < |r.entries|
                          && r.entries[i] == Entry(chainId, root.value)
                          && forall j :: 0 <= j < i ==> r.entries[j].chainId != chainId
  {
    for i := 0 to |r.entries|
      invariant forall j :: 0 <= j < i ==> r.entries[j].chainId != chainId
    {
      if r.entries[i].chainId == chainId {
        return Some(r.entries[i].outputRoot);
      }
    }
    return None;
  }

  // ---- Game identifiers ----

  function UnpackGameId(id: seq<byte>): (nat, nat, seq<byte>)
    requires |id| == 32
  {
    (FromBytes(id[..4]), FromBytes(id[4..12]), id[12..])
  }

  /** Four bytes of game type, eight of timestamp, highest first, and twenty of address. */
  lemma UnpackGameIdLayout(id: seq<byte>)
    requires |id| == 32
    ensures var (gameType, timestamp, game) := UnpackGameId(id);
            && gameType == Quad(id[0], id[1], id[2], id[3])
            && timestamp == Quad(id[4], id[5], id[6], id[7]) * 0x1_0000_0000 + Quad(id[8], id[9], id[10], id[11])
            && |game| == 20 && forall i :: 0 <= i < 20 ==> game[i] == id[12 + i]
  {
    hide FromBytes;
    FromFourBytes(id[..4]);
    var t := id[4..12];
    FromEightBytes(t);
    FromFourBytes(t[..4]);
    FromFourBytes(t[4..]);
  }

  /** No two identifiers unpack to the same game. */
  lemma UnpackGameIdInjective(id: seq<byte>, other: seq<byte>)
    requires |id| == |other| == 32 && UnpackGameId(id) == UnpackGameId(other)
    ensures id == other
  {
    ToFromBytes(id[..4]);
    ToFromBytes(other[..4]);
    ToFromBytes(id[4..12]);
    ToFromBytes(other[4..12]);
    assert id == id[..4] + id[4..12] + id[12..];
    assert other == other[..4] + other[4..12] + other[12..];
  }
}
