/**
  Base 128 varints, after the section of that name in the Protocol Buffers encoding specification,
  with the 64-bit arithmetic of the generated code; a shift drops what leaves the 64-bit word.
  */
module Varint {
  import opened Integers
  import opened Wrappers

  datatype WireError =
    | IntOverflow
    | UnexpectedEof
    | InvalidLength
    | UnexpectedEndOfGroup
    | IllegalWireType
    | EndGroupForNonGroup
    | IllegalTag
    | WrongWireType
    | SubMessage(code: nat)

  function Encode(v: nat): (s: seq<byte>)
    ensures s != []
  {
    if v < 0x80 then [v] else [v % 0x80 + 0x80] + Encode(v / 0x80)
  }

  // ---- The size formula ----

  function BitLength(x: nat): nat {
    if x == 0 then 0 else 1 + BitLength(x / 2)
  }

  /** `sovOptimism` and `sovConfig`; `x | 1` sets the lowest bit. */
  function Size(x: nat): nat {
    (BitLength(if x % 2 == 0 then x + 1 else x) + 6) / 7
  }

  lemma {:induction false} BitLengthShift7(x: nat)
    requires 0x80 <= x
    ensures BitLength(x) == BitLength(x / 0x80) + 7
  {
    var a := x / 2;
    var b, c, d, e, f, g := a / 2, a / 4, a / 8, a / 16, a / 32, a / 64;
    assert b / 2 == c && c / 2 == d && d / 2 == e && e / 2 == f && f / 2 == g && g == x / 0x80;
    assert BitLength(x) == 1 + BitLength(a) == 2 + BitLength(b) == 3 + BitLength(c);
    assert BitLength(c) == 1 + BitLength(d) == 2 + BitLength(e) == 3 + BitLength(f) == 4 + BitLength(g);
  }

  lemma BitLengthOdd(x: nat)
    requires 0 < x && x % 2 == 0
    ensures BitLength(x + 1) == BitLength(x)
  {
    assert (x + 1) / 2 == x / 2;
  }

  lemma {:induction false} BitLengthSmall(x: nat)
    requires 0 < x < 0x80
    ensures 1 <= BitLength(x) <= 7
  {
    var a, b, c := x / 2, x / 4, x / 8;
    var d, e, f := x / 16, x / 32, x / 64;
    assert f / 2 == 0 && e / 2 == f && d / 2 == e && c / 2 == d && b / 2 == c && a / 2 == b;
    assert BitLength(f) <= 1 && BitLength(e) <= 2 && BitLength(d) <= 3;
    assert BitLength(c) <= 4 && BitLength(b) <= 5 && BitLength(a) <= 6;
  }

  /** The bit-length formula counts the bytes that the encoding loop writes. */
  lemma {:induction false} SizeExact(v: nat)
    ensures Size(v) == |Encode(v)|
  {
    if v < 0x80 {
      BitLengthSmall(if v % 2 == 0 then v + 1 else v);
    } else {
      SizeExact(v / 0x80);
      BitLengthShift7(v);
      if v % 2 == 0 {
        BitLengthOdd(v);
      }
      if v / 0x80 % 2 == 0 {
        BitLengthOdd(v / 0x80);
      }
    }
  }

  lemma {:induction false} EncodeLength(v: nat, n: nat, limit: nat)
    requires v < limit && limit <= Pow2(7 * n) && 0 < n
    ensures |Encode(v)| <= n
    decreases n
  {
    if v >= 0x80 {
      if n == 1 {
        assert Pow2(7) == 0x80 by { Pow2Step(0); }
        assert false;
      }
      Pow2Step(7 * (n - 1));
      EncodeLength(v / 0x80, n - 1, Pow2(7 * (n - 1)));
    }
  }

  lemma {:induction false} Uint64Length(v: uint64)
    ensures 1 <= |Encode(v)| <= 10
  {
    Pow2Table();
    Pow2Step(63);
    EncodeLength(v, 10, UINT64_LIMIT);
  }

  // ---- Powers of two ----

  function Pow2(n: nat): nat {
    if n == 0 then 1 else 2 * Pow2(n - 1)
  }

  lemma Pow2Step(n: nat)
    ensures Pow2(n + 7) == 0x80 * Pow2(n)
  {
    assert Pow2(n + 7) == 2 * Pow2(n + 6) == 4 * Pow2(n + 5) == 8 * Pow2(n + 4);
    assert Pow2(n + 4) == 2 * Pow2(n + 3) == 4 * Pow2(n + 2) == 8 * Pow2(n + 1) == 16 * Pow2(n);
  }

  lemma Pow2Table()
    ensures Pow2(56) == 0x100_0000_0000_0000 && Pow2(63) == INT64_LIMIT
  {
    Pow2Step(0); Pow2Step(7); Pow2Step(14); Pow2Step(21); Pow2Step(28);
    Pow2Step(35); Pow2Step(42); Pow2Step(49); Pow2Step(56);
  }

  // ---- Bitwise or ----

  /** `|` on words of `bits` bits. */
  function BitOr(x: nat, y: nat, bits: nat): (r: nat)
    ensures r < Pow2(bits)
  {
    if bits == 0 then 0
    else (if x % 2 == 1 || y % 2 == 1 then 1 else 0) + 2 * BitOr(x / 2, y / 2, bits - 1)
  }

  /** `|` on 64-bit words. */
  function Or64(x: uint64, y: uint64): uint64 {
    Pow2Table();
    BitOr(x, y, 64)
  }

  lemma {:induction false} BitOrZero(y: nat, bits: nat)
    requires y < Pow2(bits)
    ensures BitOr(0, y, bits) == y
  {
    if bits > 0 {
      BitOrZero(y / 2, bits - 1);
    }
  }

  lemma Or64Zero(y: uint64)
    ensures Or64(0, y) == y
  {
    Pow2Table();
    BitOrZero(y, 64);
  }

  lemma {:induction false} BitOrCommutes(x: nat, y: nat, bits: nat)
    ensures BitOr(x, y, bits) == BitOr(y, x, bits)
  {
    if bits > 0 {
      BitOrCommutes(x / 2, y / 2, bits - 1);
    }
  }

  lemma {:induction false} BitOrSame(x: nat, bits: nat)
    requires x < Pow2(bits)
    ensures BitOr(x, x, bits) == x
  {
    if bits > 0 {
      BitOrSame(x / 2, bits - 1);
    }
  }

  lemma BitOrStep(x: nat, y: nat, bits: nat)
    requires 0 < bits
    ensures BitOr(x, y, bits) % 2 == (if x % 2 == 1 || y % 2 == 1 then 1 else 0)
    ensures BitOr(x, y, bits) / 2 == BitOr(x / 2, y / 2, bits - 1)
  {
    var low, high := if x % 2 == 1 || y % 2 == 1 then 1 else 0, BitOr(x / 2, y / 2, bits - 1);
    assert BitOr(x, y, bits) == low + 2 * high;
    hide BitOr;
    QuotientUnique(low + 2 * high, high, low, 2);
  }

  /** All bits of `x | y` are in `a` exactly when those of both are. */
  lemma {:induction false} BitOrCovered(x: nat, y: nat, a: nat, bits: nat)
    requires a < Pow2(bits)
    ensures BitOr(BitOr(x, y, bits), a, bits) == a <==> BitOr(x, a, bits) == a && BitOr(y, a, bits) == a
  {
    if bits > 0 {
      var z := BitOr(x, y, bits);
      BitOrStep(x, y, bits);
      BitOrStep(x, a, bits);
      BitOrStep(y, a, bits);
      BitOrStep(z, a, bits);
      BitOrCovered(x / 2, y / 2, a / 2, bits - 1);
      SameHalves(BitOr(z, a, bits), a);
      SameHalves(BitOr(x, a, bits), a);
      SameHalves(BitOr(y, a, bits), a);
    }
  }

  lemma SameHalves(x: nat, y: nat)
    ensures x == y <==> x / 2 == y / 2 && x % 2 == y % 2
  {
  }

  /** All bits of `x` are in `a`. */
  predicate Covered(x: uint64, a: uint64) {
    Or64(x, a) == a
  }

  lemma OrCovered(x: uint64, y: uint64, a: uint64)
    ensures Covered(Or64(x, y), a) <==> Covered(x, a) && Covered(y, a)
    ensures Covered(a, a)
    ensures Covered(x, a) && Covered(a, x) ==> x == a
  {
    Pow2Table();
    BitOrCovered(x, y, a, 64);
    BitOrSame(a, 64);
    BitOrCommutes(x, a, 64);
  }

  /** Bits that go above the ones that are there are added. */
  lemma {:induction false} OrAbove(v: nat, x: nat, m: nat, bits: nat)
    requires v < Pow2(m) && v + x * Pow2(m) < Pow2(bits)
    ensures BitOr(v, x * Pow2(m), bits) == v + x * Pow2(m)
  {
    if m == 0 {
      BitOrZero(x, bits);
    } else if bits > 0 {
      var high := x * Pow2(m - 1);
      assert x * Pow2(m) == 2 * high;
      OrAbove(v / 2, x, m - 1, bits - 1);
    } else {
      assert v == 0 && x * Pow2(m) == 0;
    }
  }

  // ---- Decoding ----

  /**
    The value and the length of the varint in front of `s`, `k` bytes of it being read already. An
    eleventh byte is an overflow; the value is not cut to 64 bits yet.
    */
  function Raw(s: seq<byte>, k: nat): (r: Result<(nat, nat), WireError>)
    requires k <= 10
    ensures r.Ok? ==> 0 < r.value.1 <= |s| && r.value.1 <= 10 - k
    decreases 10 - k
  {
    if k == 10 then Err(IntOverflow)
    else if s == [] then Err(UnexpectedEof)
    else if s[0] < 0x80 then Ok((s[0], 1))
    else Continued(s[0], Raw(s[1..], k + 1))
  }

  /** A byte with the continuation bit in front of the rest of a varint. */
  function Continued(b: byte, rest: Result<(nat, nat), WireError>): Result<(nat, nat), WireError>
    requires 0x80 <= b
  {
    match rest
    case Err(e) => Err(e)
    case Ok((v, n)) => Ok((b - 0x80 + 0x80 * v, n + 1))
  }

  function Decode(s: seq<byte>): (r: Result<(uint64, nat), WireError>)
    ensures r.Ok? ==> 0 < r.value.1 <= |s|
  {
    match Raw(s, 0)
    case Err(e) => Err(e)
    case Ok((v, n)) => Ok((v % UINT64_LIMIT, n))
  }

  lemma {:induction false} RawEncode(v: nat, rest: seq<byte>, k: nat)
    requires k + |Encode(v)| <= 10
    ensures Raw(Encode(v) + rest, k) == Ok((v, |Encode(v)|))
    decreases 10 - k
  {
    if v >= 0x80 {
      RawEncode(v / 0x80, rest, k + 1);
      assert (Encode(v) + rest)[1..] == Encode(v / 0x80) + rest;
    }
  }

  /** Every 64-bit value is read back, whatever follows its encoding. */
  lemma {:induction false} DecodeEncode(v: uint64, rest: seq<byte>)
    ensures Decode(Encode(v) + rest) == Ok((v, |Encode(v)|))
  {
    hide Raw, Encode;
    Uint64Length(v);
    RawEncode(v, rest, 0);
    WordRemainder(v, 0, v);
  }

  lemma {:induction false} RawExtend(s: seq<byte>, t: seq<byte>, k: nat)
    requires k <= 10 && Raw(s, k).Ok?
    ensures Raw(s + t, k) == Raw(s, k)
    decreases 10 - k
  {
    if s[0] >= 0x80 {
      RawExtend(s[1..], t, k + 1);
      assert (s + t)[1..] == s[1..] + t;
    }
  }

  /** A varint is read without looking at what follows it. */
  lemma DecodeExtend(s: seq<byte>, t: seq<byte>)
    requires Decode(s).Ok?
    ensures Decode(s + t) == Decode(s)
  {
    RawExtend(s, t, 0);
  }

  lemma {:induction false} RawPrefix(s: seq<byte>, k: nat)
    requires k <= 10 && Raw(s, k).Ok?
    ensures Raw(s[..Raw(s, k).value.1], k) == Raw(s, k)
    decreases 10 - k
  {
    if s[0] >= 0x80 {
      RawPrefix(s[1..], k + 1);
      var n := Raw(s, k).value.1;
      assert s[..n][1..] == s[1..][..n - 1];
    }
  }

  lemma DecodePrefix(s: seq<byte>)
    requires Decode(s).Ok?
    ensures Decode(s[..Decode(s).value.1]) == Decode(s)
  {
    RawPrefix(s, 0);
  }

  // ---- Seven bits to a byte, the lowest first ----

  /** Every byte but the last has the continuation bit, and byte `i` has the bits of `v` from `7 * i` on. */
  lemma {:induction false} EncodeByte(v: nat, i: nat)
    requires i < |Encode(v)|
    ensures Encode(v)[i] >= 0x80 <==> i < |Encode(v)| - 1
    ensures 0 < Pow2(7 * i) && Encode(v)[i] % 0x80 == v / Pow2(7 * i) % 0x80
    decreases i
  {
    if i == 0 {
      assert Pow2(0) == 1;
    } else {
      EncodeByte(v / 0x80, i - 1);
      Pow2Step(7 * (i - 1));
      hide Pow2;
      QuotientOfQuotient(v, 0x80, Pow2(7 * (i - 1)));
    }
  }

  /** The number that the low seven bits of some bytes stand for. */
  function Digits(s: seq<byte>): nat {
    if s == [] then 0 else s[0] % 0x80 + 0x80 * Digits(s[1..])
  }

  /** The first byte without the continuation bit is byte `n - 1`. */
  predicate EndsAt(s: seq<byte>, n: nat) {
    0 < n <= |s| && s[n - 1] < 0x80 && forall i :: 0 <= i < n - 1 ==> s[i] >= 0x80
  }

  predicate NoEnd(s: seq<byte>, n: nat) {
    n <= |s| && forall i :: 0 <= i < n ==> s[i] >= 0x80
  }

  lemma EndsLater(s: seq<byte>, n: nat)
    requires s != [] && s[0] >= 0x80
    ensures EndsAt(s[1..], n) ==> EndsAt(s, n + 1)
    ensures NoEnd(s[1..], n) ==> NoEnd(s, n + 1)
  {
    assert forall i :: 0 < i < |s| ==> s[i] == s[1..][i - 1];
  }

  lemma DigitsNext(s: seq<byte>, n: nat)
    requires n < |s|
    ensures Digits(s[..n + 1]) == s[0] % 0x80 + 0x80 * Digits(s[1..][..n])
  {
    assert s[..n + 1][1..] == s[1..][..n];
  }

  lemma {:induction false} RawValue(s: seq<byte>, k: nat)
    requires k <= 10 && Raw(s, k).Ok?
    ensures var (v, n) := Raw(s, k).value;
            n <= 10 - k && EndsAt(s, n) && v == Digits(s[..n])
    decreases 10 - k
  {
    if s[0] < 0x80 {
      DigitsNext(s, 0);
      assert Digits(s[1..][..0]) == 0;
    } else {
      hide EndsAt, Digits;
      RawValue(s[1..], k + 1);
      var (_, n) := Raw(s[1..], k + 1).value;
      EndsLater(s, n);
      DigitsNext(s, n);
    }
  }

  lemma {:induction false} RawFails(s: seq<byte>, k: nat)
    requires k <= 10 && Raw(s, k).Err?
    ensures Raw(s, k).error == if |s| < 10 - k then UnexpectedEof else IntOverflow
    ensures NoEnd(s, if |s| < 10 - k then |s| else 10 - k)
    decreases 10 - k
  {
    if k < 10 && s != [] {
      hide NoEnd;
      RawFails(s[1..], k + 1);
      EndsLater(s, 9 - k);
      EndsLater(s, |s| - 1);
    }
  }

  /** A varint is at most ten bytes, its value is cut to 64 bits, and what else is there is one of two errors. */
  lemma DecodeMeaning(s: seq<byte>, n: nat)
    ensures n <= 10 && EndsAt(s, n) ==> Decode(s) == Ok((Digits(s[..n]) % UINT64_LIMIT, n))
    ensures Decode(s).Ok? ==> Decode(s).value.1 <= 10 && EndsAt(s, Decode(s).value.1)
    ensures Decode(s) == Err(IntOverflow) <==> NoEnd(s, 10)
    ensures Decode(s) == Err(UnexpectedEof) <==> |s| < 10 && NoEnd(s, |s|)
    ensures Decode(s).Err? ==> Decode(s).error == IntOverflow || Decode(s).error == UnexpectedEof
  {
    if Raw(s, 0).Ok? {
      RawValue(s, 0);
    } else {
      RawFails(s, 0);
    }
    hide Raw, Digits;
  }

  // ---- The loops ----

  /** The result of reading at an index of a buffer, from the result of reading the rest of it. */
  function AtIndex(r: Result<(uint64, nat), WireError>, i: nat): Result<(uint64, nat), WireError> {
    match r
    case Err(e) => Err(e)
    case Ok((v, n)) => Ok((v, i + n))
  }

  /** A varint of which `k` bytes are read, with the value `v` so far. */
  ghost function Continue(v: nat, k: nat, rest: Result<(nat, nat), WireError>): Result<(nat, nat), WireError> {
    match rest
    case Err(e) => Err(e)
    case Ok((w, n)) => Ok((v + w * Pow2(7 * k), k + n))
  }

  lemma {:induction false} ContinueStep(v: nat, k: nat, b: byte, rest: Result<(nat, nat), WireError>)
    requires 0x80 <= b
    ensures Continue(v, k, Continued(b, rest)) == Continue(v + (b - 0x80) * Pow2(7 * k), k + 1, rest)
  {
    Pow2Step(7 * k);
    if rest.Ok? {
      var p, w := Pow2(7 * k), rest.value.0;
      assert (b - 0x80 + 0x80 * w) * p == (b - 0x80) * p + w * (0x80 * p);
    }
  }

  function ShiftLeft(x: uint64, shift: nat): uint64 {
    x * Pow2(shift) % UINT64_LIMIT
  }

  lemma {:induction false} Pow2Bound(k: nat)
    requires k <= 9
    ensures 1 <= Pow2(7 * k)
    ensures k <= 8 ==> Pow2(7 * k) <= 0x100_0000_0000_0000
    decreases 9 - k
  {
    Pow2Table();
    if k <= 7 {
      Pow2Step(7 * k);
      Pow2Bound(k + 1);
    }
  }

  lemma WordRemainder(x: nat, q: nat, r: nat)
    requires x == q * UINT64_LIMIT + r && r < UINT64_LIMIT
    ensures x % UINT64_LIMIT == r
  {
  }

  /** At the last shift only the lowest bit of a chunk stays in the word. */
  lemma LastChunk(v: nat, low: nat)
    requires v < INT64_LIMIT
    ensures low * INT64_LIMIT % UINT64_LIMIT == low % 2 * INT64_LIMIT
    ensures (v + low * INT64_LIMIT) % UINT64_LIMIT == v + low % 2 * INT64_LIMIT < UINT64_LIMIT
  {
    WordRemainder(low * INT64_LIMIT, low / 2, low % 2 * INT64_LIMIT);
    WordRemainder(v + low * INT64_LIMIT, low / 2, v + low % 2 * INT64_LIMIT);
  }

  lemma EarlyChunk(v: nat, low: nat, p: nat)
    requires v < p <= 0x100_0000_0000_0000 && low < 0x80
    ensures low * p % UINT64_LIMIT == low * p
    ensures v + low * p < 0x80 * p <= INT64_LIMIT
  {
    MulMonotone(low, 0x7F, p);
    WordRemainder(low * p, 0, low * p);
  }

  lemma {:induction false} OrChunk(v: nat, low: nat, m: nat)
    requires v < Pow2(m) && v + low * Pow2(m) < UINT64_LIMIT
    ensures Or64(v, low * Pow2(m)) == v + low * Pow2(m)
  {
    Pow2Table();
    OrAbove(v, low, m, 64);
  }

  /** One round of the reading loop: no bit is lost before the tenth byte. */
  lemma {:induction false} ChunkExact(v: nat, k: nat, b: byte)
    requires k <= 9 && v < Pow2(7 * k) && v < UINT64_LIMIT
    ensures var low := b % 0x80;
            var r := Or64(v, ShiftLeft(low, 7 * k));
            && r == (v + low * Pow2(7 * k)) % UINT64_LIMIT
            && (k <= 8 ==> r == v + low * Pow2(7 * k) < Pow2(7 * (k + 1)))
  {
    hide Or64, Pow2;
    var low, p := b % 0x80, Pow2(7 * k);
    if k <= 8 {
      Pow2Bound(k);
      Pow2Step(7 * k);
      EarlyChunk(v, low, p);
      WordRemainder(v + low * p, 0, v + low * p);
      OrChunk(v, low, 7 * k);
    } else {
      Pow2Table();
      LastChunk(v, low);
      OrChunk(v, low % 2, 63);
    }
  }

  /** The state of the reading loop after `k` bytes with the continuation bit. */
  ghost predicate Reading(data: seq<byte>, start: nat, k: nat, value: nat) {
    && k <= 10 && start + k <= |data|
    && (k <= 9 ==> value < Pow2(7 * k) && Continue(value, k, Raw(data[start + k..], k)) == Raw(data[start..], 0))
    && (k == 10 ==> Raw(data[start..], 0) == Err(IntOverflow))
  }

  lemma ReadStart(data: seq<byte>, start: nat)
    requires start <= |data|
    ensures Reading(data, start, 0, 0)
  {
    var r := Raw(data[start..], 0);
    assert Pow2(0) == 1 && Continue(0, 0, r) == r;
  }

  lemma {:induction false} ReadLastRaw(data: seq<byte>, start: nat, k: nat, value: nat)
    requires Reading(data, start, k, value) && k <= 9 && start + k < |data| && data[start + k] < 0x80
    ensures Raw(data[start..], 0) == Ok((value + data[start + k] * Pow2(7 * k), k + 1))
  {
    hide Pow2;
    assert Raw(data[start + k..], k) == Ok((data[start + k], 1));
  }

  lemma ReadLast(data: seq<byte>, start: nat, k: nat, value: uint64)
    requires Reading(data, start, k, value) && k <= 9 && start + k < |data| && data[start + k] < 0x80
    ensures var v := Or64(value, ShiftLeft(data[start + k] % 0x80, 7 * k));
            Decode(data[start..]) == Ok((v, k + 1))
  {
    hide ShiftLeft, Or64, Pow2, Raw;
    ChunkExact(value, k, data[start + k]);
    ReadLastRaw(data, start, k, value);
    assert data[start + k] % 0x80 == data[start + k];
  }

  lemma ReadStopped(data: seq<byte>, start: nat, k: nat, value: nat)
    requires Reading(data, start, k, value)
    ensures k == 10 ==> Decode(data[start..]) == Err(IntOverflow)
    ensures k < 10 && start + k == |data| ==> Decode(data[start..]) == Err(UnexpectedEof)
  {
    hide Pow2;
  }

  lemma {:induction false} RawMore(data: seq<byte>, at: nat, k: nat)
    requires k <= 9 && at < |data| && 0x80 <= data[at]
    ensures Raw(data[at..], k) == Continued(data[at], Raw(data[at + 1..], k + 1))
    ensures k == 9 ==> Raw(data[at..], k) == Err(IntOverflow)
  {
    assert data[at..][1..] == data[at + 1..];
  }

  lemma ReadMore(data: seq<byte>, start: nat, k: nat, value: uint64)
    requires Reading(data, start, k, value) && k <= 9 && start + k < |data| && 0x80 <= data[start + k]
    ensures Reading(data, start, k + 1, Or64(value, ShiftLeft(data[start + k] % 0x80, 7 * k)))
  {
    hide ShiftLeft, Or64, Pow2, Raw, Continued;
    var b := data[start + k];
    ChunkExact(value, k, b);
    RawMore(data, start + k, k);
    ContinueStep(value, k, b, Raw(data[start + k + 1..], k + 1));
    assert b % 0x80 == b - 0x80;
  }

  /** The varint reading loop that the generated code repeats at every use. */
  method ReadVarint(data: seq<byte>, start: nat) returns (r: Result<(uint64, nat), WireError>)
    requires start <= |data|
    ensures r == AtIndex(Decode(data[start..]), start)
  {
    hide Decode, Raw, ShiftLeft, Or64, Pow2;
    var value: uint64 := 0;
    var shift: nat := 0;
    var i := start;
    ghost var k: nat := 0;
    ReadStart(data, start);
    while true
      invariant shift == 7 * k && i == start + k && Reading(data, start, k, value)
      decreases 10 - k
    {
      ReadStopped(data, start, k, value);
      if shift >= 64 {
        return Err(IntOverflow);
      }
      if i >= |data| {
        return Err(UnexpectedEof);
      }
      var b := data[i];
      if b < 0x80 {
        ReadLast(data, start, k, value);
      } else {
        ReadMore(data, start, k, value);
      }
      i := i + 1;
      value := Or64(value, ShiftLeft(b % 0x80, shift));
      if b < 0x80 {
        return Ok((value, i));
      }
      shift := shift + 7;
      k := k + 1;
    }
  }

  /** `s` with `written` in place of what stood from `base` on. */
  ghost function Overwrite(s: seq<byte>, base: nat, written: seq<byte>): (t: seq<byte>)
    requires base + |written| <= |s|
    ensures |t| == |s|
  {
    s[..base] + written + s[base + |written|..]
  }

  lemma OverwriteNothing(s: seq<byte>, base: nat)
    requires base <= |s|
    ensures Overwrite(s, base, []) == s
  {
  }

  lemma Associative(a: seq<byte>, b: seq<byte>, c: seq<byte>)
    ensures a + (b + c) == a + b + c
  {
  }

  lemma OverwriteNext(s: seq<byte>, base: nat, written: seq<byte>, b: byte)
    requires base + |written| < |s|
    ensures Overwrite(s, base, written)[base + |written| := b] == Overwrite(s, base, written + [b])
  {
  }

  lemma {:induction false} EncodeUnfold(v: nat)
    ensures Encode(v) == if v < 0x80 then [v] else [v % 0x80 + 0x80] + Encode(v / 0x80)
  {
  }

  /** Writes `v` so that it ends in front of `offset`, and returns where it starts. */
  method EncodeVarint(a: array<byte>, offset: nat, v: uint64) returns (base: nat)
    requires Size(v) <= offset <= a.Length
    modifies a
    ensures base + Size(v) == offset && |Encode(v)| == Size(v)
    ensures a[..] == Overwrite(old(a[..]), base, Encode(v))
  {
    hide Encode, Size, Overwrite;
    SizeExact(v);
    base := offset - Size(v);
    var i, rest := base, v;
    ghost var before, written: seq<byte> := a[..], [];
    OverwriteNothing(before, base);
    while rest >= 0x80
      invariant i == base + |written| < offset && |Encode(v)| == offset - base
      invariant written + Encode(rest) == Encode(v)
      invariant a[..] == Overwrite(before, base, written)
    {
      var b := rest % 0x80 + 0x80;
      EncodeUnfold(rest);
      Associative(written, [b], Encode(rest / 0x80));
      OverwriteNext(before, base, written, b);
      a[i] := b;
      written := written + [b];
      rest := rest / 0x80;
      i := i + 1;
    }
    EncodeUnfold(rest);
    OverwriteNext(before, base, written, rest);
    a[i] := rest;
  }
}
