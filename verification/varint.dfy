/** Unsigned LEB128 ("uvarint"): seven payload bits per byte, least significant group first,
    the high bit of every byte but the last set. The encoder's output and the decoders'
    acceptance rule are stated here once, as functions on byte sequences. */
module Varint {
  import opened Bytes
  import opened Values

  /** The bytes `put_uvarint` emits for x. */
  function Uvarint(x: nat): seq<byte>
    decreases x
  {
    if x < 0x80 then [x] else [x % 0x80 + 0x80] + Uvarint(x / 0x80)
  }

  /** The number the payload bits of p spell, least significant group first. */
  function Payload(p: seq<byte>): nat
  {
    if p == [] then 0 else p[0] % 0x80 + 0x80 * Payload(p[1..])
  }

  /** One complete varint: continuation bit on every byte but the last, and off on the last. */
  predicate Framed(r: seq<byte>) {
    && |r| >= 1
    && r[|r| - 1] < 0x80
    && forall j :: 0 <= j < |r| - 1 ==> r[j] >= 0x80
  }

  /** The index of the first byte without the continuation bit, or |s| when there is none. */
  function FirstStop(s: seq<byte>): (k: nat)
    ensures k <= |s|
    ensures forall j :: 0 <= j < k ==> s[j] >= 0x80
    ensures k < |s| ==> s[k] < 0x80
  {
    if s == [] || s[0] < 0x80 then 0 else 1 + FirstStop(s[1..])
  }

  /** What a decoder makes of the bytes in front of it. */
  datatype Scan =
    | Value(x: nat, used: nat)   // a number, and how many bytes it took
    | Overflow(used: nat)        // UVarintOverFlow, after reading `used` bytes
    | Incomplete                 // the bytes ran out before the varint ended

  /** The acceptance rule of both decoders: stop at the first byte below 0x80; that byte
      may not be the eleventh, nor the tenth when it is above 1. An eleventh byte that
      still has the continuation bit set is rejected as well (the decoders would shift
      by 70 bits there). */
  function ScanUvarint(s: seq<byte>): Scan
  {
    var k := FirstStop(s);
    if k < |s| && k < MAX_VARINT_LEN64 then
      if k == MAX_VARINT_LEN64 - 1 && s[k] > 1 then Overflow(k + 1) else Value(Payload(s[..k + 1]), k + 1)
    else if |s| > MAX_VARINT_LEN64 then Overflow(MAX_VARINT_LEN64 + 1)
    else Incomplete
  }

  lemma {:induction false} PayloadBound(p: seq<byte>)
    ensures Payload(p) < Pow128(|p|)
  {
    if p != [] {
      PayloadBound(p[1..]);
    }
  }

  /** Appending bytes adds their payload at the weight of the position they land at. */
  lemma {:induction false} PayloadAppend(a: seq<byte>, b: seq<byte>)
    ensures Payload(a + b) == Payload(a) + Pow128(|a|) * Payload(b)
  {
    if a == [] {
      assert a + b == b;
    } else {
      assert (a + b)[0] == a[0] && (a + b)[1..] == a[1..] + b;
      PayloadAppend(a[1..], b);
      var p := Pow128(|a| - 1);
      var lo, hi, pb := a[0] % 0x80, Payload(a[1..]), Payload(b);
      assert Payload(a + b) == lo + 0x80 * (hi + p * pb);
      Distribute(hi, p, pb);
    }
  }

  lemma Distribute(hi: int, p: int, pb: int)
    ensures 0x80 * (hi + p * pb) == 0x80 * hi + (0x80 * p) * pb
  {
  }

  /** `put_uvarint` emits one complete varint whose payload is x. */
  lemma {:induction false} UvarintFramed(x: nat)
    ensures Framed(Uvarint(x))
    ensures Payload(Uvarint(x)) == x
  {
    if x >= 0x80 {
      UvarintFramed(x / 0x80);
      var r := Uvarint(x);
      assert r[1..] == Uvarint(x / 0x80);
    }
  }

  /** The encoding has no padding: x needs all |Uvarint(x)| groups and no more,
      so the length is max(1, ceil(bitlen(x) / 7)). */
  lemma {:induction false} UvarintMinimal(x: nat)
    ensures x < Pow128(|Uvarint(x)|)
    ensures |Uvarint(x)| == 1 || Pow128(|Uvarint(x)| - 1) <= x
  {
    if x >= 0x80 {
      UvarintMinimal(x / 0x80);
    }
  }

  /** A `u64` takes one to ten bytes, and a tenth byte carries only the top bit. */
  lemma UvarintU64(x: u64)
    ensures 1 <= |Uvarint(x)| <= MAX_VARINT_LEN64
    ensures |Uvarint(x)| == MAX_VARINT_LEN64 ==> Uvarint(x)[MAX_VARINT_LEN64 - 1] <= 1
  {
    var r := Uvarint(x);
    UvarintMinimal(x);
    Pow128Limits();
    if |r| > 10 {
      Pow128Monotone(10, |r| - 1);
      assert false;
    }
    if |r| == 10 {
      UvarintFramed(x);
      PayloadAppend(r[..9], r[9..]);
      assert r[..9] + r[9..] == r;
      assert Payload(r[9..]) == r[9];
    }
  }

  /** Decoding what `put_uvarint` wrote gives the number back and consumes exactly its bytes,
      whatever follows in the stream. */
  lemma ScanRoundTrip(x: u64, rest: seq<byte>)
    ensures ScanUvarint(Uvarint(x) + rest) == Value(x, |Uvarint(x)|)
  {
    var r := Uvarint(x);
    var s := r + rest;
    UvarintFramed(x);
    UvarintU64(x);
    FirstStopOfFramed(r, rest);
    assert s[..|r|] == r;
  }

  lemma FirstStopOfFramed(r: seq<byte>, rest: seq<byte>)
    requires Framed(r)
    ensures FirstStop(r + rest) == |r| - 1
  {
    assert (r + rest)[|r| - 1] < 0x80;
  }

  /** A decoder that has seen i continuation bytes learns from byte i where the varint stops. */
  lemma FirstStopAt(s: seq<byte>, i: nat)
    requires i < |s| && forall j :: 0 <= j < i ==> s[j] >= 0x80
    ensures s[i] < 0x80 ==> FirstStop(s) == i
    ensures s[i] >= 0x80 ==> FirstStop(s) > i
  {
  }

  /** A stream that ends within ten continuation bytes holds no decision yet. */
  lemma IncompleteAt(s: seq<byte>, i: nat)
    requires i == |s| && i <= MAX_VARINT_LEN64
    requires forall j :: 0 <= j < i ==> s[j] >= 0x80
    ensures ScanUvarint(s) == Incomplete
  {
    assert FirstStop(s) == |s|;
  }

  /** A decided stream still has a byte where a decoder that has seen i continuation bytes looks next. */
  lemma DecidedHasNext(s: seq<byte>, i: nat)
    requires !ScanUvarint(s).Incomplete?
    requires i <= MAX_VARINT_LEN64 && i <= |s|
    requires forall j :: 0 <= j < i ==> s[j] >= 0x80
    ensures i < |s|
  {
    var k := FirstStop(s);
    assert k < |s| ==> k >= i;
  }

  /** One more byte of the varint adds its payload at weight 128^i. */
  lemma StepPayload(s: seq<byte>, i: nat, x: nat)
    requires i < |s| && x == Payload(s[..i])
    ensures Payload(s[..i + 1]) == x + s[i] % 0x80 * Pow128(i)
  {
    PayloadAppend(s[..i], [s[i]]);
    assert s[..i + 1] == s[..i] + [s[i]];
  }

  /** What a decoder decides at byte i, having seen i continuation bytes before it. */
  lemma ScanStep(s: seq<byte>, i: nat)
    requires i <= MAX_VARINT_LEN64 && i < |s|
    requires forall j :: 0 <= j < i ==> s[j] >= 0x80
    ensures s[i] < 0x80 && (i == MAX_VARINT_LEN64 || (i == MAX_VARINT_LEN64 - 1 && s[i] > 1)) ==>
      ScanUvarint(s) == Overflow(i + 1)
    ensures s[i] < 0x80 && !(i == MAX_VARINT_LEN64 || (i == MAX_VARINT_LEN64 - 1 && s[i] > 1)) ==>
      ScanUvarint(s) == Value(Payload(s[..i + 1]), i + 1) && Payload(s[..i + 1]) < U64_LIMIT
    ensures s[i] >= 0x80 && i == MAX_VARINT_LEN64 ==> ScanUvarint(s) == Overflow(MAX_VARINT_LEN64 + 1)
  {
    FirstStopAt(s, i);
    if s[i] < 0x80 && !(i == MAX_VARINT_LEN64 || (i == MAX_VARINT_LEN64 - 1 && s[i] > 1)) {
      ScanValueFits(s);
    }
  }

  /** Every accepted varint fits in a `u64`, is one complete varint of at most ten bytes,
      and its value is its payload. */
  lemma ScanValueFits(s: seq<byte>)
    requires ScanUvarint(s).Value?
    ensures var u := ScanUvarint(s).used;
      && 1 <= u <= MAX_VARINT_LEN64 && u <= |s|
      && Framed(s[..u])
      && ScanUvarint(s).x == Payload(s[..u])
      && ScanUvarint(s).x < U64_LIMIT
  {
    var k := FirstStop(s);
    var p := s[..k + 1];
    Pow128Limits();
    if k < 9 {
      PayloadBound(p);
      Pow128Monotone(k + 1, 9);
    } else {
      PayloadAppend(p[..9], p[9..]);
      assert p[..9] + p[9..] == p;
      assert Payload(p[9..]) == s[9];
      PayloadBound(p[..9]);
    }
  }

  /** The overflow rule is exact: a varint is rejected precisely when its value cannot be a
      `u64`, either because it needs more than ten bytes or because its ten bytes spell
      2^64 or more. */
  lemma OverflowExact(s: seq<byte>)
    ensures ScanUvarint(s).Overflow? <==>
      || (|s| > MAX_VARINT_LEN64 && FirstStop(s) >= MAX_VARINT_LEN64)
      || (FirstStop(s) == MAX_VARINT_LEN64 - 1 < |s| && Payload(s[..MAX_VARINT_LEN64]) >= U64_LIMIT)
  {
    if FirstStop(s) == 9 < |s| {
      TenthByte(s[..10]);
    }
  }

  /** Ten bytes spell 2^64 or more exactly when the tenth is above 1. */
  lemma TenthByte(p: seq<byte>)
    requires |p| == 10 && p[9] < 0x80
    ensures Payload(p) >= U64_LIMIT <==> p[9] > 1
  {
    var low, top := p[..9], p[9];
    Pow128Limits();
    PayloadAppend(low, p[9..]);
    assert low + p[9..] == p;
    assert Payload(p[9..]) == top;
    PayloadBound(low);
    var w := Pow128(9);
    assert Payload(p) == Payload(low) + w * top;
    if top > 1 {
      assert w * top >= 2 * w;
    } else {
      assert w * top <= w;
    }
  }

  /** The bytes run out before a decision exactly when no byte among the first ten ends the varint. */
  lemma IncompleteExact(s: seq<byte>)
    ensures ScanUvarint(s).Incomplete? <==> |s| <= MAX_VARINT_LEN64 && FirstStop(s) == |s|
  {
  }

  /** Padding is not rejected: a redundant zero group still decodes (to the same number). */
  lemma PaddingAccepted()
    ensures ScanUvarint([0x80, 0x00]) == Value(0, 2)
    ensures ScanUvarint([0x81, 0x80, 0x00]) == Value(1, 3)
  {
    assert [0x80, 0x00][..2] == [0x80, 0x00];
    assert [0x81, 0x80, 0x00][..3] == [0x81, 0x80, 0x00];
  }

  /** The encodings the unit tests of `put_uvarint` expect. */
  lemma UvarintVectors()
    ensures Uvarint(0) == [0x00]
    ensures Uvarint(1) == [0x01]
    ensures Uvarint(2) == [0x02]
    ensures Uvarint(127) == [0x7F]
    ensures Uvarint(128) == [0x80, 0x01]
    ensures Uvarint(255) == [0xFF, 0x01]
    ensures Uvarint(256) == [0x80, 0x02]
    ensures Uvarint(100500) == [0x94, 0x91, 0x06]
    ensures Uvarint(54451) == [179, 169, 3]
  {
  }

  /** Several varints written back to back. */
  function UvarintSeq(xs: seq<u64>): seq<byte>
  {
    if xs == [] then [] else Uvarint(xs[0]) + UvarintSeq(xs[1..])
  }
}
