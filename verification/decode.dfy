/** The buffered asynchronous decoder `ClickHouseDecoder`. It owns a read buffer over a
    transport; every decode first makes sure the buffer holds the bytes it needs
    (`guarantee_size`), refilling it one fill at a time.

    The transport is a finite script of fill outcomes. A fill either delivers a chunk of
    bytes (an empty chunk is end of stream), times out, or fails with an I/O error; an
    exhausted script is end of stream. A delivered chunk is appended to the buffer. */
module Decode {
  import opened Bytes
  import opened Errors
  import opened Values
  import opened Varint
  import Utf8
  import Encode

  /** The outcome of one `fill_buf` under the read timeout. */
  datatype Fill =
    | Chunk(bytes: seq<byte>)   // bytes arrived; none at all means end of stream
    | Timeout                   // the fill did not complete within the timeout
    | IoErr(kind: IoErrorKind)  // the transport failed

  /** A fill that brings data. */
  predicate Brings(f: Fill) {
    f.Chunk? && f.bytes != []
  }

  /** The bytes the script delivers before its first fill that brings none. */
  function Delivered(source: seq<Fill>): seq<byte>
  {
    if source != [] && Brings(source[0]) then source[0].bytes + Delivered(source[1..]) else []
  }

  /** The script from its first fill that brings no data on. */
  function Pending(source: seq<Fill>): seq<Fill>
  {
    if source != [] && Brings(source[0]) then Pending(source[1..]) else source
  }

  /** The error a decode reports when it needs more than the script delivers. */
  function StopError(source: seq<Fill>): ClientError
  {
    var p := Pending(source);
    if p == [] || p[0].Chunk? then IoError(UnexpectedEof)
    else if p[0].Timeout? then ReadTimeout
    else IoError(p[0].kind)
  }

  /** The script left after that failing fill. */
  function AfterStop(source: seq<Fill>): seq<Fill>
  {
    var p := Pending(source);
    if p == [] then [] else p[1..]
  }

  /** A result together with the buffer and the script it leaves. */
  datatype Step<+T> = Step(result: Result<T>, buffer: seq<byte>, source: seq<Fill>)

  /** `guarantee_size` on a buffer and a script. */
  function Guarantee(buffer: seq<byte>, source: seq<Fill>, size: nat): Step<()>
    decreases |source|
  {
    if |buffer| >= size then Step(Ok(()), buffer, source)
    else if source == [] then Step(Err(IoError(UnexpectedEof)), buffer, source)
    else match source[0]
      case Chunk(arr) =>
        if arr == [] then Step(Err(IoError(UnexpectedEof)), buffer, source[1..])
        else Guarantee(buffer + arr, source[1..], size)
      case Timeout => Step(Err(ReadTimeout), buffer, source[1..])
      case IoErr(e) => Step(Err(IoError(e)), buffer, source[1..])
  }

  /** What `guarantee_size(size)` achieves. It succeeds exactly when the buffered and
      deliverable bytes together reach size; it does not fill when the buffer already holds
      size bytes (so size 0 always succeeds at once); on success it has only moved delivered
      bytes into the buffer, consumed none, and left the failing part of the script alone;
      on failure it reports the failing fill (end of stream, timeout, I/O error) with
      everything delivered buffered. */
  lemma {:induction false} GuaranteeMeaning(buffer: seq<byte>, source: seq<Fill>, size: nat)
    ensures var g := Guarantee(buffer, source, size);
      && (g.result.Ok? <==> size <= |buffer + Delivered(source)|)
      && (|buffer| >= size ==> g == Step(Ok(()), buffer, source))
      && (g.result.Ok? ==>
            && size <= |g.buffer|
            && buffer <= g.buffer
            && g.buffer + Delivered(g.source) == buffer + Delivered(source)
            && Pending(g.source) == Pending(source))
      && (g.result.Err? ==>
            && g.result.error == StopError(source)
            && g.buffer == buffer + Delivered(source)
            && g.source == AfterStop(source))
    decreases |source|
  {
    if |buffer| < size && source != [] && Brings(source[0]) {
      var arr := source[0].bytes;
      GuaranteeMeaning(buffer + arr, source[1..], size);
      assert buffer + arr + Delivered(source[1..]) == buffer + Delivered(source);
    }
  }

  /** Four bytes, little-endian, as an unsigned number. */
  function U32Le(b: seq<byte>): nat
    requires |b| == 4
  {
    b[0] as int + 0x100 * (b[1] as int + 0x100 * (b[2] as int + 0x100 * b[3] as int))
  }

  /** Four bytes, little-endian, as a two's-complement `i32` (`read_i32_le`). */
  function I32Le(b: seq<byte>): i32
    requires |b| == 4
  {
    var u := U32Le(b);
    if u < 0x8000_0000 then u else u - 0x1_0000_0000
  }

  /** The four little-endian bytes of an `i32` in two's complement. */
  function I32ToLe(v: i32): seq<byte>
  {
    var u := if v >= 0 then v else v + 0x1_0000_0000;
    [u % 0x100, u / 0x100 % 0x100, u / 0x1_0000 % 0x100, u / 0x100_0000]
  }

  lemma Split256(u: nat)
    ensures u == u / 0x100 * 0x100 + u % 0x100
  {
  }

  /** Every `i32` has exactly one four-byte form ... */
  lemma I32RoundTrip(v: i32)
    ensures I32Le(I32ToLe(v)) == v
  {
    var u: nat := if v >= 0 then v else v + 0x1_0000_0000;
    var u1 := u / 0x100;
    var u2 := u1 / 0x100;
    Split256(u);
    Split256(u1);
    Split256(u2);
    assert u / 0x1_0000 == u2;
    assert u / 0x100_0000 == u2 / 0x100;
    assert U32Le(I32ToLe(v)) == u;
  }

  /** ... and every four bytes are the form of one `i32`. */
  lemma I32Canonical(b: seq<byte>)
    requires |b| == 4
    ensures I32ToLe(I32Le(b)) == b
  {
    var u := U32Le(b);
    var u1 := b[1] as int + 0x100 * (b[2] as int + 0x100 * b[3] as int);
    var u2 := b[2] as int + 0x100 * b[3] as int;
    assert u / 0x100 == u1 && u % 0x100 == b[0];
    assert u1 / 0x100 == u2 && u1 % 0x100 == b[1];
    assert u2 / 0x100 == b[3] && u2 % 0x100 == b[2];
    assert u / 0x1_0000 == u2;
    assert u / 0x100_0000 == b[3];
  }

  /** `decode_bool`: 0 and 1 only; any other byte is `UnknownByte`. */
  function StrictBool(b: byte): Result<bool>
  {
    match b
    case 0 => Ok(false)
    case 1 => Ok(true)
    case _ => Err(UnknownByte)
  }

  /** The strict decoder accepts exactly the two bytes `put_bool` writes, and inverts it. */
  lemma StrictBoolInverse(b: byte, v: bool)
    ensures StrictBool(b).Ok? <==> b <= 1
    ensures StrictBool(Encode.BoolByte(v)) == Ok(v)
    ensures StrictBool(b).Ok? ==> Encode.BoolByte(StrictBool(b).value) == b
  {
  }

  class ClickHouseDecoder {
    /** The bytes filled into the read buffer and not consumed yet. */
    var buffer: seq<byte>
    /** The outcomes of the fills still to come. */
    var source: seq<Fill>

    constructor (source: seq<Fill>)
      ensures buffer == [] && this.source == source
    {
      buffer := [];
      this.source := source;
    }

    /** The bytes a decode can still obtain: those buffered, then those the script delivers. */
    ghost function Stream(): seq<byte>
      reads this
    {
      buffer + Delivered(source)
    }

    /** One `fill_buf` under the timeout: the next scripted outcome; a chunk is appended to
        the buffer. An exhausted script is end of stream. */
    method FillBuf() returns (f: Fill)
      modifies this
      ensures old(source) == [] ==> f == Chunk([]) && source == [] && buffer == old(buffer)
      ensures old(source) != [] ==>
        && f == old(source)[0] && source == old(source)[1..]
        && buffer == old(buffer) + (if f.Chunk? then f.bytes else [])
    {
      if source == [] {
        return Chunk([]);
      }
      f := source[0];
      source := source[1..];
      if f.Chunk? {
        buffer := buffer + f.bytes;
      }
    }

    /** Takes one byte off the front of the buffer. */
    method ReadU8() returns (b: byte)
      requires |buffer| >= 1
      modifies this
      ensures b == old(buffer)[0] && buffer == old(buffer)[1..] && source == old(source)
    {
      b := buffer[0];
      buffer := buffer[1..];
    }

    /** Drops n bytes from the front of the buffer. */
    method Consume(n: nat)
      requires n <= |buffer|
      modifies this
      ensures buffer == old(buffer)[n..] && source == old(source)
    {
      buffer := buffer[n..];
    }

    /** Fills until the buffer holds size bytes, or fails on the first fill that brings none. */
    method GuaranteeSize(size: nat) returns (r: Result<()>)
      modifies this
      ensures Step(r, buffer, source) == Guarantee(old(buffer), old(source), size)
    {
      while |buffer| < size
        invariant Guarantee(buffer, source, size) == Guarantee(old(buffer), old(source), size)
        decreases |source|
      {
        ghost var before := source;
        var f := FillBuf();
        match f
        case Chunk(arr) =>
          if |arr| == 0 {
            return Err(IoError(UnexpectedEof));
          }
        case IoErr(e) =>
          return Err(IoError(e));
        case Timeout =>
          return Err(ReadTimeout);
      }
      return Ok(());
    }

    /** Reads four bytes as a little-endian `i32`. */
    method DecodeI32() returns (r: Result<i32>)
      modifies this
      ensures var s := old(Stream());
        if |s| >= 4 then
          r == Ok(I32Le(s[..4])) && Stream() == s[4..] && Pending(source) == old(Pending(source))
        else
          r == Err(old(StopError(source))) && buffer == s && source == old(AfterStop(source))
    {
      GuaranteeMeaning(buffer, source, 4);
      var g := GuaranteeSize(4);
      if g.Err? {
        return Err(g.error);
      }
      var bytes := buffer[..4];
      Consume(4);
      assert bytes == old(Stream())[..4];
      r := Ok(I32Le(bytes));
    }
  
    /** `guarantee_size(1)` followed by `read_u8`, which the buffer then serves. */
    method NextByte() returns (r: Result<byte>)
      modifies this
      ensures var s := old(Stream());
        if |s| >= 1 then
          r == Ok(s[0]) && Stream() == s[1..] && Pending(source) == old(Pending(source))
        else
          r == Err(old(StopError(source))) && buffer == [] && source == old(AfterStop(source))
    {
      ghost var s0 := Stream();
      GuaranteeMeaning(buffer, source, 1);
      var g := GuaranteeSize(1);
      if g.Err? {
        return Err(g.error);
      }
      ghost var before := buffer;
      var b := ReadU8();
      assert b == s0[0] && Stream() == s0[1..] by {
        assert before + Delivered(source) == s0;
      }
      r := Ok(b);
    }

    /** Where `decode_uvarint` ends on the stream s0, given the script's failing part p0, its
        error e0 and what follows it a0: the cases of `ScanUvarint`. */
    ghost predicate UvarintDone(s0: seq<byte>, p0: seq<Fill>, e0: ClientError, a0: seq<Fill>, r: Result<u64>)
      reads this
    {
      match ScanUvarint(s0)
      case Value(x, u) => r == Ok(x) && Stream() == s0[u..] && Pending(source) == p0
      case Overflow(u) => r == Err(UVarintOverFlow) && Stream() == s0[u..] && Pending(source) == p0
      case Incomplete => r == Err(e0) && buffer == [] && source == a0
    }

    /** One round of the `decode_uvarint` loop, at byte i of s0 with x accumulated so far:
        either the varint is decided, or byte i was one more continuation byte. While the
        varint is undecided, r carries no meaning. */
    method UvarintStep(ghost s0: seq<byte>, ghost p0: seq<Fill>, ghost e0: ClientError, ghost a0: seq<Fill>,
                       i: nat, x: nat) returns (done: bool, r: Result<u64>, x': nat)
      requires i <= MAX_VARINT_LEN64 && i <= |s0|
      requires Stream() == s0[i..] && Pending(source) == p0
      requires StopError(source) == e0 && AfterStop(source) == a0
      requires forall j :: 0 <= j < i ==> s0[j] >= 0x80
      requires x == Payload(s0[..i])
      modifies this
      ensures done ==> UvarintDone(s0, p0, e0, a0, r)
      ensures !done ==>
        && i < MAX_VARINT_LEN64 && i < |s0| && s0[i] >= 0x80
        && Stream() == s0[i + 1..] && Pending(source) == p0
        && StopError(source) == e0 && AfterStop(source) == a0
        && x' == Payload(s0[..i + 1])
    {
      x' := x;
      var next := NextByte();
      if next.Err? {
        IncompleteAt(s0, i);
        return true, Err(next.error), x';
      }
      var b := next.value;
      assert b == s0[i] by {
        assert s0[i..][0] == s0[i];
      }
      assert Stream() == s0[i + 1..];
      ScanStep(s0, i);
      StepPayload(s0, i, x);
      if b < 0x80 {
        if i == MAX_VARINT_LEN64 || (i == MAX_VARINT_LEN64 - 1 && b > 1) {
          assert ScanUvarint(s0) == Overflow(i + 1);
          return true, Err(UVarintOverFlow), x';
        }
        assert ScanUvarint(s0) == Value(x + b * Pow128(i), i + 1);
        return true, Ok(x + b * Pow128(i)), x';
      }
      if i == MAX_VARINT_LEN64 {
        // The source would shift by 70 bits here; the model rejects the varint instead.
        assert ScanUvarint(s0) == Overflow(MAX_VARINT_LEN64 + 1);
        return true, Err(UVarintOverFlow), x';
      }
      return false, Err(UVarintOverFlow), x + b % 0x80 * Pow128(i);
    }

    /** Reads one varint, refilling before every byte. */
    method DecodeUvarint() returns (r: Result<u64>)
      modifies this
      ensures var s := old(Stream());
        match ScanUvarint(s)
        case Value(x, u) => r == Ok(x) && Stream() == s[u..] && Pending(source) == old(Pending(source))
        case Overflow(u) => r == Err(UVarintOverFlow) && Stream() == s[u..] && Pending(source) == old(Pending(source))
        case Incomplete => r == Err(old(StopError(source))) && buffer == [] && source == old(AfterStop(source))
    {
      ghost var s0 := Stream();
      ghost var p0, e0, a0 := Pending(source), StopError(source), AfterStop(source);
      var x: nat := 0;
      var i: nat := 0;
      while true
        invariant i <= MAX_VARINT_LEN64 && i <= |s0|
        invariant Stream() == s0[i..] && Pending(source) == p0
        invariant StopError(source) == e0 && AfterStop(source) == a0
        invariant forall j :: 0 <= j < i ==> s0[j] >= 0x80
        invariant x == Payload(s0[..i])
        decreases MAX_VARINT_LEN64 - i
      {
        var done, res, x' := UvarintStep(s0, p0, e0, a0, i, x);
        if done {
          return res;
        }
        x := x';
        i := i + 1;
      }
    }

    /** The tail of `decode_string` once the length n is known: waits for n bytes and
        returns them if they are UTF-8, consuming them only then. */
    method TakeString(n: nat) returns (r: Result<string>)
      modifies this
      ensures var s := old(Stream());
        if n <= |s| then
          && r == Utf8.FromUtf8(s[..n])
          && Stream() == (if r.Ok? then s[n..] else s)
          && Pending(source) == old(Pending(source))
        else
          r == Err(old(StopError(source))) && buffer == s && source == old(AfterStop(source))
    {
      ghost var s0 := Stream();
      GuaranteeMeaning(buffer, source, n);
      var g := GuaranteeSize(n);
      if g.Err? {
        return Err(g.error);
      }
      var temp := buffer[..n];
      assert temp == s0[..n] by {
        assert buffer + Delivered(source) == s0;
        forall j | 0 <= j < n
          ensures temp[j] == s0[j]
        {
          assert temp[j] == (buffer + Delivered(source))[j];
        }
      }
      var decoded := Utf8.FromUtf8(temp);
      if decoded.Err? {
        return Err(decoded.error);
      }
      Consume(n);
      r := Ok(decoded.value);
    }

    /** Where `decode_string` ends on the stream s0 (the script's failing part p0, its error e0
        and what follows it a0): the varint's outcome, then the n bytes it announces, consumed
        only when they are UTF-8. */
    ghost predicate StringDone(s0: seq<byte>, p0: seq<Fill>, e0: ClientError, a0: seq<Fill>, r: Result<string>)
      reads this
    {
      match ScanUvarint(s0)
      case Incomplete => r == Err(e0) && buffer == [] && source == a0
      case Overflow(u) => r == Err(UVarintOverFlow) && Stream() == s0[u..] && Pending(source) == p0
      case Value(n, u) =>
        if u + n <= |s0| then
          && r == Utf8.FromUtf8(s0[u..u + n])
          && Stream() == (if r.Ok? then s0[u + n..] else s0[u..])
          && Pending(source) == p0
        else
          r == Err(e0) && buffer == s0[u..] && source == a0
    }

    /** Reads a varint length n, waits for n bytes and returns them if they are UTF-8.
        The bytes are consumed only on success: invalid UTF-8 leaves them buffered. */
    method DecodeString() returns (r: Result<string>)
      modifies this
      ensures StringDone(old(Stream()), old(Pending(source)), old(StopError(source)), old(AfterStop(source)), r)
    {
      ghost var s0 := Stream();
      ghost var p0, e0, a0 := Pending(source), StopError(source), AfterStop(source);
      ghost var sc := ScanUvarint(s0);
      var len := DecodeUvarint();
      if len.Err? {
        r := Err(len.error);
        assert StringDone(s0, p0, e0, a0, r);
        return;
      }
      ghost var u := sc.used;
      assert sc == Value(len.value, u);
      assert Stream() == s0[u..] && Pending(source) == p0;
      assert StopError(source) == e0 && AfterStop(source) == a0;
      var n := len.value;
      r := TakeString(n);
      if u + n <= |s0| {
        assert s0[u..][..n] == s0[u..u + n];
        assert s0[u..][n..] == s0[u + n..];
        assert r == Utf8.FromUtf8(s0[u..u + n]);
        assert Stream() == (if r.Ok? then s0[u + n..] else s0[u..]);
      }
      assert StringDone(s0, p0, e0, a0, r);
    }

    /** Reads one byte as a boolean, strictly. */
    method DecodeBool() returns (r: Result<bool>)
      modifies this
      ensures var s := old(Stream());
        if |s| >= 1 then
          r == StrictBool(s[0]) && Stream() == s[1..] && Pending(source) == old(Pending(source))
        else
          r == Err(old(StopError(source))) && buffer == [] && source == old(AfterStop(source))
    {
      var b :- NextByte();
      match b
      case 0 => r := Ok(false);
      case 1 => r := Ok(true);
      case _ => r := Err(UnknownByte);
    }
  }

  /** A varint the encoder wrote decodes back to its number however the transport splits
      the bytes into fills, with any bytes after it. */
  method DecodeUvarintFrom(x: u64, source: seq<Fill>) returns (r: Result<u64>)
    requires Uvarint(x) <= Delivered(source)
    ensures r == Ok(x)
  {
    var rest := Delivered(source)[|Uvarint(x)|..];
    ScanRoundTrip(x, rest);
    var decoder := new ClickHouseDecoder(source);
    assert decoder.Stream() == Uvarint(x) + rest;
    r := decoder.DecodeUvarint();
  }

  /** One varint the encoder wrote, read back off the front of the stream. */
  method DecodeOneUvarint(decoder: ClickHouseDecoder, x: u64, ghost tail: seq<byte>) returns (v: u64)
    requires decoder.Stream() == Uvarint(x) + tail
    modifies decoder
    ensures v == x && decoder.Stream() == tail
  {
    ghost var s := decoder.Stream();
    ScanRoundTrip(x, tail);
    ghost var sc := ScanUvarint(s);
    assert sc == Value(x, |Uvarint(x)|);
    var r := decoder.DecodeUvarint();
    assert r == Ok(x);
    assert s[|Uvarint(x)|..] == tail;
    v := r.value;
  }

  /** Varints written back to back decode back in order from one decoder. */
  method DecodeUvarintsFrom(xs: seq<u64>, source: seq<Fill>) returns (r: seq<u64>)
    requires UvarintSeq(xs) <= Delivered(source)
    ensures r == xs
  {
    var decoder := new ClickHouseDecoder(source);
    ghost var rest := Delivered(source)[|UvarintSeq(xs)|..];
    assert decoder.Stream() == UvarintSeq(xs[0..]) + rest by {
      assert xs[0..] == xs;
    }
    r := [];
    var i := 0;
    while i < |xs|
      invariant 0 <= i <= |xs|
      invariant r == xs[..i]
      invariant decoder.Stream() == UvarintSeq(xs[i..]) + rest
    {
      ghost var tail := UvarintSeq(xs[i + 1..]) + rest;
      assert UvarintSeq(xs[i..]) == Uvarint(xs[i]) + UvarintSeq(xs[i + 1..]) by {
        assert xs[i..][1..] == xs[i + 1..];
      }
      var x := DecodeOneUvarint(decoder, xs[i], tail);
      r := r + [x];
      i := i + 1;
    }
  }

  /** A string the encoder wrote, read back off the front of the stream. */
  method DecodeOneString(decoder: ClickHouseDecoder, t: string, ghost tail: seq<byte>) returns (r: Result<string>)
    requires |Utf8.Encode(t)| < U64_LIMIT
    requires decoder.Stream() == Encode.StringFrame(t) + tail
    modifies decoder
    ensures r == Ok(t) && decoder.Stream() == tail
  {
    ghost var bytes := Utf8.Encode(t);
    ghost var s := decoder.Stream();
    ghost var h := |Uvarint(|bytes|)|;
    ScanRoundTrip(|bytes|, bytes + tail);
    assert s == Uvarint(|bytes|) + (bytes + tail);
    ghost var sc := ScanUvarint(s);
    assert sc == Value(|bytes|, h);
    assert s[h..h + |bytes|] == bytes;
    assert s[h + |bytes|..] == tail;
    Utf8.FromUtf8Encode(t);
    r := decoder.DecodeString();
    assert r == Utf8.FromUtf8(bytes);
  }

  /** A string the encoder wrote decodes back to itself however the bytes are split into fills,
      given that a fill appends its chunk to what is buffered. */
  method DecodeStringFrom(t: string, source: seq<Fill>) returns (r: Result<string>)
    requires |Utf8.Encode(t)| < U64_LIMIT
    requires Encode.StringFrame(t) <= Delivered(source)
    ensures r == Ok(t)
  {
    var decoder := new ClickHouseDecoder(source);
    ghost var frame := Encode.StringFrame(t);
    ghost var rest := Delivered(source)[|frame|..];
    assert decoder.Stream() == frame + rest;
    r := DecodeOneString(decoder, t, rest);
  }

  /** A boolean the encoder wrote decodes back to itself. */
  method DecodeBoolFrom(v: bool, source: seq<Fill>) returns (r: Result<bool>)
    requires [Encode.BoolByte(v)] <= Delivered(source)
    ensures r == Ok(v)
  {
    var decoder := new ClickHouseDecoder(source);
    r := decoder.DecodeBool();
  }

  /** A string whose payload is not UTF-8 is rejected with its bytes, which stay buffered. */
  method DecodeInvalidString() returns (r: Result<string>, ghost left: seq<byte>)
    ensures r == Err(FromUtf8Error([0xFF])) && left == [0xFF]
  {
    var decoder := new ClickHouseDecoder([Chunk([0x01, 0xFF])]);
    assert decoder.Stream() == [0x01, 0xFF];
    assert ScanUvarint([0x01, 0xFF]) == Value(1, 1) by {
      assert [0x01, 0xFF][..1] == [0x01];
    }
    assert !Utf8.Valid([0xFF]);
    r := decoder.DecodeString();
    left := decoder.Stream();
  }
}
