/** The synchronous decoder: `read_uvarint`, `read_string` and `read_bool` over any `bytes::Buf`,
    here a cursor over the bytes not yet consumed. `get_u8` and `copy_to_slice` panic when too
    few bytes remain, so each operation requires that enough are there. */
module Read {
  import opened Bytes
  import opened Errors
  import opened Values
  import opened Varint
  import Utf8
  import Encode

  /** A `bytes::Buf`: the bytes that have not been consumed yet. */
  class Buf {
    var remaining: seq<byte>

    constructor (data: seq<byte>)
      ensures remaining == data
    {
      remaining := data;
    }

    method GetU8() returns (b: byte)
      requires |remaining| >= 1
      modifies this
      ensures b == old(remaining)[0] && remaining == old(remaining)[1..]
    {
      b := remaining[0];
      remaining := remaining[1..];
    }

    method CopyToSlice(n: nat) returns (out: seq<byte>)
      requires n <= |remaining|
      modifies this
      ensures out == old(remaining)[..n] && remaining == old(remaining)[n..]
    {
      out := remaining[..n];
      remaining := remaining[n..];
    }
  }

  /** Enough bytes for `read_string` not to panic: a decided varint and, after a length, that many bytes. */
  predicate StringReady(s: seq<byte>) {
    match ScanUvarint(s)
    case Incomplete => false
    case Overflow(_) => true
    case Value(n, u) => u + n <= |s|
  }

  /** Reads one varint, consuming its bytes (also the bytes read before an overflow is detected). */
  method ReadUvarint(buf: Buf) returns (r: Result<u64>)
    requires !ScanUvarint(buf.remaining).Incomplete?
    modifies buf
    ensures match ScanUvarint(old(buf.remaining))
      case Value(x, u) => r == Ok(x) && buf.remaining == old(buf.remaining)[u..]
      case Overflow(u) => r == Err(UVarintOverFlow) && buf.remaining == old(buf.remaining)[u..]
      case Incomplete => false
  {
    ghost var s0 := buf.remaining;
    var x: nat := 0;
    var i: nat := 0;
    while true
      invariant i <= MAX_VARINT_LEN64 && i <= |s0|
      invariant buf.remaining == s0[i..]
      invariant forall j :: 0 <= j < i ==> s0[j] >= 0x80
      invariant x == Payload(s0[..i])
      decreases MAX_VARINT_LEN64 - i
    {
      DecidedHasNext(s0, i);
      var b := buf.GetU8();
      assert b == s0[i] by {
        assert s0[i..][0] == s0[i];
      }
      ScanStep(s0, i);
      StepPayload(s0, i, x);
      if b < 0x80 {
        if i > 9 || (i == 9 && b > 1) {
          assert ScanUvarint(s0) == Overflow(i + 1);
          return Err(UVarintOverFlow);
        }
        assert ScanUvarint(s0) == Value(x + b * Pow128(i), i + 1);
        return Ok(x + b * Pow128(i));
      }
      if i == MAX_VARINT_LEN64 {
        // The source would shift by 70 bits here; the model rejects the varint instead.
        assert ScanUvarint(s0) == Overflow(MAX_VARINT_LEN64 + 1);
        return Err(UVarintOverFlow);
      }
      x := x + b % 0x80 * Pow128(i);
      i := i + 1;
    }
  }

  /** Reads a varint length n and then exactly n bytes, which must be UTF-8. */
  method ReadString(buf: Buf) returns (r: Result<string>)
    requires StringReady(buf.remaining)
    modifies buf
    ensures match ScanUvarint(old(buf.remaining))
      case Value(n, u) => r == Utf8.FromUtf8(old(buf.remaining)[u..u + n]) && buf.remaining == old(buf.remaining)[u + n..]
      case Overflow(u) => r == Err(UVarintOverFlow) && buf.remaining == old(buf.remaining)[u..]
      case Incomplete => false
  {
    ghost var s0 := buf.remaining;
    var strLen :- ReadUvarint(buf);
    ghost var u := ScanUvarint(s0).used;
    var buffer := buf.CopyToSlice(strLen);
    assert buffer == s0[u..u + strLen];
    assert buf.remaining == s0[u + strLen..];
    r := Utf8.FromUtf8(buffer);
  }

  /** Reads one byte; zero is false and every other byte is true. */
  method ReadBool(buf: Buf) returns (r: Result<bool>)
    requires |buf.remaining| >= 1
    modifies buf
    ensures r == Ok(old(buf.remaining)[0] != 0) && buf.remaining == old(buf.remaining)[1..]
  {
    var b := buf.GetU8();
    if b == 0 {
      r := Ok(false);
    } else {
      r := Ok(true);
    }
  }

  /** What `put_uvarint` wrote, `read_uvarint` reads back, leaving what follows untouched. */
  method ReadBackUvarint(x: u64, rest: seq<byte>) returns (r: Result<u64>, left: seq<byte>)
    ensures r == Ok(x) && left == rest
  {
    ScanRoundTrip(x, rest);
    var buf := new Buf(Uvarint(x) + rest);
    r := ReadUvarint(buf);
    left := buf.remaining;
    assert (Uvarint(x) + rest)[|Uvarint(x)|..] == rest;
  }

  /** What `put_string` wrote, `read_string` reads back, leaving what follows untouched. */
  method ReadBackString(t: string, rest: seq<byte>) returns (r: Result<string>, left: seq<byte>)
    requires |Utf8.Encode(t)| < U64_LIMIT
    ensures r == Ok(t) && left == rest
  {
    var bytes := Utf8.Encode(t);
    var frame := Encode.StringFrame(t);
    ScanRoundTrip(|bytes|, bytes + rest);
    assert frame + rest == Uvarint(|bytes|) + (bytes + rest);
    var h := |Uvarint(|bytes|)|;
    assert (frame + rest)[h..h + |bytes|] == bytes;
    assert (frame + rest)[h + |bytes|..] == rest;
    Utf8.DecodeEncode(t);
    var buf := new Buf(frame + rest);
    r := ReadString(buf);
    left := buf.remaining;
  }

  /** `read_bool` inverts `put_bool`, and is lenient: any nonzero byte reads as true. */
  method ReadBackBool(v: bool, other: byte) returns (r: Result<bool>, lenient: Result<bool>)
    requires other != 0
    ensures r == Ok(v) && lenient == Ok(true)
  {
    var buf := new Buf([Encode.BoolByte(v)]);
    r := ReadBool(buf);
    buf := new Buf([other]);
    lenient := ReadBool(buf);
  }
}
