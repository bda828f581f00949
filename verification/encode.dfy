/** The synchronous encoder: `put_uvarint`, `put_string` and `put_bool` over any `bytes::BufMut`,
    here a growable buffer that each operation appends to. */
module Encode {
  import opened Bytes
  import opened Values
  import opened Varint
  import Utf8

  /** A `bytes::BytesMut`: the bytes put so far. */
  class BytesMut {
    var bytes: seq<byte>

    constructor ()
      ensures bytes == []
    {
      bytes := [];
    }

    method PutU8(b: byte)
      modifies this
      ensures bytes == old(bytes) + [b]
    {
      bytes := bytes + [b];
    }

    method PutSlice(s: seq<byte>)
      modifies this
      ensures bytes == old(bytes) + s
    {
      bytes := bytes + s;
    }
  }

  /** A length-prefixed string: the varint byte length, then the UTF-8 bytes. */
  function StringFrame(x: string): seq<byte>
  {
    Uvarint(|Utf8.Encode(x)|) + Utf8.Encode(x)
  }

  /** The single byte a boolean is written as. */
  function BoolByte(x: bool): byte
  {
    if x then 1 else 0
  }

  /** The byte `put_uvarint` emits for a group that is not the last: the low seven bits of
      mx with the continuation bit on (`ContinuationByteIsOr` shows it is `mx as u8 | 0x80`). */
  function ContinuationByte(mx: nat): (b: byte)
    ensures b >= 0x80 && b % 0x80 == mx % 0x80
  {
    mx % 0x100 % 0x80 + 0x80
  }

  /** Setting the top bit of a byte keeps its low seven bits and adds 0x80. */
  lemma OrHighBit(v: bv8)
    ensures (v | 0x80) as int == v as int % 0x80 + 0x80
  {
  }

  /** `mx as u8 | 0x80`, computed on the byte the cast keeps, is `ContinuationByte(mx)`. */
  lemma ContinuationByteIsOr(mx: nat, v: bv8)
    requires v as int == mx % 0x100
    ensures (v | 0x80) as int == ContinuationByte(mx)
  {
    OrHighBit(v);
  }

  /** Appends the varint of x and returns how many bytes that took. */
  method PutUvarint(buf: BytesMut, x: u64) returns (n: nat)
    modifies buf
    ensures buf.bytes == old(buf.bytes) + Uvarint(x)
    ensures n == |Uvarint(x)| && 1 <= n <= MAX_VARINT_LEN64
  {
    var i := 0;
    var mx: nat := x;
    while mx >= 0x80
      invariant buf.bytes + Uvarint(mx) == old(buf.bytes) + Uvarint(x)
      invariant |buf.bytes| == |old(buf.bytes)| + i
    {
      buf.PutU8(ContinuationByte(mx));
      mx := mx / 0x80;
      i := i + 1;
    }
    buf.PutU8(mx);
    n := i + 1;
    UvarintU64(x);
  }

  /** Appends the byte length of x as a varint, then the bytes of x; returns header plus payload length. */
  method PutString(buf: BytesMut, x: string) returns (n: nat)
    requires |Utf8.Encode(x)| < U64_LIMIT
    modifies buf
    ensures buf.bytes == old(buf.bytes) + StringFrame(x)
    ensures n == |StringFrame(x)|
  {
    var bytes := Utf8.Encode(x);
    var strLen := |bytes|;
    var headerLen := PutUvarint(buf, strLen);
    buf.PutSlice(bytes);
    n := headerLen + strLen;
  }

  /** Appends 1 for true and 0 for false; always one byte. */
  method PutBool(buf: BytesMut, x: bool) returns (n: nat)
    modifies buf
    ensures buf.bytes == old(buf.bytes) + [BoolByte(x)]
    ensures n == 1
  {
    if x {
      buf.PutU8(1);
    } else {
      buf.PutU8(0);
    }
    n := 1;
  }

  /** The unit test of `put_string`: "Hi" becomes a one-byte length and two ASCII bytes. */
  method WriteHi() returns (written: seq<byte>, length: nat)
    ensures written == [0x02, 0x48, 0x69] && length == 3
  {
    var buf := new BytesMut();
    length := PutString(buf, "Hi");
    written := buf.bytes;
    assert Utf8.Encode("Hi") == [0x48, 0x69];
  }

  /** The unit tests of `put_bool`: one byte each, 1 and 0. */
  method WriteBools() returns (t: seq<byte>, f: seq<byte>, tLen: nat, fLen: nat)
    ensures t == [0x01] && f == [0x00] && tLen == 1 && fLen == 1
  {
    var buf := new BytesMut();
    tLen := PutBool(buf, true);
    t := buf.bytes;
    buf := new BytesMut();
    fLen := PutBool(buf, false);
    f := buf.bytes;
  }
}
