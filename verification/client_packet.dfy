/** The codes that open every packet a client sends, and `write_packet_code`. */
module ClientPacket {
  import opened Bytes
  import opened Errors
  import opened AsyncEncode

  datatype ClientPacketCode =
    | Hello        // client part of the handshake
    | Query        // query start
    | Data         // data block
    | Cancel       // query cancel
    | Ping         // ping request
    | TableStatus  // tables status request

  /** `x as u8`: the declared discriminant. */
  function Discriminant(x: ClientPacketCode): byte
  {
    match x
    case Hello => 0
    case Query => 1
    case Data => 2
    case Cancel => 3
    case Ping => 4
    case TableStatus => 5
  }

  /** The code a byte stands for, if any: the inverse of `Discriminant`. */
  function CodeFromByte(b: byte): (r: Option<ClientPacketCode>)
    ensures r.Some? <==> b <= 5
    ensures r.Some? ==> Discriminant(r.value) == b
  {
    match b
    case 0 => Some(Hello)
    case 1 => Some(Query)
    case 2 => Some(Data)
    case 3 => Some(Cancel)
    case 4 => Some(Ping)
    case 5 => Some(TableStatus)
    case _ => None
  }

  /** Every code has its own byte, and that byte names it back; so no two codes share a byte. */
  lemma DiscriminantInjective(x: ClientPacketCode, y: ClientPacketCode)
    ensures CodeFromByte(Discriminant(x)) == Some(x)
    ensures Discriminant(x) == Discriminant(y) ==> x == y
  {
    assert CodeFromByte(Discriminant(x)) == Some(x);
    assert CodeFromByte(Discriminant(y)) == Some(y);
  }

  /** `write_packet_code`: the code's byte, in one `encode_u8`; its count or error is passed on. */
  method WritePacketCode(w: AsyncWriter, x: ClientPacketCode) returns (r: Result<nat>)
    modifies w
    ensures w.WroteOnce([Discriminant(x)], r)
  {
    r := w.EncodeU8(Discriminant(x));
  }

  /** Into a writer that accepts it, a packet code is exactly its one byte, counted as 1. */
  method CodeBytes(x: ClientPacketCode) returns (written: seq<byte>, r: Result<nat>)
    ensures written == [Discriminant(x)] && r == Ok(1)
  {
    var w := new AsyncWriter([]);
    r := WritePacketCode(w, x);
    written := w.written;
  }
}
