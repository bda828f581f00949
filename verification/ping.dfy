/** The ping request: a packet that is only its code. */
module Ping {
  import opened Bytes
  import opened Errors
  import opened AsyncEncode
  import opened ClientPacket

  /** `write_ping_packet`: `write_packet_code(Ping)` and nothing more. */
  method WritePingPacket(w: AsyncWriter) returns (r: Result<nat>)
    modifies w
    ensures w.WroteOnce([0x04], r)
  {
    r := WritePacketCode(w, ClientPacketCode.Ping);
  }

  /** A ping into a writer that accepts it is the single byte 4, and reports 1. */
  method PingBytes() returns (written: seq<byte>, r: Result<nat>)
    ensures written == [0x04] && r == Ok(1)
  {
    var w := new AsyncWriter([Accept]);
    r := WritePingPacket(w);
    written := w.written;
  }

  /** A ping whose write is rejected reports the transport's error and writes nothing. */
  method PingRejected(kind: IoErrorKind) returns (written: seq<byte>, r: Result<nat>)
    ensures written == [] && r == Err(IoError(kind))
  {
    var w := new AsyncWriter([Reject(kind)]);
    r := WritePingPacket(w);
    written := w.written;
  }
}
