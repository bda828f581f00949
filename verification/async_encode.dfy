/** The asynchronous encoder the packet writers use (`encode_u8`, `encode_var_uint`,
    `encode_utf8_string` on any `AsyncWrite`). Each operation frames its value exactly as the
    synchronous `put_*` operations do and hands the frame to the transport in one write.

    The transport is a finite script of write outcomes: a write is either accepted in full
    or rejected with an I/O error, in which case nothing of it lands. Past the end of the
    script every write is accepted, as an in-memory `Vec<u8>` accepts every write. */
module AsyncEncode {
  import opened Bytes
  import opened Errors
  import opened Varint
  import Utf8
  import Encode

  /** The outcome of one write. */
  datatype WriteOutcome = Accept | Reject(kind: IoErrorKind)

  /** The outcome of write number i of the script. */
  function OutcomeAt(outcomes: seq<WriteOutcome>, i: nat): WriteOutcome
  {
    if i < |outcomes| then outcomes[i] else Accept
  }

  /** The script after n writes. */
  function Drop(outcomes: seq<WriteOutcome>, n: nat): seq<WriteOutcome>
  {
    if n < |outcomes| then outcomes[n..] else []
  }

  /** The index of the first rejected write, or the length of the script if it rejects none. */
  function FirstReject(outcomes: seq<WriteOutcome>): (k: nat)
    ensures k <= |outcomes|
    ensures forall i :: 0 <= i < k ==> outcomes[i].Accept?
    ensures k < |outcomes| ==> outcomes[k].Reject?
  {
    if outcomes == [] || outcomes[0].Reject? then 0 else 1 + FirstReject(outcomes[1..])
  }

  /** Whether the first n writes are all accepted. */
  predicate AllAccepted(outcomes: seq<WriteOutcome>, n: nat)
  {
    forall i :: 0 <= i < n ==> OutcomeAt(outcomes, i).Accept?
  }

  /** The first n writes are accepted exactly when the first rejection (if any) comes later. */
  lemma FirstRejectMeaning(outcomes: seq<WriteOutcome>, n: nat)
    ensures AllAccepted(outcomes, n) <==> (FirstReject(outcomes) >= n || FirstReject(outcomes) == |outcomes|)
  {
    var k := FirstReject(outcomes);
    if k < n && k < |outcomes| {
      assert !OutcomeAt(outcomes, k).Accept?;
    }
  }

  /** Dropping writes one at a time is dropping them all at once. */
  lemma DropStep(outcomes: seq<WriteOutcome>, n: nat)
    ensures Drop(Drop(outcomes, n), 1) == Drop(outcomes, n + 1)
    ensures OutcomeAt(Drop(outcomes, n), 0) == OutcomeAt(outcomes, n)
  {
  }

  /** A writer: the bytes that reached the transport, and the outcomes of the writes to come. */
  class AsyncWriter {
    var written: seq<byte>
    var outcomes: seq<WriteOutcome>

    constructor (outcomes: seq<WriteOutcome>)
      ensures written == [] && this.outcomes == outcomes
    {
      written := [];
      this.outcomes := outcomes;
    }

    /** The effect of one write of `frame` answered `r`: the next outcome is used up;
        accepted, the whole frame lands and its length is reported; rejected, nothing lands
        and the error is reported. */
    twostate predicate WroteOnce(frame: seq<byte>, new r: Result<nat>)
      reads this
    {
      && outcomes == Drop(old(outcomes), 1)
      && match OutcomeAt(old(outcomes), 0)
         case Accept => r == Ok(|frame|) && written == old(written) + frame
         case Reject(kind) => r == Err(IoError(kind)) && written == old(written)
    }

    /** `write_all` of a frame. */
    method WriteAll(frame: seq<byte>) returns (r: Result<nat>)
      modifies this
      ensures WroteOnce(frame, r)
    {
      var outcome := OutcomeAt(outcomes, 0);
      outcomes := Drop(outcomes, 1);
      match outcome
      case Accept =>
        written := written + frame;
        r := Ok(|frame|);
      case Reject(kind) =>
        r := Err(IoError(kind));
    }

    /** `encode_u8`: the byte itself. */
    method EncodeU8(x: byte) returns (r: Result<nat>)
      modifies this
      ensures WroteOnce([x], r)
    {
      r := WriteAll([x]);
    }

    /** `encode_var_uint`: the varint of x. */
    method EncodeVarUint(x: u64) returns (r: Result<nat>)
      modifies this
      ensures WroteOnce(Uvarint(x), r)
    {
      var buf := new Encode.BytesMut();
      var n := Encode.PutUvarint(buf, x);
      r := WriteAll(buf.bytes);
    }

    /** `encode_utf8_string`: the varint byte length of x, then its UTF-8 bytes. */
    method EncodeUtf8String(x: string) returns (r: Result<nat>)
      requires |Utf8.Encode(x)| < U64_LIMIT
      modifies this
      ensures WroteOnce(Encode.StringFrame(x), r)
    {
      var buf := new Encode.BytesMut();
      var n := Encode.PutString(buf, x);
      r := WriteAll(buf.bytes);
    }
  }
}
