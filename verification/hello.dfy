/** The client Hello packet: its fields, its defaults, its builders and how it is written.
    The frame is the Hello code, then client name, major and minor version, protocol version,
    database, user name and password, strings length-prefixed and numbers as varints. */
module Hello {
  import opened Bytes
  import opened Errors
  import opened Values
  import opened Varint
  import opened AsyncEncode
  import opened ClientPacket
  import Utf8
  import Encode

  datatype HelloPacket = HelloPacket(
    clientName: string,
    versionMajor: u64,       // client major version
    versionMinor: u64,       // client minor version
    protocolVersion: u64,    // TCP protocol revision the client speaks
    database: string,
    username: string,
    password: string)

  /** `HelloPacket::default()`. */
  function Default(): HelloPacket
  {
    HelloPacket(
      CLICKHOUSE_CLIENT_NAME,
      CLICKHOUSE_VERSION_MAJOR,
      CLICKHOUSE_VERSION_MINOR,
      CLICKHOUSE_PROTOCOL_VERSION,
      CLICKHOUSE_DEFAULT_DATABASE,
      CLICKHOUSE_DEFAULT_USERNAME,
      CLICKHOUSE_DEFAULT_PASSWORD)
  }

  /** The default packet's fields: the client's own name, version 0.1, protocol revision 54451,
      user and database "default" and an empty password. */
  lemma DefaultFields()
    ensures Default() == HelloPacket("clickhouse-native-client", 0, 1, 54451, "default", "default", "")
  {
  }

  /** The `database` builder: replaces the database and nothing else. */
  function WithDatabase(p: HelloPacket, database: string): (q: HelloPacket)
    ensures q.database == database
    ensures q.clientName == p.clientName && q.username == p.username && q.password == p.password
    ensures q.versionMajor == p.versionMajor && q.versionMinor == p.versionMinor
    ensures q.protocolVersion == p.protocolVersion
  {
    p.(database := database)
  }

  /** The `username` builder: replaces the user name and nothing else. */
  function WithUsername(p: HelloPacket, username: string): (q: HelloPacket)
    ensures q.username == username
    ensures q.clientName == p.clientName && q.database == p.database && q.password == p.password
    ensures q.versionMajor == p.versionMajor && q.versionMinor == p.versionMinor
    ensures q.protocolVersion == p.protocolVersion
  {
    p.(username := username)
  }

  /** The `password` builder: replaces the password and nothing else. */
  function WithPassword(p: HelloPacket, password: string): (q: HelloPacket)
    ensures q.password == password
    ensures q.clientName == p.clientName && q.database == p.database && q.username == p.username
    ensures q.versionMajor == p.versionMajor && q.versionMinor == p.versionMinor
    ensures q.protocolVersion == p.protocolVersion
  {
    p.(password := password)
  }

  /** Every string field is short enough for its length to be a `u64` (always so for
      strings held in memory on a 64-bit target). */
  predicate Encodable(p: HelloPacket)
  {
    && |Utf8.Encode(p.clientName)| < U64_LIMIT
    && |Utf8.Encode(p.database)| < U64_LIMIT
    && |Utf8.Encode(p.username)| < U64_LIMIT
    && |Utf8.Encode(p.password)| < U64_LIMIT
  }

  /** The eight writes of `write_hello_packet`, in order. */
  function HelloParts(p: HelloPacket): seq<seq<byte>>
  {
    [ [Discriminant(ClientPacketCode.Hello)],
      Encode.StringFrame(p.clientName),
      Uvarint(p.versionMajor),
      Uvarint(p.versionMinor),
      Uvarint(p.protocolVersion),
      Encode.StringFrame(p.database),
      Encode.StringFrame(p.username),
      Encode.StringFrame(p.password) ]
  }

  /** The whole Hello frame. */
  function HelloFrame(p: HelloPacket): seq<byte>
  {
    Flatten(HelloParts(p))
  }

  /** What the writer has achieved after its first j writes, all accepted: the outcomes of
      those writes are used up, their frames have landed after w0, and `len` counts their bytes. */
  ghost predicate Sent(o: seq<WriteOutcome>, parts: seq<seq<byte>>, j: nat, w0: seq<byte>,
                       outcomes: seq<WriteOutcome>, written: seq<byte>, len: nat)
    requires j <= |parts|
  {
    && (j <= FirstReject(o) || FirstReject(o) == |o|)
    && outcomes == Drop(o, j)
    && written == w0 + Flatten(parts[..j])
    && len == |Flatten(parts[..j])|
  }

  lemma FlattenPrefix(parts: seq<seq<byte>>, j: nat)
    requires j < |parts|
    ensures Flatten(parts[..j + 1]) == Flatten(parts[..j]) + parts[j]
  {
    assert parts[..j + 1] == parts[..j] + [parts[j]];
    FlattenSnoc(parts[..j], parts[j]);
  }

  /** After j accepted writes, write j is the first rejected one if it is rejected... */
  lemma RejectedNext(o: seq<WriteOutcome>, j: nat)
    requires j <= FirstReject(o) || FirstReject(o) == |o|
    requires OutcomeAt(o, j).Reject?
    ensures j < |o| && FirstReject(o) == j && o[j] == OutcomeAt(o, j)
  {
    assert OutcomeAt(o, j) == o[j];
  }

  /** ... and otherwise one more write has been accepted. */
  lemma AcceptedNext(o: seq<WriteOutcome>, j: nat)
    requires j <= FirstReject(o) || FirstReject(o) == |o|
    requires OutcomeAt(o, j).Accept?
    ensures j + 1 <= FirstReject(o) || FirstReject(o) == |o|
  {
  }

  /** An accepted write j extends what was sent by its frame. */
  lemma SentExtends(o: seq<WriteOutcome>, parts: seq<seq<byte>>, j: nat, w0: seq<byte>, written: seq<byte>, len: nat)
    requires j < |parts| && Sent(o, parts, j, w0, Drop(o, j), written, len)
    requires OutcomeAt(o, j).Accept?
    ensures Sent(o, parts, j + 1, w0, Drop(o, j + 1), written + parts[j], len + |parts[j]|)
  {
    DropStep(o, j);
    FlattenPrefix(parts, j);
    assert written + parts[j] == w0 + (Flatten(parts[..j]) + parts[j]);
    AcceptedNext(o, j);
  }

  /** What `write_hello_packet` leaves behind, from the script o and the bytes w0 written
      before it. If one of its eight writes is rejected, the first such (number k) ends it: the
      frames of writes 0..k-1 have landed, the outcomes up to k are used up and the transport's
      error is returned. Otherwise the whole frame has landed, eight outcomes are used up and
      its length is returned. */
  ghost predicate HelloWritten(x: HelloPacket, o: seq<WriteOutcome>, w0: seq<byte>,
                               written: seq<byte>, outcomes: seq<WriteOutcome>, r: Result<nat>)
  {
    var k := FirstReject(o);
    if k < |o| && k < 8 then
      && r == Err(IoError(o[k].kind))
      && written == w0 + Flatten(HelloParts(x)[..k])
      && outcomes == Drop(o, k + 1)
    else
      && r == Ok(|HelloFrame(x)|)
      && written == w0 + HelloFrame(x)
      && outcomes == Drop(o, 8)
  }

  /** Write j, answered n, either ends the packet with its error or extends what was sent. */
  lemma Advance(x: HelloPacket, o: seq<WriteOutcome>, j: nat, w0: seq<byte>, written: seq<byte>, len: nat,
                written': seq<byte>, outcomes': seq<WriteOutcome>, n: Result<nat>)
    requires j < 8 && Sent(o, HelloParts(x), j, w0, Drop(o, j), written, len)
    requires outcomes' == Drop(Drop(o, j), 1)
    requires match OutcomeAt(Drop(o, j), 0)
      case Accept => n == Ok(|HelloParts(x)[j]|) && written' == written + HelloParts(x)[j]
      case Reject(kind) => n == Err(IoError(kind)) && written' == written
    ensures n.Err? ==> HelloWritten(x, o, w0, written', outcomes', Err(n.error))
    ensures n.Ok? ==> Sent(o, HelloParts(x), j + 1, w0, outcomes', written', len + n.value)
  {
    var parts := HelloParts(x);
    DropStep(o, j);
    if OutcomeAt(o, j).Reject? {
      RejectedNext(o, j);
    } else {
      SentExtends(o, parts, j, w0, written, len);
    }
  }

  /** After all eight writes are accepted the whole frame has been sent. */
  lemma Finish(x: HelloPacket, o: seq<WriteOutcome>, w0: seq<byte>, written: seq<byte>,
               outcomes: seq<WriteOutcome>, len: nat)
    requires Sent(o, HelloParts(x), 8, w0, outcomes, written, len)
    ensures HelloWritten(x, o, w0, written, outcomes, Ok(len))
  {
    assert HelloParts(x)[..8] == HelloParts(x);
  }

  /** The result of `write_hello_packet` read back: it succeeds exactly when all eight
      writes are accepted, and then reports the sum of the eight writes' counts. */
  lemma HelloResult(x: HelloPacket, o: seq<WriteOutcome>, w0: seq<byte>,
                    written: seq<byte>, outcomes: seq<WriteOutcome>, r: Result<nat>)
    requires HelloWritten(x, o, w0, written, outcomes, r)
    ensures r.Ok? <==> AllAccepted(o, 8)
    ensures r.Ok? ==> r.value == SumLengths(HelloParts(x))
  {
    FirstRejectMeaning(o, 8);
    FlattenLength(HelloParts(x));
  }

  /** `write_hello_packet`: eight writes in field order, stopping at the first that fails,
      and the sum of their counts. The writes are proved in three groups: the code and the
      client name here, then the versions, then the credentials. */
  method WriteHelloPacket(w: AsyncWriter, x: HelloPacket) returns (r: Result<nat>)
    requires Encodable(x)
    modifies w
    ensures HelloWritten(x, old(w.outcomes), old(w.written), w.written, w.outcomes, r)
  {
    ghost var o, w0 := w.outcomes, w.written;
    ghost var before: seq<byte>;
    var len: nat := 0;
    var n: Result<nat>;
    assert w.outcomes == Drop(o, 0) && HelloParts(x)[..0] == [];

    before := w.written;
    n := WritePacketCode(w, ClientPacketCode.Hello);
    Advance(x, o, 0, w0, before, len, w.written, w.outcomes, n);
    if n.Err? {
      return Err(n.error);
    }
    len := len + n.value;

    before := w.written;
    n := w.EncodeUtf8String(x.clientName);
    Advance(x, o, 1, w0, before, len, w.written, w.outcomes, n);
    if n.Err? {
      return Err(n.error);
    }
    len := len + n.value;

    r := WriteHelloVersions(w, x, len, o, w0);
  }

  /** Writes 2 to 4 of `write_hello_packet`: major, minor and protocol version, given the
      first two writes have landed and counted `len` bytes; then the credentials. */
  method WriteHelloVersions(w: AsyncWriter, x: HelloPacket, len: nat, ghost o: seq<WriteOutcome>, ghost w0: seq<byte>)
    returns (r: Result<nat>)
    requires Encodable(x)
    requires Sent(o, HelloParts(x), 2, w0, w.outcomes, w.written, len)
    modifies w
    ensures HelloWritten(x, o, w0, w.written, w.outcomes, r)
  {
    ghost var before: seq<byte>;
    var len := len;
    var n: Result<nat>;

    before := w.written;
    n := w.EncodeVarUint(x.versionMajor);
    Advance(x, o, 2, w0, before, len, w.written, w.outcomes, n);
    if n.Err? {
      return Err(n.error);
    }
    len := len + n.value;

    before := w.written;
    n := w.EncodeVarUint(x.versionMinor);
    Advance(x, o, 3, w0, before, len, w.written, w.outcomes, n);
    if n.Err? {
      return Err(n.error);
    }
    len := len + n.value;

    before := w.written;
    n := w.EncodeVarUint(x.protocolVersion);
    Advance(x, o, 4, w0, before, len, w.written, w.outcomes, n);
    if n.Err? {
      return Err(n.error);
    }
    len := len + n.value;

    r := WriteHelloCredentials(w, x, len, o, w0);
  }

  /** Writes 5 to 7 of `write_hello_packet`: database, user name and password, given the
      first five writes have landed and counted `len` bytes. */
  method WriteHelloCredentials(w: AsyncWriter, x: HelloPacket, len: nat, ghost o: seq<WriteOutcome>, ghost w0: seq<byte>)
    returns (r: Result<nat>)
    requires Encodable(x)
    requires Sent(o, HelloParts(x), 5, w0, w.outcomes, w.written, len)
    modifies w
    ensures HelloWritten(x, o, w0, w.written, w.outcomes, r)
  {
    ghost var before: seq<byte>;
    var len := len;
    var n: Result<nat>;

    before := w.written;
    n := w.EncodeUtf8String(x.database);
    Advance(x, o, 5, w0, before, len, w.written, w.outcomes, n);
    if n.Err? {
      return Err(n.error);
    }
    len := len + n.value;

    before := w.written;
    n := w.EncodeUtf8String(x.username);
    Advance(x, o, 6, w0, before, len, w.written, w.outcomes, n);
    if n.Err? {
      return Err(n.error);
    }
    len := len + n.value;

    before := w.written;
    n := w.EncodeUtf8String(x.password);
    Advance(x, o, 7, w0, before, len, w.written, w.outcomes, n);
    if n.Err? {
      return Err(n.error);
    }
    len := len + n.value;

    Finish(x, o, w0, w.written, w.outcomes, len);
    r := Ok(len);
  }

  /** The unit test of the default Hello: the 48 bytes of the reference vector, counted as 48. */
  method WriteDefaultHello() returns (written: seq<byte>, r: Result<nat>)
    ensures written == DEFAULT_HELLO && r == Ok(48)
  {
    var w := new AsyncWriter([]);
    DefaultHelloFrame();
    DefaultEncodable();
    r := WriteHelloPacket(w, Default());
    written := w.written;
  }

  /** A Hello whose third write (the major version) is rejected: the code and the client
      name have gone out, and the transport's error comes back. */
  method WriteHelloRejected(x: HelloPacket, kind: IoErrorKind) returns (written: seq<byte>, r: Result<nat>)
    requires Encodable(x)
    ensures written == [0x00] + Encode.StringFrame(x.clientName) && r == Err(IoError(kind))
  {
    var o: seq<WriteOutcome> := [Accept, Accept, Reject(kind)];
    var w := new AsyncWriter(o);
    assert FirstReject(o) == 2 by {
      assert FirstReject(o[2..]) == 0;
      assert o[1..][1..] == o[2..];
    }
    r := WriteHelloPacket(w, x);
    written := w.written;
    assert HelloParts(x)[..2] == [[0x00], Encode.StringFrame(x.clientName)];
    assert Flatten([Encode.StringFrame(x.clientName)]) == Encode.StringFrame(x.clientName);
  }

  const CLIENT_NAME_BYTES: seq<byte> := [
    99, 108, 105, 99, 107, 104, 111, 117, 115, 101, 45, 110, 97,
    116, 105, 118, 101, 45, 99, 108, 105, 101, 110, 116]
  const DEFAULT_BYTES: seq<byte> := [100, 101, 102, 97, 117, 108, 116]

  /** The bytes of `HelloPacket::default()` as the unit test of `write_hello_packet` lists them:
      code 0, the 24-byte client name, versions 0 and 1, protocol 54451 as [179, 169, 3],
      database and user "default" and an empty password. */
  const DEFAULT_HELLO: seq<byte> :=
    [0, 24] + CLIENT_NAME_BYTES + [0, 1, 179, 169, 3, 7] + DEFAULT_BYTES + [7] + DEFAULT_BYTES + [0]

  lemma ClientNameBytes()
    ensures Utf8.Encode(CLICKHOUSE_CLIENT_NAME) == CLIENT_NAME_BYTES
  {
    Utf8.AsciiBytes(CLICKHOUSE_CLIENT_NAME, CLIENT_NAME_BYTES);
  }

  lemma DefaultNameBytes()
    ensures Utf8.Encode(CLICKHOUSE_DEFAULT_DATABASE) == DEFAULT_BYTES
    ensures Utf8.Encode(CLICKHOUSE_DEFAULT_USERNAME) == DEFAULT_BYTES
  {
    Utf8.AsciiBytes(CLICKHOUSE_DEFAULT_DATABASE, DEFAULT_BYTES);
  }

  /** The frame of a string whose bytes are known and shorter than 128. */
  lemma ShortStringFrame(t: string, b: seq<byte>)
    requires Utf8.Encode(t) == b && |b| < 0x80
    ensures Encode.StringFrame(t) == [|b| as byte] + b
  {
  }

  /** Eight frames with the default values, nested, are the reference vector. */
  lemma DefaultNested(n: seq<byte>, d: seq<byte>)
    ensures [0] + ([24] + n + ([0] + ([1] + ([179, 169, 3] + ([7] + d + ([7] + d + ([0] + [])))))))
         == [0, 24] + n + [0, 1, 179, 169, 3, 7] + d + [7] + d + [0]
  {
  }

  /** The frame of any packet with the default field values. */
  lemma DefaultFieldsFrame(x: HelloPacket)
    requires Utf8.Encode(x.clientName) == CLIENT_NAME_BYTES
    requires x.versionMajor == 0 && x.versionMinor == 1 && x.protocolVersion == 54451
    requires Utf8.Encode(x.database) == DEFAULT_BYTES && Utf8.Encode(x.username) == DEFAULT_BYTES
    requires Utf8.Encode(x.password) == []
    ensures HelloFrame(x) == DEFAULT_HELLO
  {
    var p := HelloParts(x);
    var n, d := CLIENT_NAME_BYTES, DEFAULT_BYTES;
    ShortStringFrame(x.clientName, n);
    ShortStringFrame(x.database, d);
    ShortStringFrame(x.username, d);
    ShortStringFrame(x.password, []);
    UvarintVectors();
    assert p[0] == [0] && p[1] == [24] + n && p[2] == [0] && p[3] == [1];
    assert p[4] == [179, 169, 3] && p[5] == [7] + d && p[6] == [7] + d && p[7] == [0];
    Flatten8(p, []);
    DefaultNested(n, d);
  }

  lemma DefaultEncodable()
    ensures Encodable(Default())
  {
    ClientNameBytes();
    DefaultNameBytes();
  }

  /** The default Hello is the 48-byte reference vector. */
  lemma DefaultHelloFrame()
    ensures HelloFrame(Default()) == DEFAULT_HELLO && |DEFAULT_HELLO| == 48
  {
    ClientNameBytes();
    DefaultNameBytes();
    DefaultFieldsFrame(Default());
  }

  /** Each builder changes exactly the frame of its own field. */
  lemma BuildersReplaceOnePart(p: HelloPacket, s: string)
    ensures HelloParts(WithDatabase(p, s)) == HelloParts(p)[5 := Encode.StringFrame(s)]
    ensures HelloParts(WithUsername(p, s)) == HelloParts(p)[6 := Encode.StringFrame(s)]
    ensures HelloParts(WithPassword(p, s)) == HelloParts(p)[7 := Encode.StringFrame(s)]
  {
  }

  /** A varint field as a reader of the frame takes it: the number and the bytes after it. */
  function ReadU64Field(s: seq<byte>): Option<(u64, seq<byte>)>
  {
    match ScanUvarint(s)
    case Value(v, u) => ScanValueFits(s); Some((v, s[u..]))
    case _ => None
  }

  /** A string field as a reader of the frame takes it: a varint length, then that many
      bytes of UTF-8. */
  function ReadStringField(s: seq<byte>): Option<(string, seq<byte>)>
  {
    var len :- ReadU64Field(s);
    ReadUtf8(len.0, len.1)
  }

  /** n bytes of UTF-8 off the front of t, and the bytes after them. */
  function ReadUtf8(n: nat, t: seq<byte>): Option<(string, seq<byte>)>
  {
    if n <= |t| then
      var str :- Utf8.Decode(t[..n]);
      Some((str, t[n..]))
    else None
  }

  /** A Hello frame as a server reads it: the Hello code, then the seven fields in order. */
  function ParseHello(s: seq<byte>): Option<(HelloPacket, seq<byte>)>
  {
    if s == [] || CodeFromByte(s[0]) != Some(ClientPacketCode.Hello) then None
    else
      var name :- ReadStringField(s[1..]);
      var major :- ReadU64Field(name.1);
      var minor :- ReadU64Field(major.1);
      var protocol :- ReadU64Field(minor.1);
      var database :- ReadStringField(protocol.1);
      var username :- ReadStringField(database.1);
      var password :- ReadStringField(username.1);
      Some((HelloPacket(name.0, major.0, minor.0, protocol.0, database.0, username.0, password.0), password.1))
  }

  lemma ReadU64RoundTrip(v: u64, t: seq<byte>)
    ensures ReadU64Field(Uvarint(v) + t) == Some((v, t))
  {
    ScanRoundTrip(v, t);
    assert (Uvarint(v) + t)[|Uvarint(v)|..] == t;
  }

  lemma ReadUtf8RoundTrip(str: string, t: seq<byte>)
    ensures ReadUtf8(|Utf8.Encode(str)|, Utf8.Encode(str) + t) == Some((str, t))
  {
    var bytes := Utf8.Encode(str);
    var n := |bytes|;
    assert (bytes + t)[..n] == bytes;
    assert (bytes + t)[n..] == t;
    Utf8.DecodeEncode(str);
  }

  lemma ReadStringRoundTrip(str: string, t: seq<byte>)
    requires |Utf8.Encode(str)| < U64_LIMIT
    ensures ReadStringField(Encode.StringFrame(str) + t) == Some((str, t))
  {
    var bytes := Utf8.Encode(str);
    var n: u64 := |bytes|;
    var tt := bytes + t;
    assert Encode.StringFrame(str) + t == Uvarint(n) + tt;
    ReadU64RoundTrip(n, tt);
    ReadUtf8RoundTrip(str, t);
  }

  /** One frame followed by the rest is its first part followed by the others and the rest. */
  lemma FlattenCons(parts: seq<seq<byte>>, k: nat, rest: seq<byte>)
    requires k < |parts|
    ensures Flatten(parts[k..]) + rest == parts[k] + (Flatten(parts[k + 1..]) + rest)
  {
    assert parts[k..][1..] == parts[k + 1..];
  }

  /** Eight frames followed by the rest, as a nested concatenation. */
  lemma Flatten8(p: seq<seq<byte>>, rest: seq<byte>)
    requires |p| == 8
    ensures Flatten(p) + rest
      == p[0] + (p[1] + (p[2] + (p[3] + (p[4] + (p[5] + (p[6] + (p[7] + rest)))))))
  {
    assert p[0..] == p;
    assert Flatten(p[8..]) + rest == rest by { assert p[8..] == []; }
    FlattenCons(p, 7, rest);
    FlattenCons(p, 6, rest);
    FlattenCons(p, 5, rest);
    FlattenCons(p, 4, rest);
    FlattenCons(p, 3, rest);
    FlattenCons(p, 2, rest);
    FlattenCons(p, 1, rest);
    FlattenCons(p, 0, rest);
  }

  /** A server reading what `write_hello_packet` wrote gets the same packet back, and
      stops exactly at the end of its frame. */
  lemma HelloRoundTrip(x: HelloPacket, rest: seq<byte>)
    requires Encodable(x)
    ensures ParseHello(HelloFrame(x) + rest) == Some((x, rest))
  {
    var p := HelloParts(x);
    var t7 := p[7] + rest;
    var t6 := p[6] + t7;
    var t5 := p[5] + t6;
    var t4 := p[4] + t5;
    var t3 := p[3] + t4;
    var t2 := p[2] + t3;
    var t1 := p[1] + t2;
    Flatten8(p, rest);
    var s := HelloFrame(x) + rest;
    assert s == [0] + t1;
    assert s[1..] == t1 && s[0] == 0;
    ReadStringRoundTrip(x.clientName, t2);
    ReadU64RoundTrip(x.versionMajor, t3);
    ReadU64RoundTrip(x.versionMinor, t4);
    ReadU64RoundTrip(x.protocolVersion, t5);
    ReadStringRoundTrip(x.database, t6);
    ReadStringRoundTrip(x.username, t7);
    ReadStringRoundTrip(x.password, rest);
  }

  /** Hence two packets with the same frame are the same packet. */
  lemma HelloFrameInjective(x: HelloPacket, y: HelloPacket)
    requires Encodable(x) && Encodable(y)
    ensures HelloFrame(x) == HelloFrame(y) ==> x == y
  {
    HelloRoundTrip(x, []);
    HelloRoundTrip(y, []);
    assert HelloFrame(x) + [] == HelloFrame(x);
    assert HelloFrame(y) + [] == HelloFrame(y);
  }
}
