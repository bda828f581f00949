/** UTF-8 as defined by section 4 of RFC 3629 (Syntax of UTF-8 Byte Sequences).
    A Rust `String` is a byte vector that satisfies `Valid`; `str::as_bytes` is `Encode`
    and `String::from_utf8` is `Decode`. */
module Utf8 {
  import opened Bytes
  import opened Errors

  /** UTF8-tail = %x80-BF */
  predicate IsTail(b: byte) {
    0x80 <= b <= 0xBF
  }

  /** The second byte allowed after a three-byte lead (excludes overlongs after E0, surrogates after ED). */
  predicate SecondOf3(lead: byte, b: byte) {
    if lead == 0xE0 then 0xA0 <= b <= 0xBF
    else if lead == 0xED then 0x80 <= b <= 0x9F
    else IsTail(b)
  }

  /** The second byte allowed after a four-byte lead (excludes overlongs after F0, values past U+10FFFF after F4). */
  predicate SecondOf4(lead: byte, b: byte) {
    if lead == 0xF0 then 0x90 <= b <= 0xBF
    else if lead == 0xF4 then 0x80 <= b <= 0x8F
    else IsTail(b)
  }

  /** The length of the UTF8-char that s starts with, or 0 when s does not start with one. */
  function CharWidth(s: seq<byte>): (n: nat)
    ensures n <= 4 && n <= |s|
    ensures n == 0 <==> s == [] || !WellFormedLead(s)
  {
    if s == [] then 0
    else if s[0] <= 0x7F then 1
    else if 0xC2 <= s[0] <= 0xDF then (if |s| >= 2 && IsTail(s[1]) then 2 else 0)
    else if 0xE0 <= s[0] <= 0xEF then (if |s| >= 3 && SecondOf3(s[0], s[1]) && IsTail(s[2]) then 3 else 0)
    else if 0xF0 <= s[0] <= 0xF4 then (if |s| >= 4 && SecondOf4(s[0], s[1]) && IsTail(s[2]) && IsTail(s[3]) then 4 else 0)
    else 0
  }

  /** The grammar of section 4 of RFC 3629, one alternative per line. */
  predicate WellFormedLead(s: seq<byte>)
    requires s != []
  {
    || s[0] <= 0x7F
    || (|s| >= 2 && 0xC2 <= s[0] <= 0xDF && IsTail(s[1]))
    || (|s| >= 3 && s[0] == 0xE0 && 0xA0 <= s[1] <= 0xBF && IsTail(s[2]))
    || (|s| >= 3 && (0xE1 <= s[0] <= 0xEC || 0xEE <= s[0] <= 0xEF) && IsTail(s[1]) && IsTail(s[2]))
    || (|s| >= 3 && s[0] == 0xED && 0x80 <= s[1] <= 0x9F && IsTail(s[2]))
    || (|s| >= 4 && s[0] == 0xF0 && 0x90 <= s[1] <= 0xBF && IsTail(s[2]) && IsTail(s[3]))
    || (|s| >= 4 && 0xF1 <= s[0] <= 0xF3 && IsTail(s[1]) && IsTail(s[2]) && IsTail(s[3]))
    || (|s| >= 4 && s[0] == 0xF4 && 0x80 <= s[1] <= 0x8F && IsTail(s[2]) && IsTail(s[3]))
  }

  /** UTF8-octets = *( UTF8-char ) */
  predicate Valid(s: seq<byte>)
    decreases |s|
  {
    s == [] || (CharWidth(s) > 0 && Valid(s[CharWidth(s)..]))
  }

  /** A Unicode scalar value: a code point that is not a surrogate. */
  predicate IsScalar(v: int) {
    0 <= v < 0xD800 || 0xE000 <= v < 0x11_0000
  }

  /** The bytes of one character, shortest form, per the table of section 3 of RFC 3629. */
  function EncodeChar(c: char): (r: seq<byte>)
    ensures 1 <= |r| <= 4
  {
    var v := c as int;
    if v < 0x80 then [v]
    else if v < 0x800 then [0xC0 + v / 0x40, 0x80 + v % 0x40]
    else if v < 0x1_0000 then [0xE0 + v / 0x1000, 0x80 + v / 0x40 % 0x40, 0x80 + v % 0x40]
    else [0xF0 + v / 0x4_0000, 0x80 + v / 0x1000 % 0x40, 0x80 + v / 0x40 % 0x40, 0x80 + v % 0x40]
  }

  /** The scalar value carried by the well-formed character s starts with. */
  function CodePoint(s: seq<byte>): (v: int)
    requires CharWidth(s) > 0
    ensures IsScalar(v)
  {
    var n := CharWidth(s);
    var b0 := s[0] as int;
    if n == 1 then b0
    else if n == 2 then Join2(b0 - 0xC0, s[1] as int - 0x80)
    else if n == 3 then Join3(b0 - 0xE0, s[1] as int - 0x80, s[2] as int - 0x80)
    else Join4(b0 - 0xF0, s[1] as int - 0x80, s[2] as int - 0x80, s[3] as int - 0x80)
  }

  /** Lead payload followed by six-bit tail payloads, most significant first. */
  function Join2(a: int, b: int): int { a * 0x40 + b }
  function Join3(a: int, b: int, c: int): int { Join2(a, b) * 0x40 + c }
  function Join4(a: int, b: int, c: int, d: int): int { Join3(a, b, c) * 0x40 + d }

  function DecodeChar(s: seq<byte>): char
    requires CharWidth(s) > 0
  {
    CodePoint(s) as char
  }

  /** `str::as_bytes`: the UTF-8 form of a string. */
  function Encode(t: string): seq<byte>
  {
    if t == [] then [] else EncodeChar(t[0]) + Encode(t[1..])
  }

  /** `String::from_utf8`: the string the bytes spell, or None when they are not UTF-8. */
  function Decode(s: seq<byte>): Option<string>
    decreases |s|
  {
    if s == [] then Some([])
    else if CharWidth(s) == 0 then None
    else match Decode(s[CharWidth(s)..])
      case None => None
      case Some(t) => Some([DecodeChar(s)] + t)
  }

  /** Splitting a number into a quotient and a six-bit remainder and joining them back is the identity. */
  lemma Split64(v: nat)
    ensures v == v / 0x40 * 0x40 + v % 0x40 && 0 <= v % 0x40 < 0x40
  {
  }

  lemma Join64(a: int, b: int)
    requires 0 <= a && 0 <= b < 0x40
    ensures Join2(a, b) / 0x40 == a && Join2(a, b) % 0x40 == b
  {
  }

  /** `String::from_utf8` with the error the decoders report: the rejected bytes come back in the error. */
  function FromUtf8(bytes: seq<byte>): (r: Result<string>)
    ensures r.Ok? <==> Valid(bytes)
    ensures r.Ok? ==> Encode(r.value) == bytes
    ensures r.Err? ==> r.error == FromUtf8Error(bytes)
  {
    DecodeSucceedsIffValid(bytes);
    match Decode(bytes)
    case Some(t) => EncodeDecode(bytes, t); Ok(t)
    case None => Err(FromUtf8Error(bytes))
  }

  /** Encoding one character yields exactly one well-formed character that decodes back to it. */
  lemma EncodeCharWellFormed(c: char, rest: seq<byte>)
    ensures CharWidth(EncodeChar(c) + rest) == |EncodeChar(c)|
    ensures DecodeChar(EncodeChar(c) + rest) == c
  {
    var v := c as int;
    var s := EncodeChar(c) + rest;
    if v < 0x80 {
    } else if v < 0x800 {
      EncodeChar2(v, s);
    } else if v < 0x1_0000 {
      EncodeChar3(v, s);
    } else {
      EncodeChar4(v, s);
    }
  }

  lemma EncodeChar2(v: int, s: seq<byte>)
    requires 0x80 <= v < 0x800 && |s| >= 2
    requires s[0] == 0xC0 + v / 0x40 && s[1] == 0x80 + v % 0x40
    ensures CharWidth(s) == 2 && CodePoint(s) == v
  {
    Split64(v);
  }

  lemma EncodeChar3(v: int, s: seq<byte>)
    requires 0x800 <= v < 0x1_0000 && IsScalar(v) && |s| >= 3
    requires s[0] == 0xE0 + v / 0x1000 && s[1] == 0x80 + v / 0x40 % 0x40 && s[2] == 0x80 + v % 0x40
    ensures CharWidth(s) == 3 && CodePoint(s) == v
  {
    var q := v / 0x40;
    Split64(v);
    Split64(q);
    assert v / 0x1000 == q / 0x40;
    assert CharWidth(s) == 3;
  }

  lemma EncodeChar4(v: int, s: seq<byte>)
    requires 0x1_0000 <= v < 0x11_0000 && |s| >= 4
    requires s[0] == 0xF0 + v / 0x4_0000 && s[1] == 0x80 + v / 0x1000 % 0x40
    requires s[2] == 0x80 + v / 0x40 % 0x40 && s[3] == 0x80 + v % 0x40
    ensures CharWidth(s) == 4 && CodePoint(s) == v
  {
    var q := v / 0x40;
    var q2 := q / 0x40;
    Split64(v);
    Split64(q);
    Split64(q2);
    assert v / 0x1000 == q2;
    assert v / 0x4_0000 == q2 / 0x40;
    assert CharWidth(s) == 4;
  }

  /** Re-encoding a decoded character reproduces its bytes: no two byte forms share a character. */
  lemma DecodeCharCanonical(s: seq<byte>)
    requires CharWidth(s) > 0
    ensures EncodeChar(DecodeChar(s)) == s[..CharWidth(s)]
  {
    var n := CharWidth(s);
    if n == 2 {
      Canonical2(s);
    } else if n == 3 {
      Canonical3(s);
    } else if n == 4 {
      Canonical4(s);
    }
  }

  lemma Canonical2(s: seq<byte>)
    requires CharWidth(s) == 2
    ensures EncodeChar(DecodeChar(s)) == s[..2]
  {
    var a, b := s[0] as int - 0xC0, s[1] as int - 0x80;
    Join64(a, b);
    var v := Join2(a, b);
    assert CodePoint(s) == v;
    assert 0x80 <= v < 0x800;
    assert EncodeChar(v as char) == [0xC0 + a, 0x80 + b];
  }

  lemma Canonical3(s: seq<byte>)
    requires CharWidth(s) == 3
    ensures EncodeChar(DecodeChar(s)) == s[..3]
  {
    var a, b, c := s[0] as int - 0xE0, s[1] as int - 0x80, s[2] as int - 0x80;
    Join64(a, b);
    Join64(Join2(a, b), c);
    var v := Join3(a, b, c);
    assert CodePoint(s) == v;
    assert v / 0x1000 == v / 0x40 / 0x40;
    assert 0x800 <= v < 0x1_0000;
    assert EncodeChar(v as char) == [0xE0 + a, 0x80 + b, 0x80 + c];
  }

  lemma Canonical4(s: seq<byte>)
    requires CharWidth(s) == 4
    ensures EncodeChar(DecodeChar(s)) == s[..4]
  {
    var a, b, c, d := s[0] as int - 0xF0, s[1] as int - 0x80, s[2] as int - 0x80, s[3] as int - 0x80;
    Join64(a, b);
    Join64(Join2(a, b), c);
    Join64(Join3(a, b, c), d);
    var v := Join4(a, b, c, d);
    assert CodePoint(s) == v;
    assert v / 0x1000 == v / 0x40 / 0x40;
    assert v / 0x4_0000 == v / 0x40 / 0x40 / 0x40;
    assert 0x1_0000 <= v < 0x11_0000;
    assert EncodeChar(v as char) == [0xF0 + a, 0x80 + b, 0x80 + c, 0x80 + d];
  }

  /** `from_utf8(as_bytes(t))` gives back t, for every string. */
  lemma {:induction false} DecodeEncode(t: string)
    ensures Decode(Encode(t)) == Some(t)
  {
    if t != [] {
      var s := Encode(t);
      EncodeCharWellFormed(t[0], Encode(t[1..]));
      assert s[CharWidth(s)..] == Encode(t[1..]);
      DecodeEncode(t[1..]);
      assert [t[0]] + t[1..] == t;
    }
  }

  /** A well-formed character is the encoding of the character it decodes to, followed by the rest. */
  lemma DecodeHead(s: seq<byte>)
    requires CharWidth(s) > 0
    ensures s == EncodeChar(DecodeChar(s)) + s[CharWidth(s)..]
  {
    DecodeCharCanonical(s);
    assert s[..CharWidth(s)] + s[CharWidth(s)..] == s;
  }

  lemma EncodeCons(c: char, t: string)
    ensures Encode([c] + t) == EncodeChar(c) + Encode(t)
  {
    assert ([c] + t)[1..] == t;
  }

  /** Whatever `from_utf8` accepts is the encoding of the string it returns. */
  lemma {:induction false} EncodeDecode(s: seq<byte>, t: string)
    requires Decode(s) == Some(t)
    ensures Encode(t) == s
  {
    if s != [] {
      var n := CharWidth(s);
      var rest := Decode(s[n..]).value;
      EncodeDecode(s[n..], rest);
      DecodeHead(s);
      EncodeCons(DecodeChar(s), rest);
    }
  }

  /** `from_utf8` succeeds exactly on the byte strings that RFC 3629 calls UTF-8. */
  lemma {:induction false} DecodeSucceedsIffValid(s: seq<byte>)
    ensures Decode(s).Some? <==> Valid(s)
  {
    if s != [] && CharWidth(s) > 0 {
      DecodeSucceedsIffValid(s[CharWidth(s)..]);
    }
  }

  /** `String::from_utf8` accepts the bytes of every string and gives that string back. */
  lemma FromUtf8Encode(t: string)
    ensures FromUtf8(Encode(t)) == Ok(t)
  {
    DecodeEncode(t);
  }

  /** Every encoded string is valid UTF-8. */
  lemma EncodeValid(t: string)
    ensures Valid(Encode(t))
  {
    DecodeEncode(t);
    DecodeSucceedsIffValid(Encode(t));
  }

  lemma {:induction false} EncodeAppend(a: string, b: string)
    ensures Encode(a + b) == Encode(a) + Encode(b)
  {
    if a == [] {
      assert a + b == b;
    } else {
      assert (a + b)[0] == a[0] && (a + b)[1..] == a[1..] + b;
      EncodeAppend(a[1..], b);
    }
  }

  predicate IsAscii(t: string) {
    forall i :: 0 <= i < |t| ==> t[i] as int < 0x80
  }

  /** An ASCII string is its own byte string: one byte per character, equal to its code. */
  lemma {:induction false} EncodeAscii(t: string)
    requires IsAscii(t)
    ensures |Encode(t)| == |t|
    ensures forall i :: 0 <= i < |t| ==> Encode(t)[i] == t[i] as int
  {
    if t != [] {
      EncodeAscii(t[1..]);
    }
  }

  /** An ASCII string given with its byte codes encodes to exactly those bytes. */
  lemma AsciiBytes(t: string, b: seq<byte>)
    requires |t| == |b| && forall i :: 0 <= i < |t| ==> t[i] as int == b[i] < 0x80
    ensures Encode(t) == b
  {
    EncodeAscii(t);
  }

  lemma Encode2(a: char, b: char)
    ensures Encode([a, b]) == EncodeChar(a) + EncodeChar(b)
  {
    EncodeCons(a, [b]);
    EncodeCons(b, []);
  }

  lemma Encode4(a: char, b: char, c: char, d: char)
    ensures Encode([a, b, c, d]) == EncodeChar(a) + EncodeChar(b) + EncodeChar(c) + EncodeChar(d)
  {
    EncodeAppend([a, b], [c, d]);
    assert [a, b] + [c, d] == [a, b, c, d];
    Encode2(a, b);
    Encode2(c, d);
  }

  /** A CJK pair: three bytes per character. */
  lemma CjkSample()
    ensures Encode("\U{4F60}\U{597D}") == [0xE4, 0xBD, 0xA0, 0xE5, 0xA5, 0xBD]
  {
    Encode2('\U{4F60}', '\U{597D}');
    assert EncodeChar('\U{4F60}') == [0xE4, 0xBD, 0xA0];
    assert EncodeChar('\U{597D}') == [0xE5, 0xA5, 0xBD];
  }

  /** An emoji ZWJ sequence: 3 + 3 + 3 + 4 bytes. */
  lemma EmojiSample()
    ensures Encode("\U{2764}\U{FE0F}\U{200D}\U{1F525}")
         == [0xE2, 0x9D, 0xA4, 0xEF, 0xB8, 0x8F, 0xE2, 0x80, 0x8D, 0xF0, 0x9F, 0x94, 0xA5]
  {
    Encode4('\U{2764}', '\U{FE0F}', '\U{200D}', '\U{1F525}');
    assert EncodeChar('\U{2764}') == [0xE2, 0x9D, 0xA4];
    assert EncodeChar('\U{FE0F}') == [0xEF, 0xB8, 0x8F];
    assert EncodeChar('\U{200D}') == [0xE2, 0x80, 0x8D];
    assert EncodeChar('\U{1F525}') == [0xF0, 0x9F, 0x94, 0xA5];
  }
}
