/** The two messages the proxy makes up (ErrorResponse and ReadyForQuery).
    Models `make_error_response` of protocol.rs. */
module Messages {
  import opened Bytes
  import opened Utf8

  const SEVERITY: seq<byte> := [0x45, 0x52, 0x52, 0x4F, 0x52]  // ERROR

  /** ReadyForQuery; the transaction status is always "idle". */
  const READY: seq<byte> := [0x5A, 0, 0, 0, 5, 0x49]

  datatype Field = Field(tag: byte, value: seq<byte>)

  function PrintField(f: Field): seq<byte> {
    [f.tag] + f.value + [NUL]
  }

  function PrintFields(fs: seq<Field>): seq<byte> {
    if fs == [] then [] else PrintField(fs[0]) + PrintFields(fs[1..])
  }

  /** Severity twice, localised and not; the SQLSTATE; the message. */
  function ErrorFields(code: seq<byte>, message: seq<byte>): seq<Field> {
    [Field(0x53, SEVERITY), Field(0x56, SEVERITY), Field(0x43, code), Field(0x4D, message)]
  }

  /** Tag, length, body. */
  function Packet(tag: byte, body: seq<byte>): seq<byte> {
    [tag] + ToBe32((|body| + 4) % WORD) + body
  }

  function ErrorResponse(message: string, code: string): seq<byte> {
    Packet(0x45, PrintFields(ErrorFields(Encode(code), Encode(message))) + [NUL])
  }

  lemma {:induction false} Pushed(fs: seq<Field>, f: Field)
    ensures PrintFields(fs) + [f.tag] + f.value + [NUL] == PrintFields(fs + [f])
  {
    if fs == [] {
      assert fs + [f] == [f];
      assert PrintFields([f]) == PrintField(f) + PrintFields([]);
    } else {
      Pushed(fs[1..], f);
      assert (fs + [f])[1..] == fs[1..] + [f];
      assert PrintFields(fs) + [f.tag] + f.value + [NUL]
          == PrintField(fs[0]) + (PrintFields(fs[1..]) + [f.tag] + f.value + [NUL]);
    }
  }

  method MakeErrorResponse(message: string, code: string) returns (packet: seq<byte>)
    ensures packet == ErrorResponse(message, code)
  {
    ghost var s, v := Field(0x53, SEVERITY), Field(0x56, SEVERITY);
    ghost var c, m := Field(0x43, Encode(code)), Field(0x4D, Encode(message));
    var body: seq<byte> := [];
    Pushed([], s);
    body := body + [0x53];
    body := body + SEVERITY + [NUL];
    Pushed([] + [s], v);
    body := body + [0x56];
    body := body + SEVERITY + [NUL];
    Pushed([] + [s] + [v], c);
    body := body + [0x43];
    body := body + Encode(code);
    body := body + [NUL];
    Pushed([] + [s] + [v] + [c], m);
    body := body + [0x4D];
    body := body + Encode(message);
    body := body + [NUL];
    assert [] + [s] + [v] + [c] + [m] == ErrorFields(Encode(code), Encode(message));
    body := body + [NUL];
    var length := (|body| + 4) % WORD;
    packet := [0x45];
    packet := packet + ToBe32(length);
    packet := packet + body;
  }

  /** A client's reading of an ErrorResponse body: tagged strings up to a zero tag,
      which must be the last byte. */
  function ReadFields(b: seq<byte>): Option<seq<Field>>
    decreases |b|
  {
    if b == [] then None
    else if b[0] == NUL then (if |b| == 1 then Some([]) else None)
    else
      match CString(b[1..])
      case None => None
      case Some((value, rest)) =>
        match ReadFields(rest)
        case None => None
        case Some(fs) => Some([Field(b[0], value)] + fs)
  }

  lemma ReadOneField(f: Field, rest: seq<byte>, fs: seq<Field>)
    requires f.tag != NUL && NUL !in f.value && ReadFields(rest) == Some(fs)
    ensures ReadFields(PrintField(f) + rest) == Some([f] + fs)
  {
    var b := PrintField(f) + rest;
    CStringOf(f.value, rest);
    assert b[1..] == f.value + [NUL] + rest;
  }

  lemma {:induction false} FieldsAreReadable(fs: seq<Field>)
    requires forall f :: f in fs ==> f.tag != NUL && NUL !in f.value
    ensures ReadFields(PrintFields(fs) + [NUL]) == Some(fs)
  {
    if fs != [] {
      FieldsAreReadable(fs[1..]);
      assert fs[0] in fs;
      ReadOneField(fs[0], PrintFields(fs[1..]) + [NUL], fs[1..]);
      Assoc(PrintField(fs[0]), PrintFields(fs[1..]), [NUL]);
      assert [fs[0]] + fs[1..] == fs;
    }
  }

  lemma ErrorFieldsLength(code: seq<byte>, message: seq<byte>)
    ensures |PrintFields(ErrorFields(code, message))| == |code| + |message| + 18
  {
    var fs := ErrorFields(code, message);
    assert fs[3..] == [fs[3]] && fs[2..] == [fs[2]] + fs[3..] && fs[1..] == [fs[1]] + fs[2..];
    assert |PrintFields(fs[3..])| == |PrintField(fs[3])|;
    assert |PrintFields(fs[2..])| == |PrintField(fs[2])| + |PrintFields(fs[3..])|;
    assert |PrintFields(fs[1..])| == |PrintField(fs[1])| + |PrintFields(fs[2..])|;
  }

  lemma PacketLayout(tag: byte, body: seq<byte>)
    ensures Packet(tag, body)[5..] == body
    ensures |body| + 4 < WORD ==> Be32(Packet(tag, body)[1..5]) == |Packet(tag, body)| - 1
  {
    assert Packet(tag, body)[1..5] == ToBe32((|body| + 4) % WORD);
  }

  lemma {:induction false} FieldsReadAreNulFree(b: seq<byte>)
    ensures ReadFields(b).Some? ==> forall f :: f in ReadFields(b).value ==> NUL !in f.value
    decreases |b|
  {
    if b != [] && b[0] != NUL && CString(b[1..]).Some? {
      var (value, rest) := CString(b[1..]).value;
      SplitFirst(b[1..], NUL);
      FieldsReadAreNulFree(rest);
      if ReadFields(rest).Some? {
        assert ReadFields(b).value == [Field(b[0], value)] + ReadFields(rest).value;
      }
    }
  }

  lemma BodyIsReadableIff(code: seq<byte>, message: seq<byte>)
    ensures var fs := ErrorFields(code, message);
      ReadFields(PrintFields(fs) + [NUL]) == Some(fs) <==> NUL !in code && NUL !in message
  {
    var fs := ErrorFields(code, message);
    if NUL !in code && NUL !in message {
      FieldsAreReadable(fs);
    } else {
      FieldsReadAreNulFree(PrintFields(fs) + [NUL]);
      assert fs[2] in fs && fs[3] in fs;
    }
  }

  /** An `E` message. A client reads back S and V as ERROR, C as the SQLSTATE and M as
      the text, in the order the server itself emits them, if and only if neither text
      carries a NUL. The length prefix is the true size. */
  lemma ErrorResponseIsReadable(message: string, code: string)
    ensures ErrorResponse(message, code)[0] == 0x45
    ensures var error: seq<byte> := [0x45, 0x52, 0x52, 0x4F, 0x52];
      ReadFields(ErrorResponse(message, code)[5..])
        == Some([Field(0x53, error), Field(0x56, error), Field(0x43, Encode(code)), Field(0x4D, Encode(message))])
      <==> NUL as char !in message && NUL as char !in code
    ensures |Encode(message)| + |Encode(code)| < 0x1000_0000 ==>
      Be32(ErrorResponse(message, code)[1..5]) == |ErrorResponse(message, code)| - 1
  {
    EncodeKeepsAsciiBytes(message, NUL);
    EncodeKeepsAsciiBytes(code, NUL);
    BodyIsReadableIff(Encode(code), Encode(message));
    ErrorFieldsLength(Encode(code), Encode(message));
    PacketLayout(0x45, PrintFields(ErrorFields(Encode(code), Encode(message))) + [NUL]);
  }
}
