/**
  The hand-written HTTP client of request.rs, from the point where a socket
  is open: the request it writes, the status line and headers it reads byte
  by byte, and the one-shot bounded body read. The socket is a `Connection`
  holding the bytes the server sends before it closes, a read cursor, and the
  bytes written so far.
*/
module Request {
  import opened Base
  import opened Utf8
  import opened Text

  /** The parsed head of a response; `headers` has lower-case keys. */
  datatype HttpHeaders = HttpHeaders(code: nat, message: string, version: string, headers: map<string, string>)

  /** Why a request failed: a returned error (its display text), or a Rust
      panic, which the source does not catch. */
  datatype Failure = Error(msg: string) | Panic(msg: string)

  const SliceOutOfRange := "byte index out of range or not on a char boundary"

  const CRLF: seq<byte> := [13, 10]
  const CRLFCRLF: seq<byte> := [13, 10, 13, 10]

  // ---------------------------------------------------------------- the socket

  class Connection {
    /** Everything the server sends before end of stream. A read error ends
        every read loop of request.rs exactly as end of stream does. */
    const incoming: seq<byte>
    var pos: nat
    var outgoing: seq<byte>

    ghost predicate Valid()
      reads this
    {
      pos <= |incoming|
    }

    function Remaining(): seq<byte>
      reads this
      requires Valid()
    {
      incoming[pos..]
    }

    constructor (incoming: seq<byte>)
      ensures Valid() && this.incoming == incoming && pos == 0 && outgoing == []
    {
      this.incoming := incoming;
      pos := 0;
      outgoing := [];
    }

    /** `read` into a one-byte buffer: the next byte, or None at end of stream. */
    method Read() returns (b: Option<byte>)
      requires Valid()
      modifies this`pos
      ensures Valid()
      ensures old(pos) < |incoming| ==> b == Some(incoming[old(pos)]) && pos == old(pos) + 1
      ensures old(pos) == |incoming| ==> b == None && pos == old(pos)
    {
      if pos < |incoming| {
        b := Some(incoming[pos]);
        pos := pos + 1;
      } else {
        b := None;
      }
    }

    /** `read_exact` into `vec![0; n]`: as many bytes as the server still
        sends, up to n, and zeros for the rest of the buffer. */
    method ReadExact(n: nat) returns (buffer: seq<byte>)
      requires Valid()
      modifies this`pos
      ensures Valid()
      ensures buffer == FillBuffer(old(Remaining()), n)
      ensures pos == old(pos) + Min(n, |old(Remaining())|)
    {
      var k := Min(n, |incoming| - pos);
      buffer := incoming[pos..pos + k] + Zeros(n - k);
      pos := pos + k;
    }

    method Write(bytes: seq<byte>)
      modifies this`outgoing
      ensures outgoing == old(outgoing) + bytes
    {
      outgoing := outgoing + bytes;
    }
  }

  function Zeros(n: nat): (z: seq<byte>)
    ensures |z| == n && forall k :: 0 <= k < n ==> z[k] == 0
  {
    seq(n, _ => 0)
  }

  /** The buffer `read_exact` leaves: the available bytes, then the zeros it was created with. */
  function FillBuffer(rest: seq<byte>, n: nat): (buffer: seq<byte>)
    ensures |buffer| == n
    ensures buffer[..Min(n, |rest|)] == rest[..Min(n, |rest|)]
    ensures forall k :: Min(n, |rest|) <= k < n ==> buffer[k] == 0
  {
    rest[..Min(n, |rest|)] + Zeros(n - Min(n, |rest|))
  }

  // ---------------------------------------------------------------- read_stream_until

  predicate EndsWith(s: seq<byte>, t: seq<byte>) {
    |s| >= |t| && s[|s| - |t|..] == t
  }

  /** The first length from n on at which the bytes read so far end with
      `cond`, or the whole input when there is none. */
  function ScanFrom(rest: seq<byte>, cond: seq<byte>, n: nat): (k: nat)
    requires n >= 1
    ensures k <= |rest|
    decreases |rest| + 1 - n
  {
    if n > |rest| then |rest|
    else if EndsWith(rest[..n], cond) then n
    else ScanFrom(rest, cond, n + 1)
  }

  /** What `read_stream_until` takes from the stream. */
  function TakeUntil(rest: seq<byte>, cond: seq<byte>): seq<byte> {
    rest[..ScanFrom(rest, cond, 1)]
  }

  lemma {:induction false} ScanFromFirst(rest: seq<byte>, cond: seq<byte>, n: nat)
    requires 1 <= n <= |rest| + 1
    ensures var k := ScanFrom(rest, cond, n);
            && (forall m :: n <= m < k ==> !EndsWith(rest[..m], cond))
            && ((n <= k && EndsWith(rest[..k], cond))
                || (k == |rest| && forall m :: n <= m <= |rest| ==> !EndsWith(rest[..m], cond)))
    decreases |rest| + 1 - n
  {
    if n <= |rest| && !EndsWith(rest[..n], cond) {
      ScanFromFirst(rest, cond, n + 1);
    }
  }

  /** `read_stream_until` stops right after the first occurrence of the
      terminator, or takes the whole input when the terminator never occurs.
      The check only happens after a byte was read, so at least one byte is
      taken from a non-empty input. */
  lemma {:induction false} TakeUntilFirst(rest: seq<byte>, cond: seq<byte>)
    ensures var r := TakeUntil(rest, cond);
            && r <= rest
            && (forall m :: 1 <= m < |r| ==> !EndsWith(rest[..m], cond))
            && ((|r| >= 1 && EndsWith(r, cond))
                || (r == rest && forall m :: 1 <= m <= |rest| ==> !EndsWith(rest[..m], cond)))
  {
    ScanFromFirst(rest, cond, 1);
    assert rest[..|rest|] == rest;
  }

  /** A first occurrence of the terminator at length n is where the read stops. */
  lemma {:induction false} TakeUntilAt(rest: seq<byte>, cond: seq<byte>, n: nat)
    requires 1 <= n <= |rest| && EndsWith(rest[..n], cond)
    requires forall m :: 1 <= m < n ==> !EndsWith(rest[..m], cond)
    ensures TakeUntil(rest, cond) == rest[..n]
  {
    ScanFromFirst(rest, cond, 1);
  }

  /** Without any occurrence of the terminator the read takes everything. */
  lemma {:induction false} TakeUntilNone(rest: seq<byte>, cond: seq<byte>)
    requires forall m :: 1 <= m <= |rest| ==> !EndsWith(rest[..m], cond)
    ensures TakeUntil(rest, cond) == rest
  {
    TakeUntilFirst(rest, cond);
  }

  /** `Request::read_stream_until`, one byte at a time. */
  method ReadStreamUntil(stream: Connection, condition: seq<byte>) returns (out: string)
    requires stream.Valid()
    modifies stream`pos
    ensures stream.Valid()
    ensures stream.pos == old(stream.pos) + |TakeUntil(old(stream.Remaining()), condition)|
    ensures out == DecodeLossy(TakeUntil(old(stream.Remaining()), condition))
  {
    ghost var rest := stream.Remaining();
    var bytes: seq<byte> := [];
    while true
      invariant stream.Valid() && stream.pos == old(stream.pos) + |bytes|
      invariant |bytes| <= |rest| && bytes == rest[..|bytes|]
      invariant ScanFrom(rest, condition, |bytes| + 1) == ScanFrom(rest, condition, 1)
      decreases |stream.incoming| - stream.pos
    {
      var b := stream.Read();
      if b.None? {
        break;
      }
      bytes := bytes + [b.value];
      if |bytes| >= |condition| {
        var right := bytes[|bytes| - |condition|..];
        if right == condition {
          assert rest[..|bytes|] == bytes;
          break;
        }
      }
    }
    assert rest[..|rest|] == rest;
    out := DecodeLossy(bytes);
  }

  // ---------------------------------------------------------------- send_request

  /** Lines joined with a CRLF after each one. */
  function JoinCrlf(lines: seq<string>): string {
    if lines == [] then "" else lines[0] + "\r\n" + JoinCrlf(lines[1..])
  }

  /** A header line as HTTP writes it. */
  function FieldText(name: string, value: string): string {
    name + ": " + value
  }

  /** The lines of the request `send_request` formats: the request line,
      three header fields, and the empty line that ends the head. */
  function RequestHead(host: string, path: string): seq<string> {
    ["GET " + path + " HTTP/1.0", FieldText("Host", host), FieldText("Accept", "*/*"),
     FieldText("Connection", "close"), ""]
  }

  function RequestText(host: string, path: string): string {
    JoinCrlf(RequestHead(host, path))
  }

  lemma {:induction false} JoinFive(a: string, b: string, c: string, d: string)
    ensures JoinCrlf([a, b, c, d, ""]) == a + "\r\n" + b + "\r\n" + c + "\r\n" + d + "\r\n" + "\r\n"
  {
    var ls: seq<string> := [""];
    assert ls[1..] == [];
    assert JoinCrlf(ls) == "\r\n";
    var e := "\r\n";
    ls := [d] + ls;
    assert ls[1..] == [""];
    assert JoinCrlf(ls) == d + "\r\n" + e;
    e := d + "\r\n" + e;
    ls := [c] + ls;
    assert ls[1..] == [d, ""];
    assert JoinCrlf(ls) == c + "\r\n" + e;
    e := c + "\r\n" + e;
    ls := [b] + ls;
    assert ls[1..] == [c, d, ""];
    assert JoinCrlf(ls) == b + "\r\n" + e;
    e := b + "\r\n" + e;
    ls := [a] + ls;
    assert ls[1..] == [b, c, d, ""];
    assert JoinCrlf(ls) == a + "\r\n" + e;
    assert ls == [a, b, c, d, ""];
  }

  /** The request is the text `send_request` formats, CRLF after each line. */
  lemma {:induction false} RequestTextFormat(host: string, path: string)
    ensures RequestText(host, path)
            == "GET " + path + " HTTP/1.0\r\nHost: " + host + "\r\nAccept: */*\r\nConnection: close\r\n\r\n"
  {
    var line := "GET " + path + " HTTP/1.0";
    JoinFive(line, FieldText("Host", host), FieldText("Accept", "*/*"), FieldText("Connection", "close"));
    JoinTail(line + "\r\n" + FieldText("Host", host), FieldText("Accept", "*/*"), FieldText("Connection", "close"));
    FixedFields();
    RequestLineThenHost(path, host);
  }

  lemma {:induction false} JoinTail(a: string, c: string, d: string)
    ensures a + "\r\n" + c + "\r\n" + d + "\r\n" + "\r\n" == a + ("\r\n" + c + "\r\n" + d + "\r\n\r\n")
  {
  }

  lemma {:induction false} FixedFields()
    ensures "\r\n" + FieldText("Accept", "*/*") + "\r\n" + FieldText("Connection", "close") + "\r\n\r\n"
            == "\r\nAccept: */*\r\nConnection: close\r\n\r\n"
  {
  }

  lemma {:induction false} RequestLineThenHost(path: string, host: string)
    ensures "GET " + path + " HTTP/1.0" + "\r\n" + FieldText("Host", host) == "GET " + path + " HTTP/1.0\r\nHost: " + host
  {
  }

  /** `Request::send_request`: writes the request's UTF-8 bytes. */
  method SendRequest(stream: Connection, host: string, path: string)
    modifies stream`outgoing
    ensures stream.outgoing == old(stream.outgoing) + Encode(RequestText(host, path))
  {
    var requestStr := RequestText(host, path);
    stream.Write(Encode(requestStr));
  }

  /** `str::lines` undoes the CRLF joining of lines that hold no '\n'. */
  lemma {:induction false} LinesJoinCrlf(lines: seq<string>)
    requires forall k :: 0 <= k < |lines| ==> '\n' !in lines[k]
    ensures Lines(JoinCrlf(lines)) == lines
  {
    if lines != [] {
      LinesJoinCrlf(lines[1..]);
      LinesCrlf(lines[0], JoinCrlf(lines[1..]));
    }
  }

  lemma {:induction false} TrimLeadingSpace(t: string)
    ensures Trim(" " + t) == Trim(t)
  {
    assert (" " + t)[1..] == t;
  }

  /** The index of a character with none before it is what `find` returns. */
  lemma {:induction false} FindAt(s: string, c: char, i: nat)
    requires i < |s| && s[i] == c && c !in s[..i]
    ensures Find(s, c) == Some(i)
  {
  }

  /** The header parser reads a written field back as its lower-cased name
      and trimmed value. */
  lemma {:induction false} FieldTextReadsBack(name: string, value: string)
    requires ':' !in name
    ensures HeaderField(FieldText(name, value)) == Some((ToLower(name), Trim(value)))
  {
    var line := FieldText(name, value);
    FindAt(line, ':', |name|) by {
      assert line[|name|] == ':' && line[..|name|] == name;
    }
    assert line[..|name|] == name && line[|name| + 1..] == " " + value;
    TrimLeadingSpace(value);
  }

  /** A capitalised word lower-cases to the word with its first letter lowered. */
  lemma {:induction false} CapitalisedName(name: string, lower: string, c: char, rest: string)
    requires name == [c] + rest && lower == [LowerChar(c)] + rest
    requires forall i :: 0 <= i < |rest| ==> !('A' <= rest[i] <= 'Z')
    ensures ToLower(name) == lower
  {
    ToLowerCons(c, rest);
    ToLowerKeeps(rest);
  }

  /** A value that neither starts nor ends with whitespace is read back as written. */
  predicate Untrimmed(value: string) {
    value == [] || (!IsWhitespace(value[0]) && !IsWhitespace(value[|value| - 1]))
  }

  lemma {:induction false} FieldReadsBackAs(name: string, key: string, value: string)
    requires ':' !in name && ToLower(name) == key && Untrimmed(value)
    ensures HeaderField(FieldText(name, value)) == Some((key, value))
  {
    FieldTextReadsBack(name, value);
    TrimKeeps(value);
  }

  lemma {:induction false} LowerHost()
    ensures ToLower("Host") == "host"
  {
    CapitalisedName("Host", "host", 'H', "ost");
  }

  lemma {:induction false} LowerAccept()
    ensures ToLower("Accept") == "accept"
  {
    CapitalisedName("Accept", "accept", 'A', "ccept");
  }

  lemma {:induction false} LowerConnection()
    ensures ToLower("Connection") == "connection"
  {
    CapitalisedName("Connection", "connection", 'C', "onnection");
  }

  lemma {:induction false} HostField(host: string)
    ensures HeaderField(FieldText("Host", host)) == Some(("host", Trim(host)))
  {
    LowerHost();
    FieldTextReadsBack("Host", host);
  }

  lemma {:induction false} AcceptField(value: string)
    requires Untrimmed(value)
    ensures HeaderField(FieldText("Accept", value)) == Some(("accept", value))
  {
    LowerAccept();
    FieldReadsBackAs("Accept", "accept", value);
  }

  lemma {:induction false} ConnectionField(value: string)
    requires Untrimmed(value)
    ensures HeaderField(FieldText("Connection", value)) == Some(("connection", value))
  {
    LowerConnection();
    FieldReadsBackAs("Connection", "connection", value);
  }

  lemma {:induction false} HeaderMapOfFour(ls: seq<string>, k1: string, v1: string, k2: string, v2: string, k3: string, v3: string)
    requires |ls| == 4 && HeaderField(ls[0]) == Some((k1, v1)) && HeaderField(ls[1]) == Some((k2, v2))
    requires HeaderField(ls[2]) == Some((k3, v3)) && HeaderField(ls[3]) == None
    ensures HeaderMap(ls) == map[k1 := v1][k2 := v2][k3 := v3]
  {
    assert ls[..0] + [ls[0]] == ls[..1];
    assert ls[..1] + [ls[1]] == ls[..2];
    assert ls[..2] + [ls[2]] == ls[..3];
    assert ls[..3] + [ls[3]] == ls;
    HeaderMapAdd(ls[..0], ls[0], k1, v1);
    HeaderMapAdd(ls[..1], ls[1], k2, v2);
    HeaderMapAdd(ls[..2], ls[2], k3, v3);
    HeaderMapSkip(ls[..3], ls[3]);
  }

  /** The header block `send_request` writes, with its two fixed values left open. */
  lemma {:induction false} RequestFieldsReadBack(host: string, accept: string, connection: string)
    requires Untrimmed(accept) && Untrimmed(connection)
    ensures HeaderMap([FieldText("Host", host), FieldText("Accept", accept), FieldText("Connection", connection), ""])
            == map["host" := Trim(host), "accept" := accept, "connection" := connection]
  {
    HostField(host);
    AcceptField(accept);
    ConnectionField(connection);
    HeaderMapOfFour([FieldText("Host", host), FieldText("Accept", accept), FieldText("Connection", connection), ""],
                    "host", Trim(host), "accept", accept, "connection", connection);
  }

  lemma {:induction false} RequestLinesBack(host: string, path: string)
    requires '\n' !in host && '\n' !in path
    ensures Lines(RequestText(host, path)) == RequestHead(host, path)
  {
    var ls := RequestHead(host, path);
    assert '\n' !in ls[1] && '\n' !in ls[2] && '\n' !in ls[3];
    LinesJoinCrlf(ls);
  }

  lemma {:induction false} RequestFieldsBack(host: string, path: string)
    ensures HeaderMap(RequestHead(host, path)[1..])
            == map["host" := Trim(host), "accept" := "*/*", "connection" := "close"]
  {
    assert Untrimmed("*/*") && Untrimmed("close");
    RequestFieldsReadBack(host, "*/*", "close");
    assert RequestHead(host, path)[1..]
           == [FieldText("Host", host), FieldText("Accept", "*/*"), FieldText("Connection", "close"), ""];
  }

  /** Read with the same line splitting and header rules as a response, the
      request gives back its request line and the three header fields it
      sent, lower-cased, followed by the blank line that ends the head. */
  lemma {:induction false} RequestReadsBack(host: string, path: string)
    requires '\n' !in host && '\n' !in path
    ensures Lines(RequestText(host, path)) == RequestHead(host, path)
    ensures Lines(RequestText(host, path))[0] == "GET " + path + " HTTP/1.0"
    ensures HeaderMap(Lines(RequestText(host, path))[1..])
            == map["host" := Trim(host), "accept" := "*/*", "connection" := "close"]
  {
    RequestLinesBack(host, path);
    RequestFieldsBack(host, path);
  }

  // ---------------------------------------------------------------- decode_first_line

  /** `Request::decode_first_line`: the status line, still carrying its line
      ending, cut at fixed byte offsets. The fields are evaluated in the order
      the source writes them (code, then message, then version), so the first
      failing slice or parse decides the failure. */
  function DecodeFirstLine(line: string): (r: Result<HttpHeaders, Failure>)
    ensures !("HTTP/" <= line) && !("ICY" <= line) ==> r == Err(Error("HTTP header missing"))
    ensures "HTTP/" <= line && ByteLen(line) < 14 ==> r == Err(Error("HTTP status line too short"))
    ensures r.Ok? ==> r.value.headers == map[] && r.value.code <= 999
    ensures r.Ok? && "ICY" <= line ==> r.value.version == ""
  {
    if "HTTP/" <= line then
      if ByteLen(line) < 14 then Err(Error("HTTP status line too short"))
      else match Slice(line, 9, 12)
        case None => Err(Panic(SliceOutOfRange))
        case Some(codeText) =>
          match ParseUnsigned(codeText, U32Max)
          case Err(kind) => Err(Error(IntErrorMessage(kind)))
          case Ok(code) =>
            match Slice(line, 13, ByteLen(line))
            case None => Err(Panic(SliceOutOfRange))
            case Some(message) =>
              match Slice(line, 5, 8)
              case None => Err(Panic(SliceOutOfRange))
              case Some(version) =>
                CodeBound(codeText);
                Ok(HttpHeaders(code, message, version, map[]))
    else if "ICY" <= line then
      match Slice(line, 4, 7)
      case None => Err(Panic(SliceOutOfRange))
      case Some(codeText) =>
        match ParseUnsigned(codeText, U32Max)
        case Err(kind) => Err(Error(IntErrorMessage(kind)))
        case Ok(code) =>
          match Slice(line, 8, ByteLen(line))
          case None => Err(Panic(SliceOutOfRange))
          case Some(message) =>
            CodeBound(codeText);
            Ok(HttpHeaders(code, message, "", map[]))
    else Err(Error("HTTP header missing"))
  }

  /** What fits in three bytes is at most three characters. */
  lemma {:induction false} CodeBound(codeText: string)
    requires ByteLen(codeText) == 3
    ensures ParseUnsigned(codeText, U32Max).Ok? ==> ParseUnsigned(codeText, U32Max).value <= 999
  {
    ByteLenAtLeastLength(codeText);
    var r := ParseUnsigned(codeText, U32Max);
    if r.Ok? {
      var digits := if codeText[0] == '+' then codeText[1..] else codeText;
      AccumulateOk(digits, 0, U32Max);
      AccumulateDigits(digits, 0, U32Max);
      DigitsValueBound(digits, 0);
    }
  }

  lemma {:induction false} AccumulateOk(ds: string, acc: nat, max: nat)
    requires Accumulate(ds, acc, max).Ok?
    ensures AllDigits(ds)
    decreases |ds|
  {
    if ds != [] {
      AccumulateOk(ds[1..], acc * 10 + DigitValue(ds[0]), max);
    }
  }

  lemma {:induction false} DigitsValueBound(ds: string, acc: nat)
    requires AllDigits(ds) && |ds| <= 3 && acc == 0
    ensures DigitsValue(ds, acc) <= 999
  {
    if |ds| == 3 {
      var d0, d1, d2 := DigitValue(ds[0]), DigitValue(ds[1]), DigitValue(ds[2]);
      assert ds[1..][0] == ds[1] && ds[1..][1..] == ds[2..] && ds[2..][0] == ds[2] && ds[2..][1..] == [];
      assert DigitsValue(ds, 0) == DigitsValue(ds[2..], d0 * 10 + d1);
    } else if |ds| == 2 {
      var d0, d1 := DigitValue(ds[0]), DigitValue(ds[1]);
      assert ds[1..][0] == ds[1] && ds[1..][1..] == [];
      assert DigitsValue(ds, 0) == DigitsValue(ds[1..], d0);
    } else if |ds| == 1 {
      assert ds[1..] == [];
    }
  }

  /** On an "HTTP/" line whose first 13 bytes are ASCII the fields are the
      fixed slices: code from bytes 9 to 12, version from 5 to 8, and the
      message everything from byte 13 on. */
  lemma {:induction false} HttpLineSlices(line: string)
    requires "HTTP/" <= line && |line| >= 14 && IsAscii(line[..13])
    ensures DecodeFirstLine(line)
            == match ParseUnsigned(line[9..12], U32Max)
               case Ok(code) => Ok(HttpHeaders(code, line[13..], line[5..8], map[]))
               case Err(kind) => Err(Error(IntErrorMessage(kind)))
  {
    ByteLenAtLeastLength(line);
    AsciiSlice(line, 13, 9, 12);
    AsciiSlice(line, 13, 5, 8);
    AsciiSliceToEnd(line, 13, 13);
  }

  /** On an "ICY" line whose first 8 bytes are ASCII: code from bytes 4 to 7,
      the message from byte 8 on, no version. */
  lemma {:induction false} IcyLineSlices(line: string)
    requires "ICY" <= line && |line| >= 8 && IsAscii(line[..8])
    ensures DecodeFirstLine(line)
            == match ParseUnsigned(line[4..7], U32Max)
               case Ok(code) => Ok(HttpHeaders(code, line[8..], "", map[]))
               case Err(kind) => Err(Error(IntErrorMessage(kind)))
  {
    assert !("HTTP/" <= line) by {
      assert line[..3] == "ICY";
    }
    AsciiSlice(line, 8, 4, 7);
    AsciiSliceToEnd(line, 8, 8);
  }

  /** An ICY line shorter than 8 bytes is never accepted: the unguarded
      slices panic (or, at exactly 7 bytes, the code may fail to parse). */
  lemma {:induction false} IcyLineTooShort(line: string)
    requires "ICY" <= line && ByteLen(line) < 8
    ensures DecodeFirstLine(line).Err?
    ensures ByteLen(line) < 7 ==> DecodeFirstLine(line) == Err(Panic(SliceOutOfRange))
  {
    assert !("HTTP/" <= line) by {
      assert line[..3] == "ICY";
    }
  }

  /** Decoding the status line a server writes gives back its parts; the
      message keeps whatever follows the code's space, line ending included. */
  lemma {:induction false} HttpStatusLineRoundTrip(version: string, code: nat, message: string)
    requires |version| == 3 && IsAscii(version) && 100 <= code <= 999 && |message| >= 1
    ensures DecodeFirstLine("HTTP/" + version + " " + FormatNat(code) + " " + message)
            == Ok(HttpHeaders(code, message, version, map[]))
  {
    var digits := FormatNat(code);
    FormatThreeDigits(code);
    var line := "HTTP/" + version + " " + digits + " " + message;
    assert line[..13] == "HTTP/" + version + " " + digits + " ";
    assert line[9..12] == digits && line[5..8] == version && line[13..] == message;
    assert "HTTP/" <= line;
    HttpLineSlices(line);
    ParseFormatNat(code, U32Max);
  }

  lemma {:induction false} IcyStatusLineRoundTrip(code: nat, message: string)
    requires 100 <= code <= 999
    ensures DecodeFirstLine("ICY " + FormatNat(code) + " " + message)
            == Ok(HttpHeaders(code, message, "", map[]))
  {
    var digits := FormatNat(code);
    FormatThreeDigits(code);
    var line := "ICY " + digits + " " + message;
    assert line[..8] == "ICY " + digits + " ";
    assert line[4..7] == digits && line[8..] == message;
    assert "ICY" <= line;
    IcyLineSlices(line);
    ParseFormatNat(code, U32Max);
  }

  // ---------------------------------------------------------------- the header loop

  /** A header line split at its first ':', key lower-cased, value trimmed. */
  function HeaderField(line: string): (f: Option<(string, string)>)
    ensures f.None? <==> ':' !in line
  {
    match Find(line, ':')
    case None => None
    case Some(i) => Some((ToLower(line[..i]), Trim(line[i + 1..])))
  }

  predicate HasKey(line: string, key: string) {
    HeaderField(line).Some? && HeaderField(line).value.0 == key
  }

  /** The map the loop of `read_request` builds from the lines it inserts, in order. */
  function HeaderMap(lines: seq<string>): map<string, string>
    decreases |lines|
  {
    if lines == [] then map[]
    else
      var m := HeaderMap(lines[..|lines| - 1]);
      match HeaderField(lines[|lines| - 1])
      case None => m
      case Some((key, value)) => m[key := value]
  }

  /** A line with a field sets that field, a line without ':' changes nothing. */
  lemma {:induction false} HeaderMapAdd(lines: seq<string>, line: string, key: string, value: string)
    requires HeaderField(line) == Some((key, value))
    ensures HeaderMap(lines + [line]) == HeaderMap(lines)[key := value]
  {
    assert (lines + [line])[..|lines|] == lines;
  }

  lemma {:induction false} HeaderMapSkip(lines: seq<string>, line: string)
    requires HeaderField(line) == None
    ensures HeaderMap(lines + [line]) == HeaderMap(lines)
  {
    assert (lines + [line])[..|lines|] == lines;
  }

  /** One more line either sets its key or changes nothing. */
  lemma {:induction false} HeaderMapStep(lines: seq<string>, key: string)
    requires lines != []
    ensures var n := |lines| - 1;
            && (HasKey(lines[n], key) ==>
                  key in HeaderMap(lines) && HeaderMap(lines)[key] == HeaderField(lines[n]).value.1)
            && (!HasKey(lines[n], key) ==>
                  (key in HeaderMap(lines) <==> key in HeaderMap(lines[..n]))
                  && (key in HeaderMap(lines) ==> HeaderMap(lines)[key] == HeaderMap(lines[..n])[key]))
  {
  }

  /** A key is in the map exactly when some line carries it; lines without ':' add nothing. */
  lemma {:induction false} HeaderMapKeys(lines: seq<string>, key: string)
    ensures key in HeaderMap(lines) <==> exists i :: 0 <= i < |lines| && HasKey(lines[i], key)
    decreases |lines|
  {
    if lines != [] {
      var n := |lines| - 1;
      var init := lines[..n];
      HeaderMapKeys(init, key);
      HeaderMapStep(lines, key);
      if key in HeaderMap(lines) && !HasKey(lines[n], key) {
        var i :| 0 <= i < |init| && HasKey(init[i], key);
        assert lines[i] == init[i];
      }
      forall i | 0 <= i < n && HasKey(lines[i], key)
        ensures key in HeaderMap(lines)
      {
        assert init[i] == lines[i];
      }
    }
  }

  /** The value of a key is the one on the last line that carries it: a
      later duplicate overwrites an earlier one, other keys stay as they were. */
  lemma {:induction false} HeaderMapLastWins(lines: seq<string>, key: string, i: nat)
    requires i < |lines| && HasKey(lines[i], key)
    requires forall j :: i < j < |lines| ==> !HasKey(lines[j], key)
    ensures key in HeaderMap(lines) && HeaderMap(lines)[key] == HeaderField(lines[i]).value.1
    decreases |lines|
  {
    var n := |lines| - 1;
    HeaderMapStep(lines, key);
    if i < n {
      var init := lines[..n];
      assert init[i] == lines[i];
      assert forall j :: i < j < |init| ==> init[j] == lines[j];
      HeaderMapLastWins(init, key, i);
    }
  }

  // ---------------------------------------------------------------- read_request

  /** What `read_request` makes of the bytes the server sends, and how many it consumes. */
  function ParseHead(rest: seq<byte>): (Result<HttpHeaders, Failure>, nat)
  {
    var first := TakeUntil(rest, CRLF);
    match DecodeFirstLine(DecodeLossy(first))
    case Err(f) => (Err(f), |first|)
    case Ok(info) =>
      var block := TakeUntil(rest[|first|..], CRLFCRLF);
      (Ok(info.(headers := HeaderMap(Lines(DecodeLossy(block))))), |first| + |block|)
  }

  lemma {:induction false} EncodeCrlf()
    ensures Encode("\r\n") == CRLF
  {
    assert "\r\n"[1..] == "\n" && "\n"[1..] == "";
  }

  /** The first read of the head stops right after the status line's CRLF
      when the status line holds no '\n'. */
  lemma {:induction false} StatusLineTaken(status: string, more: seq<byte>)
    requires '\n' !in status
    ensures Encode(status + "\r\n") == Encode(status) + CRLF
    ensures TakeUntil(Encode(status + "\r\n") + more, CRLF) == Encode(status + "\r\n")
  {
    var e := Encode(status);
    EncodeAppend(status, "\r\n");
    EncodeCrlf();
    EncodeNoNewline(status);
    var rest := e + CRLF + more;
    assert Encode(status + "\r\n") + more == rest;
    var n := |e| + 2;
    assert rest[..n] == e + CRLF;
    forall m | 1 <= m < n
      ensures !EndsWith(rest[..m], CRLF)
    {
      if m >= 2 {
        assert rest[..m][m - 1] == rest[m - 1];
        if m - 1 < |e| {
          assert rest[m - 1] == e[m - 1];
        }
      }
    }
    TakeUntilAt(rest, CRLF, n);
  }

  /** Bytes with a single LF, at position 1, hold no CRLF CRLF anywhere. */
  lemma {:induction false} BlankThenBodyRunsOn(body: string)
    requires '\n' !in body
    ensures TakeUntil(Encode("\r\n" + body), CRLFCRLF) == Encode("\r\n" + body)
  {
    var block := Encode("\r\n" + body);
    EncodeAppend("\r\n", body);
    EncodeCrlf();
    EncodeNoNewline(body);
    assert block == CRLF + Encode(body);
    forall m | 1 <= m <= |block|
      ensures !EndsWith(block[..m], CRLFCRLF)
    {
      if m >= 4 {
        assert block[..m][m - 1] == block[m - 1] == Encode(body)[m - 3];
      }
    }
    TakeUntilNone(block, CRLFCRLF);
  }

  /** After the blank line, a body without line breaks is one header line. */
  lemma {:induction false} BlankThenBodyFields(body: string)
    requires '\n' !in body
    ensures HeaderMap(Lines("\r\n" + body)) == HeaderMap([body])
  {
    LinesCrlf("", body);
    assert "" + "\r\n" + body == "\r\n" + body;
    assert [""][..0] == [];
    if body == [] {
      assert Lines("\r\n" + body) == [""];
    } else {
      LinesLast(body);
      assert Lines("\r\n" + body) == ["", body];
      assert ["", body][..1] == [""];
    }
  }

  /** A prefix ending with CRLF CRLF has an LF in its last place and two before it. */
  lemma {:induction false} EndsWithBlankLine(b: seq<byte>, m: nat)
    requires 4 <= m <= |b|
    ensures EndsWith(b[..m], CRLFCRLF) ==> b[m - 1] == 10 && b[m - 3] == 10
  {
    assert b[..m][m - 4..][3] == b[m - 1] && b[..m][m - 4..][1] == b[m - 3];
  }

  lemma {:induction false} EndsWithShift(p: seq<byte>, q: seq<byte>, m: nat)
    requires 4 <= m <= |q|
    ensures EndsWith((p + q)[..|p| + m], CRLFCRLF) == EndsWith(q[..m], CRLFCRLF)
  {
    assert (p + q)[..|p| + m][|p| + m - 4..] == q[..m][m - 4..];
  }

  predicate FieldLines(fields: seq<string>) {
    forall i :: 0 <= i < |fields| ==> fields[i] != "" && '\n' !in fields[i]
  }

  predicate NoLf(e: seq<byte>) {
    forall k :: 0 <= k < |e| ==> e[k] != 10
  }

  /** Bytes that start with no LF in their first two places and in which,
      followed by anything, no prefix shorter than the whole ends with CRLF CRLF. */
  predicate NoEarlyBlank(t: seq<byte>, more: seq<byte>) {
    && |t| >= 2 && t[0] != 10 && (|t| > 2 ==> t[1] != 10)
    && forall m :: 1 <= m < |t| ==> !EndsWith((t + more)[..m], CRLFCRLF)
  }

  /** A line's own bytes and its CRLF end no earlier blank line. */
  lemma {:induction false} NoBlankInLine(e0: seq<byte>, rest: seq<byte>)
    requires |e0| >= 1 && NoLf(e0)
    ensures forall m :: 1 <= m <= |e0| + 2 && m <= |e0 + CRLF + rest| ==> !EndsWith((e0 + CRLF + rest)[..m], CRLFCRLF)
  {
    var b := e0 + CRLF + rest;
    forall m | 1 <= m <= |e0| + 2 && m <= |b|
      ensures !EndsWith(b[..m], CRLFCRLF)
    {
      if m >= 4 {
        EndsWithBlankLine(b, m);
        if m - 1 < |e0| {
          assert b[m - 1] == e0[m - 1];
        } else if m - 1 == |e0| {
          assert b[m - 1] == 13;
        } else {
          assert b[m - 3] == e0[m - 3];
        }
      }
    }
  }

  /** Past the first line, an early blank line would be one of the rest. */
  lemma {:induction false} NoBlankAfterLine(e0: seq<byte>, t1: seq<byte>, more: seq<byte>)
    requires |e0| >= 1 && NoEarlyBlank(t1, more)
    ensures forall m :: |e0| + 2 < m < |e0| + 2 + |t1| ==> !EndsWith((e0 + CRLF + t1 + more)[..m], CRLFCRLF)
  {
    var p := e0 + CRLF;
    var b1 := t1 + more;
    var b := e0 + CRLF + t1 + more;
    assert b == p + b1;
    forall m | |e0| + 2 < m < |e0| + 2 + |t1|
      ensures !EndsWith(b[..m], CRLFCRLF)
    {
      var m1 := m - |p|;
      if m1 >= 4 {
        EndsWithShift(p, b1, m1);
      } else if m >= 4 {
        EndsWithBlankLine(b, m);
        assert b[m - 1] == t1[m1 - 1];
        if m1 == 3 {
          assert b[m - 3] == t1[0];
        }
      }
    }
  }

  lemma {:induction false} NoEarlyBlankStep(e0: seq<byte>, t1: seq<byte>, more: seq<byte>)
    requires |e0| >= 1 && NoLf(e0) && NoEarlyBlank(t1, more)
    ensures NoEarlyBlank(e0 + CRLF + t1, more)
    ensures (t1 == CRLF || (|t1| >= 4 && EndsWith(t1, CRLFCRLF))) ==> EndsWith(e0 + CRLF + t1, CRLFCRLF)
  {
    var t := e0 + CRLF + t1;
    NoBlankInLine(e0, t1 + more);
    NoBlankAfterLine(e0, t1, more);
    assert e0 + CRLF + (t1 + more) == t + more;
    assert e0 + CRLF + t1 + more == t + more;
    assert t[0] == e0[0];
    assert |e0| >= 2 ==> t[1] == e0[1];
    assert |e0| == 1 ==> t[1] == 13;
    if t1 == CRLF {
      assert t[|t| - 4..] == t[|e0|..];
    } else if |t1| >= 4 {
      assert t[|t| - 4..] == t1[|t1| - 4..];
    }
  }

  /** The bytes of non-empty header lines followed by the blank line: the
      first CRLF CRLF is the one that ends them, whatever follows. */
  lemma {:induction false} FieldBlockEnds(fields: seq<string>, more: seq<byte>)
    requires FieldLines(fields)
    ensures var t := Encode(JoinCrlf(fields + [""]));
            && NoEarlyBlank(t, more)
            && (fields == [] ==> t == CRLF)
            && (fields != [] ==> |t| >= 4 && EndsWith(t, CRLFCRLF))
    decreases |fields|
  {
    var t := Encode(JoinCrlf(fields + [""]));
    EncodeCrlf();
    if fields == [] {
      assert fields + [""] == [""] && [""][1..] == [];
      assert JoinCrlf([""]) == "\r\n";
    } else {
      var rest := fields[1..];
      FieldLinesTail(fields);
      FieldBlockEnds(rest, more);
      EncodeJoinStep(fields);
      EncodeNoNewline(fields[0]);
      ByteLenAtLeastLength(fields[0]);
      NoEarlyBlankStep(Encode(fields[0]), Encode(JoinCrlf(rest + [""])), more);
    }
  }

  lemma {:induction false} FieldLinesTail(fields: seq<string>)
    requires FieldLines(fields) && fields != []
    ensures FieldLines(fields[1..])
  {
    var rest := fields[1..];
    forall i | 0 <= i < |rest| ensures rest[i] != "" && '\n' !in rest[i] {
      assert rest[i] == fields[i + 1];
    }
  }

  /** The bytes of header lines and the blank line: the first line, its CRLF, then the others. */
  lemma {:induction false} EncodeJoinStep(fields: seq<string>)
    requires fields != []
    ensures Encode(JoinCrlf(fields + [""])) == Encode(fields[0]) + CRLF + Encode(JoinCrlf(fields[1..] + [""]))
  {
    var f0 := fields[0];
    var rest := fields[1..];
    EncodeCrlf();
    assert (fields + [""])[1..] == rest + [""];
    assert JoinCrlf(fields + [""]) == f0 + "\r\n" + JoinCrlf(rest + [""]);
    EncodeAppend(f0, "\r\n");
    EncodeAppend(f0 + "\r\n", JoinCrlf(rest + [""]));
  }

  /** The second read takes the header lines and the blank line, no more. */
  lemma {:induction false} FieldBlockTaken(fields: seq<string>, body: seq<byte>)
    requires FieldLines(fields) && fields != []
    ensures var block := Encode(JoinCrlf(fields + [""]));
            TakeUntil(block + body, CRLFCRLF) == block
  {
    var block := Encode(JoinCrlf(fields + [""]));
    FieldBlockEnds(fields, body);
    assert (block + body)[..|block|] == block;
    TakeUntilAt(block + body, CRLFCRLF, |block|);
  }

  /** The header lines read back give the map of the fields; the blank line adds nothing. */
  lemma {:induction false} FieldBlockFields(fields: seq<string>)
    requires FieldLines(fields)
    ensures HeaderMap(Lines(JoinCrlf(fields + [""]))) == HeaderMap(fields)
  {
    assert forall k :: 0 <= k < |fields + [""]| ==> '\n' !in (fields + [""])[k];
    LinesJoinCrlf(fields + [""]);
    assert Find("", ':') == None;
    HeaderMapSkip(fields, "");
  }

  /** `ParseHead` from what each of its two reads takes. */
  lemma {:induction false} ParseHeadOf(rest: seq<byte>, first: seq<byte>, block: seq<byte>, info: HttpHeaders)
    requires TakeUntil(rest, CRLF) == first
    requires DecodeFirstLine(DecodeLossy(first)) == Ok(info)
    requires TakeUntil(rest[|first|..], CRLFCRLF) == block
    ensures ParseHead(rest).1 == |first| + |block|
    ensures ParseHead(rest).0 == Ok(info.(headers := HeaderMap(Lines(DecodeLossy(block)))))
  {
  }

  /** `ParseHead` on a status line, a header block and a body, given as bytes. */
  lemma {:induction false} HeadOfBytes(first: seq<byte>, block: seq<byte>, body: seq<byte>, info: HttpHeaders)
    requires TakeUntil(first + (block + body), CRLF) == first
    requires DecodeFirstLine(DecodeLossy(first)) == Ok(info)
    requires TakeUntil(block + body, CRLFCRLF) == block
    ensures ParseHead(first + (block + body)).1 == |first| + |block|
    ensures ParseHead(first + (block + body)).0 == Ok(info.(headers := HeaderMap(Lines(DecodeLossy(block)))))
  {
    assert (first + (block + body))[|first|..] == block + body;
    ParseHeadOf(first + (block + body), first, block, info);
  }

  /** A status line and a header block whose end the second read finds:
      the head is the decoded status line with the block's header map, and
      exactly the status line and the block are consumed. */
  lemma {:induction false} HeadOf(status: string, text: string, body: seq<byte>, info: HttpHeaders)
    requires '\n' !in status && DecodeFirstLine(status + "\r\n") == Ok(info)
    requires TakeUntil(Encode(text) + body, CRLFCRLF) == Encode(text)
    ensures ParseHead(Encode(status + "\r\n" + text) + body).0 == Ok(info.(headers := HeaderMap(Lines(text))))
    ensures ParseHead(Encode(status + "\r\n" + text) + body).1 == ByteLen(status + "\r\n" + text)
  {
    StatusLineTaken(status, Encode(text) + body);
    DecodeEncode(status + "\r\n");
    DecodeEncode(text);
    HeadOfBytes(Encode(status + "\r\n"), Encode(text), body, info);
    HeadBytesSplit(status + "\r\n", text, body);
  }

  lemma {:induction false} HeadBytesSplit(line: string, text: string, body: seq<byte>)
    ensures Encode(line + text) + body == Encode(line) + (Encode(text) + body)
    ensures ByteLen(line + text) == |Encode(line)| + |Encode(text)|
  {
    EncodeAppend(line, text);
  }

  /** A head of non-empty header lines ended by the blank line is consumed
      exactly, whatever body follows, and yields the fields' header map. */
  lemma {:induction false} HeadWithFields(status: string, fields: seq<string>, body: seq<byte>, info: HttpHeaders)
    requires '\n' !in status && FieldLines(fields) && fields != []
    requires DecodeFirstLine(status + "\r\n") == Ok(info)
    ensures var head := Encode(status + "\r\n" + JoinCrlf(fields + [""]));
            ParseHead(head + body).0 == Ok(info.(headers := HeaderMap(fields)))
    ensures var head := Encode(status + "\r\n" + JoinCrlf(fields + [""]));
            ParseHead(head + body).1 == |head|
  {
    FieldBlockTaken(fields, body);
    FieldBlockFields(fields);
    HeadOf(status, JoinCrlf(fields + [""]), body, info);
  }

  /** A head without header fields: the blank line right after the status
      line is no CRLF CRLF of its own, so the second read runs on through the
      body (here a body without line breaks), which is read as a header line. */
  lemma {:induction false} HeadWithoutFields(status: string, body: string, info: HttpHeaders)
    requires '\n' !in status && '\n' !in body
    requires DecodeFirstLine(status + "\r\n") == Ok(info)
    ensures var bytes := Encode(status + "\r\n" + "\r\n" + body);
            ParseHead(bytes).0 == Ok(info.(headers := HeaderMap([body])))
    ensures var bytes := Encode(status + "\r\n" + "\r\n" + body);
            ParseHead(bytes).1 == |bytes|
  {
    var text := "\r\n" + body;
    assert status + "\r\n" + "\r\n" + body == status + "\r\n" + text;
    BlankThenBodyRunsOn(body);
    assert Encode(text) + [] == Encode(text);
    assert Encode(status + "\r\n" + text) + [] == Encode(status + "\r\n" + text);
    HeadOf(status, text, [], info);
    BlankThenBodyFields(body);
  }

  /** `Request::read_request`: the status line up to the first CRLF, then
      everything up to the next CRLF CRLF as header lines. */
  method ReadRequest(stream: Connection) returns (r: Result<HttpHeaders, Failure>)
    requires stream.Valid()
    modifies stream`pos
    ensures stream.Valid()
    ensures r == ParseHead(old(stream.Remaining())).0
    ensures stream.pos == old(stream.pos) + ParseHead(old(stream.Remaining())).1
  {
    ghost var rest := stream.Remaining();
    ghost var firstBytes := TakeUntil(rest, CRLF);
    var out := ReadStreamUntil(stream, CRLF);
    var first := DecodeFirstLine(out);
    if first.Err? {
      return Err(first.error);
    }
    assert stream.Remaining() == rest[|firstBytes|..];
    out := ReadStreamUntil(stream, CRLFCRLF);
    var lines := Lines(out);
    var httpinfo := InsertHeaders(first.value, lines);
    r := Ok(httpinfo);
  }

  /** The loop of `read_request` that inserts each header line into the
      (still empty) map of the decoded status line. */
  method InsertHeaders(info: HttpHeaders, lines: seq<string>) returns (httpinfo: HttpHeaders)
    requires info.headers == map[]
    ensures httpinfo == info.(headers := HeaderMap(lines))
  {
    httpinfo := info;
    var i := 0;
    while i < |lines|
      invariant 0 <= i <= |lines|
      invariant httpinfo == info.(headers := HeaderMap(lines[..i]))
    {
      var line := lines[i];
      assert lines[..i + 1] == lines[..i] + [line];
      match Find(line, ':') {
        case Some(index) =>
          var key, value := line[..index], line[index..];
          assert value[1..] == line[index + 1..];
          HeaderMapAdd(lines[..i], line, ToLower(key), Trim(value[1..]));
          httpinfo := httpinfo.(headers := httpinfo.headers[ToLower(key) := Trim(value[1..])]);
        case None =>
          HeaderMapSkip(lines[..i], line);
      }
      i := i + 1;
    }
    assert lines[..|lines|] == lines;
  }

  // ---------------------------------------------------------------- the request and its body

  const DefaultContentLength: nat := 10000

  /** `content-length` parsed as a usize, 10000 when absent or unparseable. */
  function ContentLength(headers: map<string, string>): nat {
    var text := if "content-length" in headers then headers["content-length"] else "";
    match ParseUnsigned(text, UsizeMax)
    case Ok(n) => n
    case Err(_) => DefaultContentLength
  }

  /** The content after the first body read: the buffer's text when it is
      valid UTF-8, otherwise what the content was before. */
  function ContentAfter(previous: string, buffer: seq<byte>): string {
    match Decode(buffer)
    case Some(text) => text
    case None => previous
  }

  /** The content is replaced exactly when the buffer is well-formed UTF-8,
      and then by the text whose encoding the buffer is. */
  lemma {:induction false} ContentAfterValid(previous: string, buffer: seq<byte>)
    ensures Decode(buffer).None? ==> ContentAfter(previous, buffer) == previous
    ensures Decode(buffer).Some? ==> Encode(ContentAfter(previous, buffer)) == buffer
  {
    if Decode(buffer).Some? {
      EncodeDecode(buffer);
    }
  }

  class Request {
    const url: string
    const info: HttpHeaders
    const readable: Connection
    var contentReadDone: bool
    var content: string

    ghost predicate Valid()
      reads this, readable
    {
      readable.Valid()
    }

    constructor (url: string, info: HttpHeaders, readable: Connection)
      requires readable.Valid()
      ensures Valid() && this.url == url && this.info == info && this.readable == readable
      ensures !contentReadDone && content == ""
    {
      this.url := url;
      this.info := info;
      this.readable := readable;
      contentReadDone := false;
      content := "";
    }

    /** `Request::read_content`: the first call reads the body once, every
        later call does nothing. */
    method ReadContent()
      requires Valid()
      modifies this`contentReadDone, this`content, readable`pos
      ensures Valid() && contentReadDone
      ensures old(contentReadDone) ==> content == old(content) && readable.pos == old(readable.pos)
      ensures !old(contentReadDone) ==>
                var n := ContentLength(info.headers);
                && readable.pos == old(readable.pos) + Min(n, |old(readable.Remaining())|)
                && content == ContentAfter(old(content), FillBuffer(old(readable.Remaining()), n))
    {
      if contentReadDone {
        return;
      }
      contentReadDone := true;
      var contentLength := ContentLength(info.headers);
      var buffer := readable.ReadExact(contentLength);
      var out := Decode(buffer);
      match out {
        case Some(text) => content := text;
        case None =>
      }
    }

    function GetContent(): string
      reads this
    {
      content
    }
  }

  /** Reading the body twice yields the same content both times, and the
      second read takes nothing more from the socket. */
  method ReadContentTwice(request: Request) returns (first: string, second: string)
    requires request.Valid()
    modifies request`contentReadDone, request`content, request.readable`pos
    ensures first == second
    ensures !old(request.contentReadDone) ==> request.readable.pos == old(request.readable.pos) + Min(ContentLength(request.info.headers), |old(request.readable.Remaining())|)
  {
    request.ReadContent();
    first := request.GetContent();
    request.ReadContent();
    second := request.GetContent();
  }

  /** The fallback of 10000 bytes applies when the header is missing or not a number. */
  lemma {:induction false} ContentLengthDefault(headers: map<string, string>)
    requires "content-length" !in headers
             || ParseUnsigned(headers["content-length"], UsizeMax).Err?
    ensures ContentLength(headers) == 10000
  {
  }

  lemma {:induction false} ContentLengthDeclared(headers: map<string, string>, n: nat)
    requires n <= UsizeMax && "content-length" in headers && headers["content-length"] == FormatNat(n)
    ensures ContentLength(headers) == n
  {
    ParseFormatNat(n, UsizeMax);
  }

  /** With a correct content-length the body read yields exactly the text the server sent. */
  lemma {:induction false} BodyRoundTrip(previous: string, text: string, more: seq<byte>)
    ensures ContentAfter(previous, FillBuffer(Encode(text) + more, ByteLen(text))) == text
  {
    assert FillBuffer(Encode(text) + more, ByteLen(text)) == Encode(text);
    DecodeEncode(text);
  }

  /** When the server sends fewer bytes than announced, the buffer keeps its
      zeros, so the content is the text followed by NUL characters. */
  lemma {:induction false} ShortBodyPadsWithNul(previous: string, text: string, n: nat)
    requires n >= ByteLen(text)
    ensures ContentAfter(previous, FillBuffer(Encode(text), n)) == text + seq(n - ByteLen(text), _ => '\0')
  {
    var nuls := seq(n - ByteLen(text), _ => '\0');
    EncodeNuls(n - ByteLen(text));
    EncodeAppend(text, nuls);
    assert FillBuffer(Encode(text), n) == Encode(text + nuls);
    DecodeEncode(text + nuls);
  }

  lemma {:induction false} EncodeNuls(k: nat)
    ensures Encode(seq(k, _ => '\0')) == Zeros(k)
  {
    if k > 0 {
      assert seq(k, _ => '\0')[1..] == seq(k - 1, _ => '\0');
      EncodeNuls(k - 1);
    }
  }

  /** The scheme-independent tail of `Request::new`, once a stream is
      connected: send the request, read the head, wrap the stream. */
  method Exchange(url: string, host: string, path: string, stream: Connection) returns (r: Result<Request, Failure>)
    requires stream.Valid()
    modifies stream`pos, stream`outgoing
    ensures stream.Valid()
    ensures stream.outgoing == old(stream.outgoing) + Encode(RequestText(host, path))
    ensures stream.pos == old(stream.pos) + ParseHead(old(stream.Remaining())).1
    ensures ParseHead(old(stream.Remaining())).0.Err? ==> r == Err(ParseHead(old(stream.Remaining())).0.error)
    ensures r.Ok? ==> && ParseHead(old(stream.Remaining())).0 == Ok(r.value.info)
                      && fresh(r.value) && r.value.Valid() && r.value.url == url
                      && r.value.readable == stream && !r.value.contentReadDone && r.value.content == ""
    ensures ParseHead(old(stream.Remaining())).0.Ok? ==> r.Ok?
  {
    SendRequest(stream, host, path);
    var header := ReadRequest(stream);
    if header.Err? {
      return Err(header.error);
    }
    var request := new Request(url, header.value, stream);
    r := Ok(request);
  }
}
