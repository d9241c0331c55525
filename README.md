# stream-check, modelled in Dafny

This project models the two core files of stream-check, a radio-stream checker written in Rust:

- `src/request.rs` is a small hand-written HTTP/1.0 client. It writes a GET request, reads the status line and header block one byte at a time, and reads the body once, bounded by `content-length`.
- `src/streamcheck.rs` is the checker. `check` fetches a URL and returns an ordered list of outcomes. A 2xx response is classified by its content type:
  - a playlist type is either an HLS manifest or a list of candidate URLs, each checked in turn (`decode_playlist`);
  - a stream type becomes one `StreamInfo` built from the ICY headers;
  - anything else is an error.

  A 3xx response is followed to its `location`. Every other status is an error.

The modules are:

- `Base`: Option, Result and Min.
- `Utf8`: the byte view of strings as the Rust standard library has it:
  - `as_bytes` (`Encode`);
  - `String::from_utf8` (`Decode`);
  - `String::from_utf8_lossy` (`DecodeLossy`).
- `Text`: the `str` operations the core uses:
  - `to_lowercase`, `trim`, `find` and `lines`;
  - `parse` to `u32` and `usize`, with `ParseIntError`'s kinds and messages;
  - `Display` of an integer;
  - slicing a `&str` at byte offsets, which panics off a character boundary or out of range.
- `Request`: `src/request.rs`.
  - The socket is a `Connection` class. It holds the bytes the server sends, a read cursor (`pos`) and the bytes written so far (`outgoing`).
  - `read_stream_until`, `read_request`'s header loop and `read_content` are methods. Each is proved against a specification function: `TakeUntil`, `ParseHead`, `HeaderMap` and `ContentAfter`.
  - `Request` is a class with the source's fields, `contentReadDone` and `content`.
- `StreamCheck`: `src/streamcheck.rs`.
  - `Check` and `DecodePlaylist` follow the source's control flow, and their loops push or extend a list.
  - Each method is proved equal to a mutually recursive specification function: `Outcomes`, `SuccessOutcomes`, `PlaylistResult`, `PlaylistOutcomes`, `CandidateResult` and `Candidates`.
  - The properties of the checker are lemmas about those functions.

The checker's outside collaborators are the fields of an `Env` value, and every result holds for all choices of them:

- the network fetch (`Request::new` with the scheme, DNS, TCP and TLS steps), including the body its `read_content`/`get_content` yield;
- the playlist decoder (`playlist_decoder::decode` and `is_content_hls`);
- `Url::parse` and `Url::join`.

The source's recursion has no limit of its own. `check` follows redirects and nested playlists for as long as the servers send them, until the stack or the open sockets run out. The model adds a `fuel` bound on that depth, which the source does not have. The bound is tested where the model recurses, not where `check` is called again:
- a redirect with a location, at fuel 0, ends in `DepthExceeded(url)` before the location is fetched;
- a playlist response that is not HLS, at fuel 0, ends in `DepthExceeded(url)` before its body is decoded.

So at fuel 0 a playlist of blank entries gives `DepthExceeded` where the source gives "Empty playlist". Likewise a playlist URL that does not parse gives `DepthExceeded` where the source gives the parse error. `FuelBeyondNeed` proves that once a result contains no `DepthExceeded`, more fuel does not change it. So every result the model gives without that outcome is the source's result.

## Model

| member | source | states |
|---|---|---|
| Utf8.DecodeEncode | src/request.rs:119 | decoding the bytes of any string, strictly or lossily, gives the string back |
| Utf8.StepValidEncodes | src/request.rs:119 | a well-formed decoding step covers exactly the encoding of the character it yields, so no overlong form or surrogate is accepted |
| Utf8.EncodeDecode | src/request.rs:119 | bytes the strict decoder accepts are exactly the encoding of the text it returns |
| Utf8.DecodeIffEncoding | src/request.rs:119-125 | the strict decoder yields a string exactly when the bytes are that string's encoding |
| Utf8.EncodeNoNewline | src/request.rs:143-146 | a text without '\n' encodes to bytes without an LF byte |
| Utf8.DecodeAgreesWithLossy | src/request.rs:156 | where strict decoding accepts the bytes, the lossy decoder yields the same text |
| Utf8.EncodeAppend | src/request.rs:165 | the bytes of a concatenation are the concatenation of the bytes |
| Text.ToLower | src/request.rs:205 | lower-casing keeps the length |
| Text.ToLowerIgnoresCase | src/streamcheck.rs:115 | strings that differ only in ASCII letter case lower-case to the same string |
| Text.ToLowerIdempotent | src/request.rs:205 | the lower-cased string has no ASCII capitals and lower-casing it again changes nothing |
| Text.ToLowerKeeps | src/request.rs:205 | a string without ASCII capitals is its own lower-case form |
| Text.TrimSpec | src/request.rs:206 | the trim is the infix left once all leading and trailing whitespace is removed, and it starts and ends with a non-whitespace character |
| Text.TrimStartSpec | src/request.rs:206 | the front trim is a suffix, everything dropped is whitespace, and it does not start with whitespace |
| Text.TrimEndSpec | src/request.rs:206 | the back trim is a prefix, everything dropped is whitespace, and it does not end with whitespace |
| Text.TrimKeeps | src/request.rs:206 | a string not starting or ending with whitespace is its own trim |
| Text.TrimIdempotent | src/request.rs:206 | trimming twice is trimming once |
| Text.BlankIffWhitespace | src/streamcheck.rs:230 | a candidate trims to "" exactly when it consists of whitespace only |
| Text.Find | src/request.rs:201 | None exactly when the character is absent; otherwise the index of its first occurrence |
| Text.Lines | src/request.rs:198 | no line holds a '\n' |
| Text.LinesLf | src/request.rs:198 | a line ended by a bare '\n' is split off, with a trailing '\r' removed |
| Text.LinesLast | src/request.rs:198 | a last line without a line ending is kept whole |
| Text.LinesCrlf | src/request.rs:198 | a line ended by CRLF is split off with the CRLF removed |
| Text.ParseUnsigned | src/request.rs:176 | a parsed value never exceeds the type's maximum |
| Text.AccumulateDigits | src/request.rs:176 | on a string of digits the parser yields their decimal value, or overflow when it is larger than the maximum |
| Text.FormatNat | src/streamcheck.rs:214 | the decimal text is non-empty, all digits, and starts with '0' only for zero |
| Text.FormatNatValue | src/streamcheck.rs:214 | the digits denote the number formatted |
| Text.ParseFormatNat | src/request.rs:109-114 | parsing a formatted number gives it back, or overflow when it is larger than the maximum |
| Text.FormatThreeDigits | src/request.rs:176 | the numbers 100 to 999 format as exactly three ASCII digits |
| Text.CharIndex | src/request.rs:176-178 | a byte offset maps to the character index whose prefix has exactly that many bytes, and to None when no prefix has |
| Text.Slice | src/request.rs:176-178 | slicing succeeds exactly when both offsets are in order and on character boundaries, and its bytes are the bytes between the offsets |
| Text.ByteLenMonotone | src/request.rs:172 | byte offsets grow strictly with character indices |
| Text.SliceBytes | src/request.rs:176-178 | the bytes of a character range are the byte range between the prefixes' byte lengths |
| Text.AsciiSlice | src/request.rs:176-178 | inside an ASCII prefix, byte slicing is character slicing |
| Text.AsciiSliceToEnd | src/request.rs:177 | from the end of an ASCII prefix to the end of the string, byte slicing is character slicing |
| Request.Connection.constructor | src/request.rs:69-74 | a fresh stream has nothing read and nothing written |
| Request.Connection.Read | src/request.rs:136-142 | a one-byte read returns the next byte and advances by one, or reports end of stream and stays put |
| Request.Connection.ReadExact | src/request.rs:116-117 | the buffer is the available bytes up to n followed by zeros, and exactly that many bytes are consumed |
| Request.Connection.Write | src/request.rs:165 | the written bytes are appended to what was sent, and nothing else |
| Request.FillBuffer | src/request.rs:116-117 | the buffer has length n, agrees with the input on the bytes available, and is zero after them |
| Request.ScanFromFirst | src/request.rs:135-155 | the scan stops at the first length at which the bytes end with the terminator, or at the end when there is none |
| Request.TakeUntilFirst | src/request.rs:132-158 | what is taken is a prefix of the input that ends with the first occurrence of the terminator, or the whole input when the terminator never occurs |
| Request.ReadStreamUntil | src/request.rs:132-158 | the cursor advances by exactly the prefix up to and including the first terminator, and the result is that prefix decoded lossily |
| Request.TakeUntilAt | src/request.rs:143-147 | where the terminator first occurs, the read stops |
| Request.TakeUntilNone | src/request.rs:139-140 | without any occurrence of the terminator the read takes the whole input |
| Request.RequestTextFormat | src/request.rs:161-164 | the request is "GET path HTTP/1.0", then the Host, Accept */* and Connection close lines, each ended by CRLF, then a blank line |
| Request.SendRequest | src/request.rs:160-168 | the request text is appended to the stream's output as UTF-8 |
| Request.LinesJoinCrlf | src/request.rs:162 | splitting CRLF-joined lines into lines gives them back |
| Request.FieldTextReadsBack | src/request.rs:162 | a written "Name: value" header is read back as the lower-cased name and the trimmed value |
| Request.HeaderMapOfFour | src/request.rs:200-211 | a request-shaped header block of three fields and a blank line yields exactly those three entries |
| Request.RequestFieldsReadBack | src/request.rs:162 | the header block written by the request, read as response headers, yields host, accept and connection |
| Request.RequestReadsBack | src/request.rs:160-168 | read back with the response parser, the request gives its request line and the three fields it sent |
| Request.DecodeFirstLine | src/request.rs:170-191 | a line starting with neither "HTTP/" nor "ICY" is "HTTP header missing"; an HTTP line under 14 bytes is "HTTP status line too short"; a decoded line has no headers and a code of at most 999; an ICY line has no version |
| Request.CodeBound | src/request.rs:176 | a code parsed from a three-byte slice is at most 999 |
| Request.HttpLineSlices | src/request.rs:175-180 | on an HTTP line with an ASCII start the code is bytes 9 to 12, the version 5 to 8 and the message from byte 13 on, with the parse error's message as the failure |
| Request.IcyLineSlices | src/request.rs:181-187 | on an ICY line with an ASCII start the code is bytes 4 to 7 and the message from byte 8 on |
| Request.IcyLineTooShort | src/request.rs:181-187 | an ICY line shorter than 8 bytes is never accepted, and one shorter than 7 bytes panics |
| Request.HttpStatusLineRoundTrip | src/request.rs:175-180 | decoding "HTTP/v.v code message" gives back the version, the code and the message |
| Request.IcyStatusLineRoundTrip | src/request.rs:182-187 | decoding "ICY code message" gives back the code and the message, and no version |
| Request.HeaderField | src/request.rs:201-209 | a line yields a field exactly when it holds a ':' |
| Request.HeaderMapAdd | src/request.rs:202-207 | a line with a ':' sets its lower-cased key to its trimmed value |
| Request.HeaderMapSkip | src/request.rs:209 | a line without ':' changes nothing |
| Request.HeaderMapKeys | src/request.rs:200-211 | a key is in the header map exactly when some line carries it |
| Request.HeaderMapLastWins | src/request.rs:204-207 | a key's value is the one from the last line carrying it |
| Request.StatusLineTaken | src/request.rs:194 | the first read of the head stops right after the status line's CRLF |
| Request.FieldBlockEnds | src/request.rs:197 | after non-empty header lines and the blank line, no CRLF CRLF occurs before the blank line ends, whatever follows |
| Request.FieldBlockTaken | src/request.rs:197 | the second read takes the header lines and the blank line, and nothing of the body |
| Request.FieldBlockFields | src/request.rs:198-211 | the header lines read back give the fields' header map, and the blank line adds nothing |
| Request.ParseHeadOf | src/request.rs:193-213 | the head is the decoded status line with the map of what the second read took, and the bytes consumed are what the two reads took |
| Request.HeadOf | src/request.rs:193-213 | a status line followed by a header block whose end the second read finds gives the block's header map and consumes exactly the two |
| Request.HeadWithFields | src/request.rs:193-213 | a head of non-empty header lines ended by a blank line is consumed exactly, whatever body follows, and yields the fields' map |
| Request.HeadWithoutFields | src/request.rs:197 | with no header lines, the second read runs on through the body, and a body line is read as a header |
| Request.ReadRequest | src/request.rs:193-213 | the result is the parse of the status line up to the first CRLF followed by the header block up to the next CRLF CRLF, and exactly those bytes are consumed |
| Request.InsertHeaders | src/request.rs:200-211 | the loop leaves the decoded status line with the header map of all lines |
| Request.Request.constructor | src/request.rs:81-97 | a new request holds its URL, head and stream, with no content read |
| Request.Request.ReadContent | src/request.rs:103-126 | the first call consumes min(content-length, available) bytes and sets the content to the buffer's text when it is valid UTF-8 and otherwise leaves it; later calls change nothing |
| Request.ReadContentTwice | src/request.rs:103-130 | reading the content twice gives the same text both times, and only the first read consumes bytes |
| Request.ContentAfterValid | src/request.rs:119-125 | the content is replaced only when the buffer is well-formed UTF-8, and then by the text whose encoding the buffer is |
| Request.ContentLengthDefault | src/request.rs:109-114 | without a parseable content-length the body read is 10000 bytes |
| Request.ContentLengthDeclared | src/request.rs:109-114 | a content-length header holding a number that fits a usize gives that number |
| Request.BodyRoundTrip | src/request.rs:116-123 | with a correct content-length the content is exactly the text the server sent |
| Request.ShortBodyPadsWithNul | src/request.rs:116-123 | when the server sends fewer bytes than announced, the content is the text followed by NUL characters |
| Request.Exchange | src/request.rs:88-97 | the request is written, the head is parsed from what follows, and the request wraps the stream with nothing read; a head error is returned as is |
| StreamCheck.Check | src/streamcheck.rs:102-221 | the list returned is the specification `Outcomes` of the URL |
| StreamCheck.CheckSuccess | src/streamcheck.rs:107-202 | the list for a 2xx response is its specification `SuccessOutcomes` |
| StreamCheck.AnyOk | src/streamcheck.rs:236-241 | the flag is set exactly when some outcome is a success |
| StreamCheck.DecodePlaylist | src/streamcheck.rs:223-268 | the list returned is the specification `PlaylistOutcomes` of the playlist |
| StreamCheck.PlaylistIgnoresParameters | src/streamcheck.rs:72-83 | a content type is a playlist type exactly when the part before the first ';' is one of the 12 listed playlist types |
| StreamCheck.StreamTypesPlain | src/streamcheck.rs:85-100 | no listed stream type holds a ';' |
| StreamCheck.StreamTypesTakeNoParameters | src/streamcheck.rs:85-100 | a content type with parameters is never recognised as a stream type |
| StreamCheck.M3uNotStream | src/streamcheck.rs:52-57 | no M3U type is a stream type |
| StreamCheck.PlsNotStream | src/streamcheck.rs:59-62 | no PLS type is a stream type |
| StreamCheck.AsxNotStream | src/streamcheck.rs:64-66 | no ASX type is a stream type |
| StreamCheck.XspfNotStream | src/streamcheck.rs:68-70 | no XSPF type is a stream type |
| StreamCheck.PlaylistAndStreamDisjoint | src/streamcheck.rs:116-121 | no content type is both a playlist type and a stream type, so the order of the two tests does not matter |
| StreamCheck.ClassifyIgnoresCase | src/streamcheck.rs:112-121 | content types differing only in ASCII case are classified alike |
| StreamCheck.NumberOrFormat | src/streamcheck.rs:184-197 | a numeric ICY header yields its number when it fits a u32, and 0 otherwise |
| StreamCheck.NumberOrAbsent | src/streamcheck.rs:184-197 | an absent ICY header yields 0 |
| StreamCheck.FetchFailure | src/streamcheck.rs:218 | a failed fetch is one error for the URL carrying the fetch's message |
| StreamCheck.StreamResponse | src/streamcheck.rs:170-201 | a 2xx stream type yields exactly one stream with the URL, the raw content type, the table's codec, the ICY name, description, homepage and genre, the parsed bit rate and sampling rate, and no HLS flag |
| StreamCheck.UnusableContentType | src/streamcheck.rs:122-134 | a 2xx response with no content type is one "Missing content-type" error; one with an unknown type is one error naming the lower-cased type |
| StreamCheck.HlsResponse | src/streamcheck.rs:142-156 | an HLS playlist is one stream flagged HLS with codec UNKNOWN and zero rates, not descended into |
| StreamCheck.PlaylistReadFailure | src/streamcheck.rs:166-168 | a playlist whose body cannot be read is one error carrying the read error |
| StreamCheck.BlankCandidates | src/streamcheck.rs:229-230 | a candidate list of blank entries yields no outcomes |
| StreamCheck.EmptyPlaylistResponse | src/streamcheck.rs:157-161 | a playlist of blank entries only is one "Empty playlist" error for its URL |
| StreamCheck.RedirectResponse | src/streamcheck.rs:203-210 | a redirect with a location yields the outcomes of the location; one without a location yields nothing |
| StreamCheck.IllegalStatus | src/streamcheck.rs:211-216 | any other status is one error whose message is "illegal http status code " followed by the code's decimal digits |
| StreamCheck.EmptyOnlyFromRedirect | src/streamcheck.rs:102-221 | only a redirect can leave the outcome list empty |
| StreamCheck.CheckAllKeepsEverything | src/streamcheck.rs:229-248 | with check_all, every non-blank candidate is checked in order and every outcome kept |
| StreamCheck.NoSuccessKeepsEverything | src/streamcheck.rs:235-247 | when no candidate succeeds, all are checked whatever check_all says |
| StreamCheck.StopsAtFirstSuccess | src/streamcheck.rs:235-245 | without check_all the outcomes are those of the candidates up to and including the first one with a success |
| StreamCheck.AllWellFormedAppend | src/streamcheck.rs:162 | extending a list of well-formed outcomes with another keeps it well formed |
| StreamCheck.OutcomesWellFormed | src/streamcheck.rs:102-221 | every stream reported: rates fit a u32; an HLS stream carries only its URL; any other stream's lower-cased type is a stream type, not a playlist type, and its codec is the table's |
| StreamCheck.SuccessWellFormed | src/streamcheck.rs:107-202 | every stream from a 2xx response is well formed |
| StreamCheck.PlaylistResultWellFormed | src/streamcheck.rs:137-169 | every stream found through a playlist response is well formed |
| StreamCheck.PlaylistOutcomesWellFormed | src/streamcheck.rs:223-268 | every stream a playlist yields is well formed |
| StreamCheck.CandidateWellFormed | src/streamcheck.rs:231-255 | every stream from one candidate is well formed |
| StreamCheck.CandidatesWellFormed | src/streamcheck.rs:229-257 | every stream from the candidate list is well formed |
| StreamCheck.WithinDepthAppend | src/streamcheck.rs:243-247 | a concatenation without a depth cut-off has none in either part |
| StreamCheck.OutcomesFuel | src/streamcheck.rs:207 | a check without a depth cut-off gives the same outcomes with one more level of depth |
| StreamCheck.SuccessFuel | src/streamcheck.rs:137-164 | the same for a 2xx response |
| StreamCheck.PlaylistResultFuel | src/streamcheck.rs:158 | the same for a playlist response |
| StreamCheck.PlaylistOutcomesFuel | src/streamcheck.rs:223-268 | the same for a decoded playlist |
| StreamCheck.CandidateFuel | src/streamcheck.rs:234 | the same for one candidate |
| StreamCheck.CandidatesFuel | src/streamcheck.rs:229-257 | the same for the candidate list |
| StreamCheck.FuelBeyondNeed | src/streamcheck.rs:207 | a check without a depth cut-off gives the same outcomes with any larger depth bound |

## Left out

- Depth bound: the `fuel` argument and the `DepthExceeded` outcome are a model addition. The source recurses with no bound of its own, so a redirect loop goes on until the stack or the open sockets run out. At fuel 0 the model also cuts off a playlist before decoding it, as described above. `FuelBeyondNeed` shows the bound changes nothing for results that do not reach it.
- Panics inside `check`: `Env.fetch` returns a result or an error message, never a panic. In the source, `Request::new` can panic: `DecodeFirstLine` gives `Panic` for an "ICY" line shorter than 7 bytes (`IcyLineTooShort`), and for slice offsets that fall inside a multi-byte character. Such a panic unwinds out of `check` and out of every enclosing `decode_playlist`: no list is returned and no later candidate is checked. The StreamCheck lemmas therefore describe only runs in which no fetch panics.
- Networking: `Request::new` with URL parsing, host and port lookup, DNS resolution, the five-second TCP connect timeout, TLS and the "unknown scheme" branch is part of the `Env.fetch` oracle. Its scheme-independent tail is modelled as `Exchange`.
- `Connection.Read`: a read error ends the byte loop exactly as end of stream does, so errors are not modelled separately.
- `SendRequest`: `write` and `flush` errors are not modelled, and neither are partial writes (the source ignores `write`'s count).
- Request.Request.ReadContent: the result of `read_exact` is ignored by the source, so a short body leaves the content padded with zero bytes. The model reproduces this, as `ShortBodyPadsWithNul` shows. The model does not capture allocation failure. `vec![0; content_length]` panics with "capacity overflow" for a content-length above isize::MAX and aborts the process when the length exceeds available memory. For such a length the model still reads the available bytes and pads with zeros.
- Call signatures: `src/streamcheck.rs` calls `Request::new` with a user agent and a timeout and treats `read_content` as returning a `Result`. The `src/request.rs` in the same tree takes only a URL and returns nothing. The model keeps both files' behaviour: `Env.fetch` takes the URL, the agent and the timeout, and the body (or its read error) is part of the fetched `Response`. The timeout is only passed through.
- `Text.ToLower`: models `to_lowercase` on ASCII letters only. Non-ASCII capitals are kept as they are, so a header key or content type with non-ASCII capitals may lower-case differently in the source.
- The playlist decoder (`playlist_decoder::decode` and `is_content_hls`) is the `Env.decode` and `Env.isHls` oracle. `Url::parse` and `Url::join` are `Env.parseUrl` and `Env.join`.
- Error values are modelled by their display text. The `Box<dyn Error>` wrapping and `description` are not modelled.
- `main.rs`, the favicon lookup, the database layer and concurrency are outside the two core files and are not part of this model.
