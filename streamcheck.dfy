/**
  The stream checker: `check` fetches a URL and turns the response into an
  ordered list of outcomes. A 2xx response is classified by its content type
  as a playlist, a stream or an unknown type; a playlist is either an HLS
  manifest (itself a stream) or is decoded into candidate URLs, each checked
  in turn; a 3xx response is followed to its location; anything else is an
  error.

  The HTTP fetch, the playlist decoder, HLS detection and URL parsing and
  joining are collaborators this module does not define; they are the fields
  of an `Env` and the results below hold for every choice of them. The
  recursion depth (redirects and playlist nesting together) is bounded by a
  `fuel` argument: a branch that would go deeper ends in `DepthExceeded`.
*/
module StreamCheck {
  import opened Base
  import opened Text
  import Request

  // ---------------------------------------------------------------- data

  /** A resolved, playable stream. `Bitrate` and `Sampling` are `u32`s. */
  datatype StreamInfo = StreamInfo(
    Name: string,
    Description: string,
    Type: string,
    Url: string,
    Homepage: string,
    Genre: string,
    Bitrate: nat,
    Sampling: nat,
    Codec: string,
    Hls: bool)

  /** Why one URL did not resolve. `DepthExceeded` is where the model's
      depth bound cut a branch off. */
  datatype CheckError =
    | StreamCheckError(url: string, details: string)
    | DepthExceeded(url: string)

  type Outcome = Result<StreamInfo, CheckError>

  /** A fetched response: the parsed head, and the body as `read_content`
      followed by `get_content` leave it (or the read error's message). */
  datatype Response = Response(info: Request.HttpHeaders, body: Result<string, string>)

  /** The collaborators. `fetch(url, agent, timeout)` is `Request::new`,
      giving the error's message on failure; `decode` and `isHls` are the
      playlist decoder; `parseUrl` is `Url::parse`, giving the parsed URL as
      text; `join(base, reference)` is `Url::join` followed by `as_str`. */
  datatype Env = Env(
    fetch: (string, string, nat) -> Result<Response, string>,
    isHls: string -> bool,
    decode: string -> seq<string>,
    parseUrl: string -> Result<string, string>,
    join: (string, string) -> Result<string, string>)

  const UserAgent: string := "StreamCheckBot/0.1.0"
  const MissingContentType: string := "Missing content-type in http header"
  const EmptyPlaylist: string := "Empty playlist"

  // ---------------------------------------------------------------- content types

  const M3uTypes: set<string> := {
    "application/mpegurl", "application/x-mpegurl", "audio/mpegurl", "audio/x-mpegurl",
    "application/vnd.apple.mpegurl", "application/vnd.apple.mpegurl.audio" }
  const PlsTypes: set<string> := { "audio/x-scpls", "application/x-scpls", "application/pls+xml" }
  const AsxTypes: set<string> := { "video/x-ms-asx", "video/x-ms-asf" }
  const XspfTypes: set<string> := { "application/xspf+xml" }

  const PlaylistTypes: set<string> := M3uTypes + PlsTypes + AsxTypes + XspfTypes

  /** The stream types and the codec label each one is reported with. */
  const StreamCodecs: map<string, string> := map[
    "audio/mpeg" := "MP3",
    "audio/x-mpeg" := "MP3",
    "audio/mp3" := "MP3",
    "audio/aac" := "AAC",
    "audio/x-aac" := "AAC",
    "audio/aacp" := "AAC+",
    "audio/ogg" := "OGG",
    "application/ogg" := "OGG",
    "audio/flac" := "FLAC",
    "application/flv" := "FLV",
    "application/octet-stream" := "UNKNOWN"]

  predicate TypeIsM3u(t: string) { t in M3uTypes }
  predicate TypeIsPls(t: string) { t in PlsTypes }
  predicate TypeIsAsx(t: string) { t in AsxTypes }
  predicate TypeIsXspf(t: string) { t in XspfTypes }

  /** The media type without its parameters: everything before the first ';'. */
  function BeforeSemicolon(t: string): string {
    match Find(t, ';')
    case Some(i) => t[..i]
    case None => t
  }

  predicate TypeIsPlaylist(t: string) {
    var p := BeforeSemicolon(t);
    TypeIsM3u(p) || TypeIsPls(p) || TypeIsAsx(p) || TypeIsXspf(p)
  }

  /** The codec label of a stream type; the whole value is looked up,
      parameters included. */
  function TypeIsStream(t: string): Option<string> {
    if t in StreamCodecs then Some(StreamCodecs[t]) else None
  }

  /** What the content-type header of a 2xx response makes of it. */
  datatype ContentKind = Missing | Playlist | Stream(codec: string) | Unknown(lowered: string)

  function Classify(headers: map<string, string>): ContentKind {
    if "content-type" !in headers then Missing
    else
      var lower := ToLower(headers["content-type"]);
      if TypeIsPlaylist(lower) then Playlist
      else match TypeIsStream(lower)
        case Some(codec) => Stream(codec)
        case None => Unknown(lower)
  }

  // ---------------------------------------------------------------- stream records

  /** A header's value, or "" when the header is absent. */
  function HeaderOr(headers: map<string, string>, key: string): string {
    if key in headers then headers[key] else ""
  }

  /** A header parsed as a `u32`, or 0 when it is absent or does not parse. */
  function NumberOr(headers: map<string, string>, key: string): nat {
    match ParseUnsigned(HeaderOr(headers, key), U32Max)
    case Ok(n) => n
    case Err(_) => 0
  }

  /** The record for a response whose content type is a stream type. */
  function StreamOf(url: string, headers: map<string, string>, codec: string): StreamInfo {
    StreamInfo(
      Name := HeaderOr(headers, "icy-name"),
      Description := HeaderOr(headers, "icy-description"),
      Type := HeaderOr(headers, "content-type"),
      Url := url,
      Homepage := HeaderOr(headers, "icy-url"),
      Genre := HeaderOr(headers, "icy-genre"),
      Bitrate := NumberOr(headers, "icy-br"),
      Sampling := NumberOr(headers, "icy-sr"),
      Codec := codec,
      Hls := false)
  }

  /** The record for an HLS manifest: nothing is known but its URL. */
  function HlsStream(url: string): StreamInfo {
    StreamInfo(
      Name := "", Description := "", Type := "", Url := url, Homepage := "", Genre := "",
      Bitrate := 0, Sampling := 0, Codec := "UNKNOWN", Hls := true)
  }

  predicate HasOk(list: seq<Outcome>) {
    exists k :: 0 <= k < |list| && list[k].Ok?
  }

  // ---------------------------------------------------------------- specification

  /*
    The six functions below are mutually recursive. The measure is the fuel
    first; at equal fuel, PlaylistResult < SuccessOutcomes < Outcomes <
    CandidateResult < Candidates < PlaylistOutcomes, and the candidates list
    shrinks.
  */

  /** The outcomes of checking `url`. */
  function Outcomes(env: Env, url: string, checkAll: bool, timeout: nat, fuel: nat): seq<Outcome>
    decreases fuel, 2, 0
  {
    match env.fetch(url, UserAgent, timeout)
    case Err(e) => [Err(StreamCheckError(url, e))]
    case Ok(response) =>
      var info := response.info;
      if 200 <= info.code < 300 then SuccessOutcomes(env, url, response, checkAll, timeout, fuel)
      else if 300 <= info.code < 400 then
        if "location" !in info.headers then []
        else if fuel == 0 then [Err(DepthExceeded(url))]
        else Outcomes(env, info.headers["location"], checkAll, timeout, fuel - 1)
      else [Err(StreamCheckError(url, "illegal http status code " + FormatNat(info.code)))]
  }

  /** The outcomes of a 2xx response. */
  function SuccessOutcomes(env: Env, url: string, response: Response, checkAll: bool, timeout: nat, fuel: nat): seq<Outcome>
    decreases fuel, 1, 0
  {
    match Classify(response.info.headers)
    case Missing => [Err(StreamCheckError(url, MissingContentType))]
    case Unknown(lower) => [Err(StreamCheckError(url, "unknown content type " + lower))]
    case Stream(codec) => [Ok(StreamOf(url, response.info.headers, codec))]
    case Playlist => PlaylistResult(env, url, response.body, checkAll, timeout, fuel)
  }

  /** The outcomes of a 2xx response whose content type is a playlist type. */
  function PlaylistResult(env: Env, url: string, body: Result<string, string>, checkAll: bool,
                          timeout: nat, fuel: nat): seq<Outcome>
    decreases fuel, 0, 0
  {
    match body
    case Err(e) => [Err(StreamCheckError(url, e))]
    case Ok(content) =>
      if env.isHls(content) then [Ok(HlsStream(url))]
      else if fuel == 0 then [Err(DepthExceeded(url))]
      else
        var playlist := PlaylistOutcomes(env, url, content, checkAll, timeout, fuel - 1);
        if playlist == [] then [Err(StreamCheckError(url, EmptyPlaylist))] else playlist
  }

  /** The outcomes of the playlist `content` fetched from `urlStr`. */
  function PlaylistOutcomes(env: Env, urlStr: string, content: string, checkAll: bool,
                            timeout: nat, fuel: nat): seq<Outcome>
    decreases fuel, 5, 0
  {
    match env.parseUrl(urlStr)
    case Err(e) => [Err(StreamCheckError(urlStr, e))]
    case Ok(base) => Candidates(env, urlStr, base, env.decode(content), checkAll, timeout, fuel)
  }

  /** The outcomes of one candidate of a playlist: the error joining it to
      the playlist's URL, or the outcomes of checking the joined URL. */
  function CandidateResult(env: Env, urlStr: string, base: string, url: string, checkAll: bool,
                           timeout: nat, fuel: nat): seq<Outcome>
    decreases fuel, 3, 0
  {
    match env.join(base, url)
    case Err(e) => [Err(StreamCheckError(urlStr, e))]
    case Ok(abs) => Outcomes(env, abs, checkAll, timeout, fuel)
  }

  /** The outcomes of the candidates `urls`, blank ones skipped; unless
      `checkAll`, the first candidate with a success is the last one checked. */
  function Candidates(env: Env, urlStr: string, base: string, urls: seq<string>, checkAll: bool,
                      timeout: nat, fuel: nat): seq<Outcome>
    decreases fuel, 4, |urls|
  {
    if urls == [] then []
    else if Trim(urls[0]) == "" then Candidates(env, urlStr, base, urls[1..], checkAll, timeout, fuel)
    else
      var result := CandidateResult(env, urlStr, base, urls[0], checkAll, timeout, fuel);
      if !checkAll && HasOk(result) then result
      else result + Candidates(env, urlStr, base, urls[1..], checkAll, timeout, fuel)
  }

  // ---------------------------------------------------------------- the checker

  /** `check`. */
  method Check(env: Env, url: string, checkAll: bool, timeout: nat, fuel: nat) returns (list: seq<Outcome>)
    ensures list == Outcomes(env, url, checkAll, timeout, fuel)
    decreases fuel, 2, 0
  {
    list := [];
    var request := env.fetch(url, UserAgent, timeout);
    match request {
      case Ok(response) =>
        var info := response.info;
        if info.code >= 200 && info.code < 300 {
          list := CheckSuccess(env, url, response, checkAll, timeout, fuel);
        } else if info.code >= 300 && info.code < 400 {
          if "location" in info.headers {
            if fuel == 0 {
              list := list + [Err(DepthExceeded(url))];
            } else {
              var redirected := Check(env, info.headers["location"], checkAll, timeout, fuel - 1);
              list := list + redirected;
            }
          }
        } else {
          list := list + [Err(StreamCheckError(url, "illegal http status code " + FormatNat(info.code)))];
        }
      case Err(e) =>
        list := list + [Err(StreamCheckError(url, e))];
    }
  }

  /** The part of `check` that handles a 2xx response. */
  method CheckSuccess(env: Env, url: string, response: Response, checkAll: bool, timeout: nat, fuel: nat)
    returns (list: seq<Outcome>)
    ensures list == SuccessOutcomes(env, url, response, checkAll, timeout, fuel)
    decreases fuel, 1, 0
  {
    list := [];
    var info := response.info;
    var isPlaylist := false;
    var isStream := false;
    var streamType := "";
    if "content-type" in info.headers {
      var lower := ToLower(info.headers["content-type"]);
      if TypeIsPlaylist(lower) {
        isPlaylist := true;
      } else if TypeIsStream(lower).Some? {
        streamType := TypeIsStream(lower).value;
        isStream := true;
      } else {
        list := list + [Err(StreamCheckError(url, "unknown content type " + lower))];
      }
    } else {
      list := list + [Err(StreamCheckError(url, MissingContentType))];
    }
    ghost var kind := Classify(info.headers);
    assert isPlaylist <==> kind == Playlist;
    assert isStream <==> kind.Stream?;
    assert isStream ==> streamType == kind.codec;
    if isPlaylist {
      assert SuccessOutcomes(env, url, response, checkAll, timeout, fuel)
        == PlaylistResult(env, url, response.body, checkAll, timeout, fuel);
      match response.body {
        case Ok(content) =>
          if env.isHls(content) {
            list := list + [Ok(HlsStream(url))];
          } else if fuel == 0 {
            list := list + [Err(DepthExceeded(url))];
          } else {
            var playlist := DecodePlaylist(env, url, content, checkAll, timeout, fuel - 1);
            if |playlist| == 0 {
              list := list + [Err(StreamCheckError(url, EmptyPlaylist))];
            } else {
              list := list + playlist;
            }
          }
        case Err(e) =>
          list := list + [Err(StreamCheckError(url, e))];
      }
    } else if isStream {
      list := list + [Ok(StreamOf(url, info.headers, streamType))];
    }
  }

  /** The scan of `decode_playlist` for a successful outcome. */
  method AnyOk(result: seq<Outcome>) returns (found: bool)
    ensures found == HasOk(result)
  {
    found := false;
    var j := 0;
    while j < |result|
      invariant j <= |result|
      invariant found <==> exists k :: 0 <= k < j && result[k].Ok?
    {
      if result[j].Ok? {
        found := true;
      }
      j := j + 1;
    }
  }

  lemma {:induction false} AppendAssoc(a: seq<Outcome>, b: seq<Outcome>, c: seq<Outcome>)
    ensures (a + b) + c == a + (b + c)
  {
  }

  /** `decode_playlist`. */
  method DecodePlaylist(env: Env, urlStr: string, content: string, checkAll: bool, timeout: nat, fuel: nat)
    returns (list: seq<Outcome>)
    ensures list == PlaylistOutcomes(env, urlStr, content, checkAll, timeout, fuel)
    decreases fuel, 5, 0
  {
    list := [];
    var baseUrl := env.parseUrl(urlStr);
    match baseUrl {
      case Ok(base) =>
        var urls := env.decode(content);
        ghost var all := Candidates(env, urlStr, base, urls, checkAll, timeout, fuel);
        var i := 0;
        while i < |urls|
          invariant i <= |urls|
          invariant list + Candidates(env, urlStr, base, urls[i..], checkAll, timeout, fuel) == all
        {
          var url := urls[i];
          assert urls[i..][0] == url && urls[i..][1..] == urls[i + 1..];
          ghost var next := Candidates(env, urlStr, base, urls[i + 1..], checkAll, timeout, fuel);
          if Trim(url) == "" {
            assert Candidates(env, urlStr, base, urls[i..], checkAll, timeout, fuel) == next;
          } else {
            var absUrl := env.join(base, url);
            match absUrl {
              case Ok(abs) =>
                var result := Check(env, abs, checkAll, timeout, fuel);
                assert CandidateResult(env, urlStr, base, url, checkAll, timeout, fuel) == result;
                if !checkAll {
                  var found := AnyOk(result);
                  if found {
                    assert Candidates(env, urlStr, base, urls[i..], checkAll, timeout, fuel) == result;
                    list := list + result;
                    break;
                  }
                }
                assert Candidates(env, urlStr, base, urls[i..], checkAll, timeout, fuel) == result + next;
                AppendAssoc(list, result, next);
                list := list + result;
              case Err(e) =>
                var failure := [Err(StreamCheckError(urlStr, e))];
                assert Candidates(env, urlStr, base, urls[i..], checkAll, timeout, fuel) == failure + next;
                AppendAssoc(list, failure, next);
                list := list + failure;
            }
          }
          i := i + 1;
        }
      case Err(e) =>
        list := list + [Err(StreamCheckError(urlStr, e))];
    }
  }

  // ---------------------------------------------------------------- content-type facts

  lemma {:induction false} FindAfter(p: string, params: string)
    requires ';' !in p
    ensures Find(p + ";" + params, ';') == Some(|p|)
  {
    var t := p + ";" + params;
    assert t[|p|] == ';';
    assert forall j :: 0 <= j < |p| ==> t[j] == p[j];
  }

  /** Playlist types are recognised with or without parameters: only the part
      before the first ';' is looked up. */
  lemma {:induction false} PlaylistIgnoresParameters(p: string, params: string)
    requires ';' !in p
    ensures TypeIsPlaylist(p) <==> p in PlaylistTypes
    ensures TypeIsPlaylist(p + ";" + params) <==> p in PlaylistTypes
  {
    FindAfter(p, params);
    assert (p + ";" + params)[..|p|] == p;
  }

  lemma {:induction false} StreamTypesPlain(t: string)
    requires t in StreamCodecs
    ensures ';' !in t
  {
  }

  /** Stream types are looked up whole, so a stream type with parameters is
      not recognised. */
  lemma {:induction false} StreamTypesTakeNoParameters(t: string, params: string)
    ensures TypeIsStream(t + ";" + params) == None
  {
    var v := t + ";" + params;
    assert v[|t|] == ';';
    if v in StreamCodecs {
      StreamTypesPlain(v);
    }
  }

  /** No listed playlist type is also a listed stream type. */
  lemma {:induction false} M3uNotStream() ensures M3uTypes !! StreamCodecs.Keys {}
  lemma {:induction false} PlsNotStream() ensures PlsTypes !! StreamCodecs.Keys {}
  lemma {:induction false} AsxNotStream() ensures AsxTypes !! StreamCodecs.Keys {}
  lemma {:induction false} XspfNotStream() ensures XspfTypes !! StreamCodecs.Keys {}

  /** No content type is both a playlist type and a stream type, so the order
      in which `check` tests them does not matter. */
  lemma {:induction false} PlaylistAndStreamDisjoint(t: string)
    ensures !(TypeIsPlaylist(t) && TypeIsStream(t).Some?)
  {
    if t in StreamCodecs {
      StreamTypesPlain(t);
      assert BeforeSemicolon(t) == t;
      M3uNotStream();
      PlsNotStream();
      AsxNotStream();
      XspfNotStream();
    }
  }

  /** Content types are compared ignoring the case of ASCII letters. */
  lemma {:induction false} ClassifyIgnoresCase(h1: map<string, string>, h2: map<string, string>)
    requires "content-type" in h1 && "content-type" in h2
    requires SameIgnoringCase(h1["content-type"], h2["content-type"])
    ensures Classify(h1) == Classify(h2)
  {
    ToLowerIgnoresCase(h1["content-type"], h2["content-type"]);
  }

  // ---------------------------------------------------------------- stream records

  /** A numeric ICY header reads back the number it was written with when
      that fits in a `u32`; a larger number, or no header at all, gives 0. */
  lemma {:induction false} NumberOrFormat(headers: map<string, string>, key: string, n: nat)
    requires key in headers && headers[key] == FormatNat(n)
    ensures NumberOr(headers, key) == if n <= U32Max then n else 0
  {
    ParseFormatNat(n, U32Max);
  }

  lemma {:induction false} NumberOrAbsent(headers: map<string, string>, key: string)
    requires key !in headers
    ensures NumberOr(headers, key) == 0
  {
  }

  // ---------------------------------------------------------------- what one check yields

  lemma {:induction false} SuccessBranch(env: Env, url: string, checkAll: bool, timeout: nat, fuel: nat, response: Response)
    requires env.fetch(url, UserAgent, timeout) == Ok(response)
    requires 200 <= response.info.code < 300
    ensures Outcomes(env, url, checkAll, timeout, fuel) == SuccessOutcomes(env, url, response, checkAll, timeout, fuel)
  {
  }

  lemma {:induction false} PlaylistBranch(env: Env, url: string, checkAll: bool, timeout: nat, fuel: nat, response: Response)
    requires env.fetch(url, UserAgent, timeout) == Ok(response)
    requires 200 <= response.info.code < 300 && Classify(response.info.headers) == Playlist
    ensures Outcomes(env, url, checkAll, timeout, fuel) == PlaylistResult(env, url, response.body, checkAll, timeout, fuel)
  {
    SuccessBranch(env, url, checkAll, timeout, fuel, response);
  }

  /** A response that cannot be fetched is one error for the URL, carrying the fetch's message. */
  lemma {:induction false} FetchFailure(env: Env, url: string, checkAll: bool, timeout: nat, fuel: nat, e: string)
    requires env.fetch(url, UserAgent, timeout) == Err(e)
    ensures Outcomes(env, url, checkAll, timeout, fuel) == [Err(StreamCheckError(url, e))]
  {
  }

  /** A 2xx response whose content type is a stream type yields exactly one
      stream, described by its headers. */
  lemma {:induction false} StreamResponse(env: Env, url: string, checkAll: bool, timeout: nat, fuel: nat, response: Response)
    requires env.fetch(url, UserAgent, timeout) == Ok(response)
    requires 200 <= response.info.code < 300
    requires "content-type" in response.info.headers
    requires TypeIsStream(ToLower(response.info.headers["content-type"])).Some?
    ensures var list := Outcomes(env, url, checkAll, timeout, fuel);
            var h := response.info.headers;
            && |list| == 1 && list[0].Ok?
            && var s := list[0].value;
            && s.Url == url && s.Type == h["content-type"] && !s.Hls
            && s.Codec == TypeIsStream(ToLower(h["content-type"])).value
            && s.Name == HeaderOr(h, "icy-name") && s.Description == HeaderOr(h, "icy-description")
            && s.Homepage == HeaderOr(h, "icy-url") && s.Genre == HeaderOr(h, "icy-genre")
            && s.Bitrate == NumberOr(h, "icy-br") && s.Sampling == NumberOr(h, "icy-sr")
  {
    SuccessBranch(env, url, checkAll, timeout, fuel, response);
    PlaylistAndStreamDisjoint(ToLower(response.info.headers["content-type"]));
  }

  /** A 2xx response without a content type, or with one that is neither a
      playlist nor a stream type, is one error naming the problem. */
  lemma {:induction false} UnusableContentType(env: Env, url: string, checkAll: bool, timeout: nat, fuel: nat, response: Response)
    requires env.fetch(url, UserAgent, timeout) == Ok(response)
    requires 200 <= response.info.code < 300
    ensures var h := response.info.headers;
            "content-type" !in h ==>
              Outcomes(env, url, checkAll, timeout, fuel) == [Err(StreamCheckError(url, MissingContentType))]
    ensures var h := response.info.headers;
            var lower := if "content-type" in h then ToLower(h["content-type"]) else "";
            "content-type" in h && !TypeIsPlaylist(lower) && TypeIsStream(lower).None? ==>
              Outcomes(env, url, checkAll, timeout, fuel) == [Err(StreamCheckError(url, "unknown content type " + lower))]
  {
    SuccessBranch(env, url, checkAll, timeout, fuel, response);
  }

  /** An HLS manifest served with a playlist type is one stream flagged HLS
      with an unknown codec, and is not descended into. */
  lemma {:induction false} HlsResponse(env: Env, url: string, checkAll: bool, timeout: nat, fuel: nat,
                                       response: Response, content: string)
    requires env.fetch(url, UserAgent, timeout) == Ok(response)
    requires 200 <= response.info.code < 300 && Classify(response.info.headers) == Playlist
    requires response.body == Ok(content) && env.isHls(content)
    ensures var list := Outcomes(env, url, checkAll, timeout, fuel);
            && |list| == 1 && list[0].Ok?
            && list[0].value.Hls && list[0].value.Url == url && list[0].value.Codec == "UNKNOWN"
            && list[0].value.Bitrate == 0 && list[0].value.Sampling == 0
  {
    PlaylistBranch(env, url, checkAll, timeout, fuel, response);
  }

  /** A playlist whose body cannot be read is one error carrying the read error. */
  lemma {:induction false} PlaylistReadFailure(env: Env, url: string, checkAll: bool, timeout: nat, fuel: nat,
                                               response: Response, e: string)
    requires env.fetch(url, UserAgent, timeout) == Ok(response)
    requires 200 <= response.info.code < 300 && Classify(response.info.headers) == Playlist
    requires response.body == Err(e)
    ensures Outcomes(env, url, checkAll, timeout, fuel) == [Err(StreamCheckError(url, e))]
  {
    PlaylistBranch(env, url, checkAll, timeout, fuel, response);
  }

  /** A candidate list of blank entries only yields no outcomes. */
  lemma {:induction false} BlankCandidates(env: Env, urlStr: string, base: string, urls: seq<string>,
                                           checkAll: bool, timeout: nat, fuel: nat)
    requires forall k :: 0 <= k < |urls| ==> Trim(urls[k]) == ""
    ensures Candidates(env, urlStr, base, urls, checkAll, timeout, fuel) == []
    decreases |urls|
  {
    if urls != [] {
      BlankCandidates(env, urlStr, base, urls[1..], checkAll, timeout, fuel);
    }
  }

  /** A playlist that decodes to nothing but blank entries is reported as
      one "Empty playlist" error for the playlist's URL. */
  lemma {:induction false} EmptyPlaylistResponse(env: Env, url: string, checkAll: bool, timeout: nat, fuel: nat,
                                                 response: Response, content: string)
    requires env.fetch(url, UserAgent, timeout) == Ok(response)
    requires 200 <= response.info.code < 300 && Classify(response.info.headers) == Playlist
    requires response.body == Ok(content) && !env.isHls(content) && fuel > 0
    requires env.parseUrl(url).Ok?
    requires forall k :: 0 <= k < |env.decode(content)| ==> Trim(env.decode(content)[k]) == ""
    ensures Outcomes(env, url, checkAll, timeout, fuel) == [Err(StreamCheckError(url, EmptyPlaylist))]
  {
    PlaylistBranch(env, url, checkAll, timeout, fuel, response);
    BlankCandidates(env, url, env.parseUrl(url).value, env.decode(content), checkAll, timeout, fuel - 1);
    assert PlaylistOutcomes(env, url, content, checkAll, timeout, fuel - 1) == [];
  }

  /** A redirect with a location is followed, one level deeper; one without
      a location yields nothing at all. */
  lemma {:induction false} RedirectResponse(env: Env, url: string, checkAll: bool, timeout: nat, fuel: nat, response: Response)
    requires env.fetch(url, UserAgent, timeout) == Ok(response)
    requires 300 <= response.info.code < 400
    ensures var h := response.info.headers;
            "location" in h && fuel > 0 ==>
              Outcomes(env, url, checkAll, timeout, fuel) == Outcomes(env, h["location"], checkAll, timeout, fuel - 1)
    ensures "location" !in response.info.headers ==> Outcomes(env, url, checkAll, timeout, fuel) == []
  {
  }

  /** Any other status is one error naming the status code in decimal. */
  lemma {:induction false} IllegalStatus(env: Env, url: string, checkAll: bool, timeout: nat, fuel: nat, response: Response)
    requires env.fetch(url, UserAgent, timeout) == Ok(response)
    requires !(200 <= response.info.code < 400)
    ensures var list := Outcomes(env, url, checkAll, timeout, fuel);
            && |list| == 1 && list[0].Err? && list[0].error.StreamCheckError?
            && list[0].error.url == url
            && list[0].error.details == "illegal http status code " + FormatNat(response.info.code)
            && AllDigits(list[0].error.details[25..])
            && DigitsValue(list[0].error.details[25..], 0) == response.info.code
  {
    var prefix := "illegal http status code ";
    var digits := FormatNat(response.info.code);
    assert |prefix| == 25;
    assert (prefix + digits)[25..] == digits;
    FormatNatValue(response.info.code);
  }

  /** Only a redirect can leave the list empty: every other response yields
      at least one outcome, an empty playlist included. */
  lemma {:induction false} EmptyOnlyFromRedirect(env: Env, url: string, checkAll: bool, timeout: nat, fuel: nat)
    ensures Outcomes(env, url, checkAll, timeout, fuel) == [] ==>
              && env.fetch(url, UserAgent, timeout).Ok?
              && 300 <= env.fetch(url, UserAgent, timeout).value.info.code < 400
  {
    match env.fetch(url, UserAgent, timeout)
    case Err(_) =>
    case Ok(response) =>
      if 200 <= response.info.code < 300 {
        SuccessBranch(env, url, checkAll, timeout, fuel, response);
        if Classify(response.info.headers) == Playlist {
          PlaylistBranch(env, url, checkAll, timeout, fuel, response);
        }
      }
  }

  // ---------------------------------------------------------------- playlist candidates

  /** The reference reading of a playlist: every non-blank candidate is
      checked, in order, and all outcomes are kept. */
  function AllCandidates(env: Env, urlStr: string, base: string, urls: seq<string>, checkAll: bool,
                         timeout: nat, fuel: nat): seq<Outcome>
    decreases |urls|
  {
    if urls == [] then []
    else
      (if Trim(urls[0]) == "" then [] else CandidateResult(env, urlStr, base, urls[0], checkAll, timeout, fuel))
      + AllCandidates(env, urlStr, base, urls[1..], checkAll, timeout, fuel)
  }

  /** With `check_all` every candidate is checked and every outcome kept. */
  lemma {:induction false} CheckAllKeepsEverything(env: Env, urlStr: string, base: string, urls: seq<string>,
                                                   timeout: nat, fuel: nat)
    ensures Candidates(env, urlStr, base, urls, true, timeout, fuel) == AllCandidates(env, urlStr, base, urls, true, timeout, fuel)
    decreases |urls|
  {
    if urls != [] {
      CheckAllKeepsEverything(env, urlStr, base, urls[1..], timeout, fuel);
    }
  }

  /** When no candidate succeeds, all of them are checked whatever `check_all` says. */
  lemma {:induction false} NoSuccessKeepsEverything(env: Env, urlStr: string, base: string, urls: seq<string>,
                                                    checkAll: bool, timeout: nat, fuel: nat)
    requires forall k :: 0 <= k < |urls| && Trim(urls[k]) != "" ==>
               !HasOk(CandidateResult(env, urlStr, base, urls[k], checkAll, timeout, fuel))
    ensures Candidates(env, urlStr, base, urls, checkAll, timeout, fuel) == AllCandidates(env, urlStr, base, urls, checkAll, timeout, fuel)
    decreases |urls|
  {
    if urls != [] {
      NoSuccessKeepsEverything(env, urlStr, base, urls[1..], checkAll, timeout, fuel);
    }
  }

  /** Without `check_all`, checking stops after the first candidate with a
      successful outcome: the outcomes are those of the candidates up to and
      including it. */
  lemma {:induction false} StopsAtFirstSuccess(env: Env, urlStr: string, base: string, urls: seq<string>,
                                               timeout: nat, fuel: nat, k: nat)
    requires k < |urls| && Trim(urls[k]) != ""
    requires HasOk(CandidateResult(env, urlStr, base, urls[k], false, timeout, fuel))
    requires forall j :: 0 <= j < k && Trim(urls[j]) != "" ==>
               !HasOk(CandidateResult(env, urlStr, base, urls[j], false, timeout, fuel))
    ensures Candidates(env, urlStr, base, urls, false, timeout, fuel) == AllCandidates(env, urlStr, base, urls[..k + 1], false, timeout, fuel)
    decreases k
  {
    if k == 0 {
      assert urls[..1][1..] == [];
    } else {
      assert urls[..k + 1][1..] == urls[1..][..k];
      StopsAtFirstSuccess(env, urlStr, base, urls[1..], timeout, fuel, k - 1);
    }
  }

  // ---------------------------------------------------------------- every stream found is well formed

  /** What every stream `check` reports satisfies: its numbers are `u32`s;
      an HLS stream carries nothing but its URL; any other stream's codec is
      the one the table gives its declared type, read case-insensitively. */
  predicate WellFormed(s: StreamInfo) {
    && s.Bitrate <= U32Max && s.Sampling <= U32Max
    && if s.Hls then s == HlsStream(s.Url)
       else !TypeIsPlaylist(ToLower(s.Type)) && TypeIsStream(ToLower(s.Type)) == Some(s.Codec)
  }

  predicate AllWellFormed(list: seq<Outcome>) {
    forall k :: 0 <= k < |list| && list[k].Ok? ==> WellFormed(list[k].value)
  }

  lemma {:induction false} AllWellFormedAppend(a: seq<Outcome>, b: seq<Outcome>)
    ensures AllWellFormed(a) && AllWellFormed(b) ==> AllWellFormed(a + b)
  {
    if AllWellFormed(a) && AllWellFormed(b) {
      forall k | 0 <= k < |a + b| && (a + b)[k].Ok?
        ensures WellFormed((a + b)[k].value)
      {
        if k >= |a| {
          assert (a + b)[k] == b[k - |a|];
        }
      }
    }
  }

  lemma {:induction false} OutcomesWellFormed(env: Env, url: string, checkAll: bool, timeout: nat, fuel: nat)
    ensures AllWellFormed(Outcomes(env, url, checkAll, timeout, fuel))
    decreases fuel, 2, 0
  {
    match env.fetch(url, UserAgent, timeout)
    case Err(_) =>
    case Ok(response) =>
      var info := response.info;
      if 200 <= info.code < 300 {
        SuccessBranch(env, url, checkAll, timeout, fuel, response);
        SuccessWellFormed(env, url, response, checkAll, timeout, fuel);
      } else if 300 <= info.code < 400 && "location" in info.headers && fuel > 0 {
        OutcomesWellFormed(env, info.headers["location"], checkAll, timeout, fuel - 1);
      }
  }

  lemma {:induction false} SuccessWellFormed(env: Env, url: string, response: Response, checkAll: bool, timeout: nat, fuel: nat)
    ensures AllWellFormed(SuccessOutcomes(env, url, response, checkAll, timeout, fuel))
    decreases fuel, 1, 0
  {
    if Classify(response.info.headers) == Playlist {
      PlaylistResultWellFormed(env, url, response.body, checkAll, timeout, fuel);
    }
  }

  lemma {:induction false} PlaylistResultWellFormed(env: Env, url: string, body: Result<string, string>, checkAll: bool,
                                                    timeout: nat, fuel: nat)
    ensures AllWellFormed(PlaylistResult(env, url, body, checkAll, timeout, fuel))
    decreases fuel, 0, 0
  {
    match body
    case Err(_) =>
    case Ok(content) =>
      if !env.isHls(content) && fuel > 0 {
        PlaylistOutcomesWellFormed(env, url, content, checkAll, timeout, fuel - 1);
      }
  }

  lemma {:induction false} PlaylistOutcomesWellFormed(env: Env, urlStr: string, content: string, checkAll: bool,
                                                      timeout: nat, fuel: nat)
    ensures AllWellFormed(PlaylistOutcomes(env, urlStr, content, checkAll, timeout, fuel))
    decreases fuel, 5, 0
  {
    match env.parseUrl(urlStr)
    case Err(_) =>
    case Ok(base) => CandidatesWellFormed(env, urlStr, base, env.decode(content), checkAll, timeout, fuel);
  }

  lemma {:induction false} CandidateWellFormed(env: Env, urlStr: string, base: string, url: string, checkAll: bool,
                                               timeout: nat, fuel: nat)
    ensures AllWellFormed(CandidateResult(env, urlStr, base, url, checkAll, timeout, fuel))
    decreases fuel, 3, 0
  {
    match env.join(base, url)
    case Err(_) =>
    case Ok(abs) => OutcomesWellFormed(env, abs, checkAll, timeout, fuel);
  }

  lemma {:induction false} CandidatesWellFormed(env: Env, urlStr: string, base: string, urls: seq<string>, checkAll: bool,
                                                timeout: nat, fuel: nat)
    ensures AllWellFormed(Candidates(env, urlStr, base, urls, checkAll, timeout, fuel))
    decreases fuel, 4, |urls|
  {
    if urls != [] {
      var rest := Candidates(env, urlStr, base, urls[1..], checkAll, timeout, fuel);
      CandidatesWellFormed(env, urlStr, base, urls[1..], checkAll, timeout, fuel);
      if Trim(urls[0]) != "" {
        var result := CandidateResult(env, urlStr, base, urls[0], checkAll, timeout, fuel);
        CandidateWellFormed(env, urlStr, base, urls[0], checkAll, timeout, fuel);
        AllWellFormedAppend(result, rest);
      }
    }
  }

  // ---------------------------------------------------------------- the depth bound

  /** No branch was cut off by the depth bound. */
  predicate WithinDepth(list: seq<Outcome>) {
    forall k :: 0 <= k < |list| ==> !(list[k].Err? && list[k].error.DepthExceeded?)
  }

  lemma {:induction false} WithinDepthAppend(a: seq<Outcome>, b: seq<Outcome>)
    ensures WithinDepth(a + b) ==> WithinDepth(a) && WithinDepth(b)
  {
    if WithinDepth(a + b) {
      forall k | 0 <= k < |b|
        ensures !(b[k].Err? && b[k].error.DepthExceeded?)
      {
        assert (a + b)[|a| + k] == b[k];
      }
      forall k | 0 <= k < |a|
        ensures !(a[k].Err? && a[k].error.DepthExceeded?)
      {
        assert (a + b)[k] == a[k];
      }
    }
  }

  /** Once the outcomes of a check are within the depth bound, more depth
      changes nothing. */
  lemma {:induction false} OutcomesFuel(env: Env, url: string, checkAll: bool, timeout: nat, fuel: nat)
    ensures WithinDepth(Outcomes(env, url, checkAll, timeout, fuel)) ==>
              Outcomes(env, url, checkAll, timeout, fuel + 1) == Outcomes(env, url, checkAll, timeout, fuel)
    decreases fuel, 2, 0
  {
    match env.fetch(url, UserAgent, timeout)
    case Err(_) =>
    case Ok(response) =>
      var info := response.info;
      if 200 <= info.code < 300 {
        SuccessBranch(env, url, checkAll, timeout, fuel, response);
        SuccessBranch(env, url, checkAll, timeout, fuel + 1, response);
        SuccessFuel(env, url, response, checkAll, timeout, fuel);
      } else if 300 <= info.code < 400 && "location" in info.headers {
        if fuel == 0 {
          assert Outcomes(env, url, checkAll, timeout, fuel)[0] == Err(DepthExceeded(url));
        } else {
          OutcomesFuel(env, info.headers["location"], checkAll, timeout, fuel - 1);
        }
      }
  }

  lemma {:induction false} SuccessFuel(env: Env, url: string, response: Response, checkAll: bool, timeout: nat, fuel: nat)
    ensures WithinDepth(SuccessOutcomes(env, url, response, checkAll, timeout, fuel)) ==>
              SuccessOutcomes(env, url, response, checkAll, timeout, fuel + 1)
              == SuccessOutcomes(env, url, response, checkAll, timeout, fuel)
    decreases fuel, 1, 0
  {
    if Classify(response.info.headers) == Playlist {
      PlaylistResultFuel(env, url, response.body, checkAll, timeout, fuel);
    }
  }

  lemma {:induction false} PlaylistResultFuel(env: Env, url: string, body: Result<string, string>, checkAll: bool,
                                              timeout: nat, fuel: nat)
    ensures WithinDepth(PlaylistResult(env, url, body, checkAll, timeout, fuel)) ==>
              PlaylistResult(env, url, body, checkAll, timeout, fuel + 1)
              == PlaylistResult(env, url, body, checkAll, timeout, fuel)
    decreases fuel, 0, 0
  {
    match body
    case Err(_) =>
    case Ok(content) =>
      if !env.isHls(content) {
        if fuel == 0 {
          assert PlaylistResult(env, url, body, checkAll, timeout, fuel)[0] == Err(DepthExceeded(url));
        } else {
          var before := PlaylistOutcomes(env, url, content, checkAll, timeout, fuel - 1);
          var after := PlaylistOutcomes(env, url, content, checkAll, timeout, fuel);
          assert PlaylistResult(env, url, body, checkAll, timeout, fuel)
            == if before == [] then [Err(StreamCheckError(url, EmptyPlaylist))] else before;
          assert PlaylistResult(env, url, body, checkAll, timeout, fuel + 1)
            == if after == [] then [Err(StreamCheckError(url, EmptyPlaylist))] else after;
          PlaylistOutcomesFuel(env, url, content, checkAll, timeout, fuel - 1);
        }
      }
  }

  lemma {:induction false} PlaylistOutcomesFuel(env: Env, urlStr: string, content: string, checkAll: bool,
                                                timeout: nat, fuel: nat)
    ensures WithinDepth(PlaylistOutcomes(env, urlStr, content, checkAll, timeout, fuel)) ==>
              PlaylistOutcomes(env, urlStr, content, checkAll, timeout, fuel + 1)
              == PlaylistOutcomes(env, urlStr, content, checkAll, timeout, fuel)
    decreases fuel, 5, 0
  {
    match env.parseUrl(urlStr)
    case Err(_) =>
    case Ok(base) => CandidatesFuel(env, urlStr, base, env.decode(content), checkAll, timeout, fuel);
  }

  lemma {:induction false} CandidateFuel(env: Env, urlStr: string, base: string, url: string, checkAll: bool,
                                         timeout: nat, fuel: nat)
    ensures WithinDepth(CandidateResult(env, urlStr, base, url, checkAll, timeout, fuel)) ==>
              CandidateResult(env, urlStr, base, url, checkAll, timeout, fuel + 1)
              == CandidateResult(env, urlStr, base, url, checkAll, timeout, fuel)
    decreases fuel, 3, 0
  {
    match env.join(base, url)
    case Err(_) =>
    case Ok(abs) => OutcomesFuel(env, abs, checkAll, timeout, fuel);
  }

  lemma {:induction false} CandidatesFuel(env: Env, urlStr: string, base: string, urls: seq<string>, checkAll: bool,
                                          timeout: nat, fuel: nat)
    ensures WithinDepth(Candidates(env, urlStr, base, urls, checkAll, timeout, fuel)) ==>
              Candidates(env, urlStr, base, urls, checkAll, timeout, fuel + 1)
              == Candidates(env, urlStr, base, urls, checkAll, timeout, fuel)
    decreases fuel, 4, |urls|
  {
    if urls != [] {
      var rest := Candidates(env, urlStr, base, urls[1..], checkAll, timeout, fuel);
      CandidatesFuel(env, urlStr, base, urls[1..], checkAll, timeout, fuel);
      if Trim(urls[0]) != "" {
        var result := CandidateResult(env, urlStr, base, urls[0], checkAll, timeout, fuel);
        CandidateFuel(env, urlStr, base, urls[0], checkAll, timeout, fuel);
        WithinDepthAppend(result, rest);
      }
    }
  }

  /** The depth bound is only a bound: whenever it cut no branch off, any
      larger bound gives the same outcomes. */
  lemma {:induction false} FuelBeyondNeed(env: Env, url: string, checkAll: bool, timeout: nat, fuel: nat, more: nat)
    requires WithinDepth(Outcomes(env, url, checkAll, timeout, fuel))
    ensures Outcomes(env, url, checkAll, timeout, fuel + more) == Outcomes(env, url, checkAll, timeout, fuel)
    decreases more
  {
    if more > 0 {
      var previous := fuel + (more - 1);
      FuelBeyondNeed(env, url, checkAll, timeout, fuel, more - 1);
      assert Outcomes(env, url, checkAll, timeout, previous) == Outcomes(env, url, checkAll, timeout, fuel);
      OutcomesFuel(env, url, checkAll, timeout, previous);
      assert previous + 1 == fuel + more;
    }
  }
}
