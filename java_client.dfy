/** The Java client's construction and requests (WebPConverterAPIClient in
    APIClient.java): the API key checks, the GET request with its query
    string, the reading of the response, and the multipart file upload.

    The network is a parameter: `reply` is what the server (or the
    connection) answers, and the methods return the request they would send
    together with what the client returns or throws. */
module JavaClient {
  import opened Wrappers
  import opened Text
  import opened Rules
  import opened JavaValidation
  import JavaValidationFacts

  const BaseUrl := "https://api.apiverve.com/v1/webpconverter"
  const ConnectTimeout := 30000
  const ReadTimeout := 30000

  const MissingKeyMessage := "API key must be provided. Get your API key at: https://apiverve.com"
  const KeyFormatMessage := "Invalid API key format. API key must be alphanumeric and may contain hyphens"
  const ShortKeyMessage := "Invalid API key. API key appears to be too short"

  /** A constructed client; both fields are final. */
  datatype Client = Client(apiKey: string, baseURL: string)

  // ---------------------------------------------------------------------
  // The API key

  /** String.trim() without its trailing part: drops every leading
      character at or below ' '. */
  function TrimStart(s: string): (r: string)
    ensures |r| <= |s| && r == s[|s| - |r|..]
    ensures r == [] || r[0] > ' '
    ensures forall i :: 0 <= i < |s| - |r| ==> s[i] <= ' '
  {
    if s != [] && s[0] <= ' ' then TrimStart(s[1..]) else s
  }

  /** ... and its trailing part. */
  function TrimEnd(s: string): (r: string)
    ensures |r| <= |s| && r == s[..|r|]
    ensures r == [] || r[|r| - 1] > ' '
    ensures forall i :: |r| <= i < |s| ==> s[i] <= ' '
  {
    if s != [] && s[|s| - 1] <= ' ' then TrimEnd(s[..|s| - 1]) else s
  }

  /** String.trim(). */
  function Trim(s: string): string
  {
    TrimEnd(TrimStart(s))
  }

  /** A string trims to nothing exactly when all its characters are at or
      below ' '. */
  lemma TrimEmpty(s: string)
    ensures Trim(s) == [] <==> forall i :: 0 <= i < |s| ==> s[i] <= ' '
  {
  }

  predicate KeyChar(c: char)
  {
    ('a' <= c <= 'z') || ('A' <= c <= 'Z') || ('0' <= c <= '9') || c == '-'
  }

  /** `apiKey.matches("^[a-zA-Z0-9-]+$")`: matches() must consume the whole
      key, so a trailing line terminator does not match. */
  predicate KeyPattern(s: string)
  {
    |s| > 0 && forall i :: 0 <= i < |s| ==> KeyChar(s[i])
  }

  /** The constructor: the client, or the message of the
      IllegalArgumentException it throws. The three checks run in order.
      Once the pattern holds the key is ASCII, so String.length() of the
      key without hyphens is its plain length. */
  function NewClient(apiKey: Option<string>): Result<Client, string>
  {
    if apiKey.None? || Trim(apiKey.value) == [] then Failure(MissingKeyMessage)
    else if !KeyPattern(apiKey.value) then Failure(KeyFormatMessage)
    else if |RemoveAll(apiKey.value, '-')| < 32 then Failure(ShortKeyMessage)
    else Success(Client(apiKey.value, BaseUrl))
  }

  /** A key is accepted exactly when it is letters, digits and hyphens and
      has at least 32 characters besides its hyphens; the client then keeps
      the key as given and the fixed base URL. */
  lemma KeyAccepted(k: string)
    ensures NewClient(Some(k)).Success? <==> KeyPattern(k) && |k| - multiset(k)['-'] >= 32
    ensures NewClient(Some(k)).Success? ==> NewClient(Some(k)).value == Client(k, BaseUrl)
  {
    assert |RemoveAll(k, '-')| == |k| - multiset(k)['-'];
    if KeyPattern(k) {
      PatternKeyNotBlank(k);
    }
  }

  lemma PatternKeyNotBlank(k: string)
    requires KeyPattern(k)
    ensures Trim(k) != []
  {
    assert !(k[0] <= ' ');
    TrimEmpty(k);
  }

  /** Which message a rejected key gets: a null or blank key is reported as
      missing before its characters are looked at, and a key with a bad
      character is reported as malformed before its length is looked at. */
  lemma KeyRejections(k: Option<string>)
    ensures k.None? ==> NewClient(k) == Failure(MissingKeyMessage)
    ensures k.Some? && (forall i :: 0 <= i < |k.value| ==> k.value[i] <= ' ') ==> NewClient(k) == Failure(MissingKeyMessage)
    ensures k.Some? && (exists i :: 0 <= i < |k.value| && k.value[i] > ' ') && !KeyPattern(k.value)
            ==> NewClient(k) == Failure(KeyFormatMessage)
    ensures k.Some? && KeyPattern(k.value) && |k.value| - multiset(k.value)['-'] < 32
            ==> NewClient(k) == Failure(ShortKeyMessage)
  {
    if k.Some? {
      TrimEmpty(k.value);
      if KeyPattern(k.value) {
        assert !(k.value[0] <= ' ');
      }
    }
  }

  /** A key of nine characters is too short. */
  lemma ShortKeyRejected()
    ensures NewClient(Some("short-key")) == Failure(ShortKeyMessage)
  {
    var k := "short-key";
    assert KeyPattern(k);
    KeyRejections(Some(k));
  }

  /** A run of key characters without hyphens. */
  predicate KeyGroup(g: string)
  {
    forall i :: 0 <= i < |g| ==> KeyChar(g[i]) && g[i] != '-'
  }

  /** Every key shaped like a GUID, five groups of 8, 4, 4, 4 and 12
      characters joined by hyphens, is accepted: it has 36 characters and
      32 besides its four hyphens. */
  lemma GuidKeyAccepted(g1: string, g2: string, g3: string, g4: string, g5: string)
    requires KeyGroup(g1) && KeyGroup(g2) && KeyGroup(g3) && KeyGroup(g4) && KeyGroup(g5)
    requires |g1| == 8 && |g2| == 4 && |g3| == 4 && |g4| == 4 && |g5| == 12
    ensures var k := g1 + "-" + g2 + "-" + g3 + "-" + g4 + "-" + g5;
            |k| == 36 && NewClient(Some(k)) == Success(Client(k, BaseUrl))
  {
    var k := g1 + "-" + g2 + "-" + g3 + "-" + g4 + "-" + g5;
    assert KeyPattern(k) by {
      forall i | 0 <= i < |k| ensures KeyChar(k[i]) {
        if i < |g1| {
          assert k[i] == g1[i];
        } else if i == |g1| {
        } else if i < |g1| + 1 + |g2| {
          assert k[i] == g2[i - |g1| - 1];
        } else if i == |g1| + 1 + |g2| {
        } else if i < |g1| + |g2| + 2 + |g3| {
          assert k[i] == g3[i - |g1| - |g2| - 2];
        } else if i == |g1| + |g2| + 2 + |g3| {
        } else if i < |g1| + |g2| + |g3| + 3 + |g4| {
          assert k[i] == g4[i - |g1| - |g2| - |g3| - 3];
        } else if i == |g1| + |g2| + |g3| + 3 + |g4| {
        } else {
          assert k[i] == g5[i - |g1| - |g2| - |g3| - |g4| - 4];
        }
      }
    }
    GroupHasNoHyphen(g1);
    GroupHasNoHyphen(g2);
    GroupHasNoHyphen(g3);
    GroupHasNoHyphen(g4);
    GroupHasNoHyphen(g5);
    assert multiset(k)['-'] == 4;
    KeyAccepted(k);
  }

  lemma GroupHasNoHyphen(g: string)
    requires KeyGroup(g)
    ensures multiset(g)['-'] == 0
  {
    assert '-' !in g;
  }

  /** A key with a space is malformed. */
  lemma SpacedKeyRejected()
    ensures NewClient(Some("my key")) == Failure(KeyFormatMessage)
  {
    var k := "my key";
    assert !KeyChar(k[2]) && k[0] > ' ';
    KeyRejections(Some(k));
  }

  // ---------------------------------------------------------------------
  // MIME types

  const OctetStream := "application/octet-stream"

  /** The text after the last '.', or the whole name when there is none. */
  function Extension(fileName: string): string
  {
    fileName[LastIndexOf(fileName, '.') + 1..]
  }

  /** The switch of getMimeType on the lower-cased extension. */
  function ExtensionType(ext: string): string
  {
    if ext == "jpg" || ext == "jpeg" then "image/jpeg"
    else if ext == "png" then "image/png"
    else if ext == "gif" then "image/gif"
    else if ext == "webp" then "image/webp"
    else if ext == "bmp" then "image/bmp"
    else if ext == "pdf" then "application/pdf"
    else OctetStream
  }

  /** getMimeType. */
  function MimeType(fileName: string): string
  {
    ExtensionType(LowerAscii(Extension(fileName)))
  }

  /** Every name gets one of the seven types, the generic one when the
      extension is not recognised. */
  lemma MimeTypeKnown(fileName: string)
    ensures MimeType(fileName) in {"image/jpeg", "image/png", "image/gif", "image/webp", "image/bmp", "application/pdf", OctetStream}
    ensures MimeType(fileName) == OctetStream <==>
              LowerAscii(Extension(fileName)) !in {"jpg", "jpeg", "png", "gif", "webp", "bmp", "pdf"}
  {
  }

  /** Only the last extension counts. */
  lemma MimeTypeLastExtension(stem: string, ext: string)
    requires '.' !in ext
    ensures MimeType(stem + "." + ext) == ExtensionType(LowerAscii(ext))
  {
    var s := stem + "." + ext;
    var i := LastIndexOf(s, '.');
    assert s[|stem|] == '.';
    assert forall j :: |stem| < j < |s| ==> s[j] == ext[j - |stem| - 1];
    assert i == |stem|;
    assert Extension(s) == ext;
  }

  /** A name without a dot is its own extension. */
  lemma MimeTypeNoDot(name: string)
    requires '.' !in name
    ensures MimeType(name) == ExtensionType(LowerAscii(name))
  {
    assert forall j :: 0 <= j < |name| ==> name[j] != '.';
    assert LastIndexOf(name, '.') == -1;
    assert Extension(name) == name;
  }

  lemma LowerAsciiIdempotent(s: string)
    ensures LowerAscii(LowerAscii(s)) == LowerAscii(s)
  {
  }

  /** The extension is compared without regard to ASCII case. */
  lemma MimeTypeIgnoresCase(name: string)
    ensures MimeType(LowerAscii(name)) == MimeType(name)
  {
    ExtensionOfLower(name);
    LowerAsciiIdempotent(Extension(name));
  }

  lemma ExtensionOfLower(name: string)
    ensures Extension(LowerAscii(name)) == LowerAscii(Extension(name))
  {
    var low := LowerAscii(name);
    var i := LastIndexOf(name, '.');
    var j := LastIndexOf(low, '.');
    assert forall k :: 0 <= k < |name| ==> (low[k] == '.' <==> name[k] == '.');
    assert i == j;
  }

  lemma UpperCaseJpeg()
    ensures MimeType("photo.JPG") == "image/jpeg"
  {
    MimeTypeLastExtension("photo", "JPG");
    assert "photo" + "." + "JPG" == "photo.JPG";
    assert LowerAscii("JPG") == "jpg";
  }

  /** A bare extension is looked up as it is. */
  lemma BareExtension()
    ensures MimeType("png") == "image/png"
  {
    assert '.' !in "png";
    MimeTypeNoDot("png");
    assert LowerAscii("png") == "png";
  }

  lemma DoubleExtension()
    ensures MimeType("archive.tar.gz") == OctetStream
  {
    MimeTypeLastExtension("archive.tar", "gz");
    assert "archive.tar" + "." + "gz" == "archive.tar.gz";
    assert LowerAscii("gz") == "gz";
  }

  // ---------------------------------------------------------------------
  // The GET request

  /** One entry of the caller's parameter map. */
  type Pair = (string, Value)

  /** `pairs` is the caller's map in its iteration order; a null map has
      no entries. */
  predicate ParamsOrder(pairs: seq<Pair>, parameters: Option<map<string, Value>>)
  {
    if parameters.None? then pairs == [] else EntrySetOf(pairs, parameters.value)
  }

  /** `key=value` with both sides URL-encoded; the value is its toString(). */
  function PairText(p: Pair, encode: string -> string): string
  {
    encode(p.0) + "=" + encode(ValueText(p.1))
  }

  function PairTexts(pairs: seq<Pair>, encode: string -> string): (r: seq<string>)
    ensures |r| == |pairs|
    ensures forall i :: 0 <= i < |pairs| ==> r[i] == PairText(pairs[i], encode)
  {
    seq(|pairs|, i requires 0 <= i < |pairs| => PairText(pairs[i], encode))
  }

  /** The URL of the GET request: the base URL, followed by '?' and the
      '&'-separated pairs when there are any. */
  function RequestUrl(base: string, pairs: seq<Pair>, encode: string -> string): string
  {
    if pairs == [] then base else base + "?" + Join(PairTexts(pairs, encode), "&")
  }

  /** The query string after the first `i` pairs have been appended. */
  function QueryPrefix(pairs: seq<Pair>, i: nat, encode: string -> string): string
    requires i <= |pairs|
  {
    if i == 0 then "?" else "?" + Join(PairTexts(pairs[..i], encode), "&")
  }

  lemma QueryStep(pairs: seq<Pair>, i: nat, encode: string -> string)
    requires i < |pairs|
    ensures QueryPrefix(pairs, i + 1, encode)
            == QueryPrefix(pairs, i, encode) + ((if i > 0 then "&" else "") + PairText(pairs[i], encode))
  {
    var texts := PairTexts(pairs[..i], encode);
    assert PairTexts(pairs[..i + 1], encode) == texts + [PairText(pairs[i], encode)];
    if i > 0 {
      JoinSnoc(texts, PairText(pairs[i], encode), "&");
    } else {
      assert PairTexts(pairs[..1], encode) == [PairText(pairs[0], encode)];
    }
  }

  /** The query-building loop of executeGet. */
  method BuildUrl(base: string, parameters: Option<map<string, Value>>, pairs: seq<Pair>, encode: string -> string)
    returns (url: string)
    requires ParamsOrder(pairs, parameters)
    ensures url == RequestUrl(base, pairs, encode)
    ensures (parameters.None? || parameters.value == map[]) ==> url == base
  {
    url := base;
    if parameters.Some? && |parameters.value| > 0 {
      var query := "?";
      var first := true;
      var i := 0;
      while i < |pairs|
        invariant 0 <= i <= |pairs|
        invariant first <==> i == 0
        invariant query == QueryPrefix(pairs, i, encode)
      {
        ghost var before := query;
        if !first {
          query := query + "&";
        }
        query := query + encode(pairs[i].0);
        query := query + "=";
        query := query + encode(ValueText(pairs[i].1));
        first := false;
        assert query == before + ((if i > 0 then "&" else "") + PairText(pairs[i], encode));
        QueryStep(pairs, i, encode);
        i := i + 1;
      }
      assert pairs[..i] == pairs;
      url := url + query;
    }
  }

  /** URLEncoder.encode never yields '&' or '=' (it escapes both). */
  ghost predicate SafeEncoding(encode: string -> string)
  {
    forall s :: '&' !in encode(s) && '=' !in encode(s)
  }

  /** A server splitting the query on '&' and each pair on '=' gets back
      every encoded key and value, one pair per map entry. */
  lemma QueryRoundTrip(base: string, pairs: seq<Pair>, encode: string -> string)
    requires pairs != [] && SafeEncoding(encode)
    ensures var url := RequestUrl(base, pairs, encode);
            && url[..|base| + 1] == base + "?"
            && Split(url[|base| + 1..], '&') == PairTexts(pairs, encode)
            && forall i :: 0 <= i < |pairs| ==>
                 Split(PairTexts(pairs, encode)[i], '=') == [encode(pairs[i].0), encode(ValueText(pairs[i].1))]
  {
    var texts := PairTexts(pairs, encode);
    var url := RequestUrl(base, pairs, encode);
    forall i | 0 <= i < |texts| ensures '&' !in texts[i] {
      assert '&' !in encode(pairs[i].0) && '&' !in encode(ValueText(pairs[i].1));
    }
    SplitJoin(texts, '&');
    assert url[|base| + 1..] == Join(texts, "&");
    forall i | 0 <= i < |pairs|
      ensures Split(texts[i], '=') == [encode(pairs[i].0), encode(ValueText(pairs[i].1))]
    {
      var xs := [encode(pairs[i].0), encode(ValueText(pairs[i].1))];
      assert Join(xs, "=") == texts[i] by {
        assert xs[1..] == [xs[1]];
      }
      SplitJoin(xs, '=');
    }
  }

  // ---------------------------------------------------------------------
  // Reading the response

  predicate IsBreak(c: char)
  {
    c == '\r' || c == '\n'
  }

  /** Where the first line of `s` ends. */
  function BreakIndex(s: string): (i: nat)
    ensures i <= |s|
    ensures i < |s| ==> IsBreak(s[i])
    ensures forall j :: 0 <= j < i ==> !IsBreak(s[j])
  {
    if s == [] || IsBreak(s[0]) then 0 else 1 + BreakIndex(s[1..])
  }

  /** The length of the terminator ending the first line: "\n", "\r",
      "\r\n", or nothing at the end of the text. */
  function TerminatorLength(s: string): (n: nat)
    requires s != []
    ensures BreakIndex(s) + n <= |s|
    ensures forall k :: BreakIndex(s) <= k < BreakIndex(s) + n ==> IsBreak(s[k])
    ensures BreakIndex(s) < |s| ==> n >= 1
  {
    var i := BreakIndex(s);
    if i == |s| then 0
    else if s[i] == '\r' && i + 1 < |s| && s[i + 1] == '\n' then 2
    else 1
  }

  /** What is left after BufferedReader.readLine consumed one line and its
      terminator. */
  function AfterLine(s: string): (r: string)
    requires s != []
    ensures |r| < |s|
  {
    s[BreakIndex(s) + TerminatorLength(s)..]
  }

  /** The lines readLine returns, one after the other, until it returns
      null. */
  function Lines(s: string): seq<string>
    decreases |s|
  {
    if s == [] then [] else [s[..BreakIndex(s)]] + Lines(AfterLine(s))
  }

  /** The text with every '\r' and '\n' removed. */
  function WithoutBreaks(s: string): (r: string)
    ensures forall i :: 0 <= i < |r| ==> !IsBreak(r[i])
  {
    if s == [] then []
    else (if IsBreak(s[0]) then [] else [s[0]]) + WithoutBreaks(s[1..])
  }

  lemma {:induction false} WithoutBreaksAppend(a: string, b: string)
    ensures WithoutBreaks(a + b) == WithoutBreaks(a) + WithoutBreaks(b)
  {
    if a == [] {
      assert a + b == b;
    } else {
      assert (a + b)[1..] == a[1..] + b;
      WithoutBreaksAppend(a[1..], b);
    }
  }

  lemma {:induction false} WithoutBreaksKeeps(s: string)
    requires forall i :: 0 <= i < |s| ==> !IsBreak(s[i])
    ensures WithoutBreaks(s) == s
  {
    if s != [] {
      WithoutBreaksKeeps(s[1..]);
    }
  }

  lemma {:induction false} BreaksVanish(t: string)
    requires forall k :: 0 <= k < |t| ==> IsBreak(t[k])
    ensures WithoutBreaks(t) == []
  {
    if t != [] {
      BreaksVanish(t[1..]);
    }
  }

  lemma LinesStep(s: string)
    requires s != []
    ensures Flatten(Lines(s)) == s[..BreakIndex(s)] + Flatten(Lines(AfterLine(s)))
  {
  }

  lemma WithoutBreaksStep(s: string)
    requires s != []
    ensures WithoutBreaks(s) == s[..BreakIndex(s)] + WithoutBreaks(AfterLine(s))
  {
    var i := BreakIndex(s);
    var j := i + TerminatorLength(s);
    assert s == s[..i] + (s[i..j] + s[j..]);
    DropTerminator(s[..i], s[i..j], s[j..]);
  }

  lemma DropTerminator(line: string, gap: string, rest: string)
    requires forall k :: 0 <= k < |line| ==> !IsBreak(line[k])
    requires forall k :: 0 <= k < |gap| ==> IsBreak(gap[k])
    ensures WithoutBreaks(line + (gap + rest)) == line + WithoutBreaks(rest)
  {
    WithoutBreaksAppend(gap, rest);
    BreaksVanish(gap);
    var tail := WithoutBreaks(rest);
    assert WithoutBreaks(gap + rest) == tail by {
      assert [] + tail == tail;
    }
    WithoutBreaksAppend(line, gap + rest);
    WithoutBreaksKeeps(line);
  }

  /** Appending every line read gives the text without its line breaks:
      the terminators are dropped and nothing else is. */
  lemma {:induction false} LinesJoined(s: string)
    ensures Flatten(Lines(s)) == WithoutBreaks(s)
    decreases |s|
  {
    if s != [] {
      LinesStep(s);
      WithoutBreaksStep(s);
      LinesJoined(AfterLine(s));
    }
  }

  /** A BufferedReader over the decoded body; `rest` is what it has not
      returned yet. */
  class LineReader {
    var rest: string

    constructor(text: string)
      ensures rest == text
    {
      rest := text;
    }

    /** readLine: the next line without its terminator, or null (None) at
        the end of the stream. */
    method ReadLine() returns (line: Option<string>)
      modifies this
      ensures old(rest) == [] ==> line.None? && rest == old(rest)
      ensures old(rest) != [] ==> line == Some(Lines(old(rest))[0]) && rest == AfterLine(old(rest))
    {
      if rest == [] {
        line := None;
      } else {
        line := Some(rest[..BreakIndex(rest)]);
        rest := AfterLine(rest);
      }
    }
  }

  /** The response body stream: readable text, or an exception (a null
      error stream, a failed read) with its message. */
  datatype Stream = Unreadable(reason: string) | Readable(raw: string)

  /** What the connection yields: no status line (getResponseCode threw),
      or a status code with the stream handleResponse reads for it (the
      input stream for 200, the error stream otherwise). */
  datatype Reply = NoStatus(reason: string) | Status(code: int, stream: Stream)

  /** APIResponse, holding the response body. */
  datatype ApiResponse = ApiResponse(body: string)

  /** handleResponse wraps any exception other than an APIException. */
  function ProcessingFailure(reason: string): ApiError
  {
    ApiException("Failed to process response: " + reason, None, Some(OtherException(reason)))
  }

  function HttpError(code: int, body: string): ApiError
  {
    ApiException("HTTP error " + IntText(code) + ": " + body, Some(code), None)
  }

  /** What handleResponse returns or throws, stated on the whole body. */
  function ResponseOutcome(reply: Reply): Result<ApiResponse, ApiError>
  {
    match reply
    case NoStatus(m) => Failure(ProcessingFailure(m))
    case Status(_, Unreadable(m)) => Failure(ProcessingFailure(m))
    case Status(code, Readable(raw)) =>
      if code != 200 then Failure(HttpError(code, WithoutBreaks(raw)))
      else Success(ApiResponse(WithoutBreaks(raw)))
  }

  /** handleResponse: reads the body line by line, appending each line
      without its terminator. */
  method HandleResponse(reply: Reply) returns (outcome: Result<ApiResponse, ApiError>)
    ensures outcome == ResponseOutcome(reply)
  {
    match reply
    case NoStatus(m) =>
      outcome := Failure(ProcessingFailure(m));
    case Status(code, stream) =>
      match stream
      case Unreadable(m) =>
        outcome := Failure(ProcessingFailure(m));
      case Readable(raw) =>
        var reader := new LineReader(raw);
        var response := "";
        var done := false;
        while !done
          invariant done ==> response == Flatten(Lines(raw))
          invariant !done ==> response + Flatten(Lines(reader.rest)) == Flatten(Lines(raw))
          decreases |reader.rest| + (if done then 0 else 1)
        {
          ghost var before := reader.rest;
          var line := reader.ReadLine();
          if line.None? {
            done := true;
            assert response + [] == response;
          } else {
            assert Flatten(Lines(before)) == line.value + Flatten(Lines(reader.rest));
            response := response + line.value;
          }
        }
        LinesJoined(raw);
        if code != 200 {
          outcome := Failure(HttpError(code, response));
        } else {
          outcome := Success(ApiResponse(response));
        }
  }

  /** The body the caller gets holds no line breaks, and is the server's
      text unchanged when that had none. */
  lemma ResponseBody(code: int, raw: string)
    ensures var r := ResponseOutcome(Status(code, Readable(raw)));
            && (r.Success? <==> code == 200)
            && (r.Success? ==> forall i :: 0 <= i < |r.value.body| ==> !IsBreak(r.value.body[i]))
            && (r.Success? && (forall i :: 0 <= i < |raw| ==> !IsBreak(raw[i])) ==> r.value.body == raw)
            && (r.Failure? ==> r.error == HttpError(code, WithoutBreaks(raw)) && r.error.statusCode == Some(code))
  {
    if forall i :: 0 <= i < |raw| ==> !IsBreak(raw[i]) {
      WithoutBreaksKeeps(raw);
    }
  }

  /** An HTTP request as the client configures it. */
  datatype HttpRequest = HttpRequest(
    verb: string, url: string, headers: seq<(string, string)>,
    connectTimeout: int, readTimeout: int, body: seq<Byte>)

  function GetRequest(client: Client, url: string): HttpRequest
  {
    HttpRequest("GET", url, [("x-api-key", client.apiKey), ("auth-mode", "android-package")],
                ConnectTimeout, ReadTimeout, [])
  }

  /** executeGet's catch-all, which also catches the APIException that
      handleResponse throws. */
  function NetworkError(e: ApiError): ApiError
  {
    ApiException("Network error: " + e.Message(), None, Some(e))
  }

  function GetOutcome(reply: Reply): Result<ApiResponse, ApiError>
  {
    match ResponseOutcome(reply)
    case Success(r) => Success(r)
    case Failure(e) => Failure(NetworkError(e))
  }

  /** executeGet. */
  method ExecuteGet(client: Client, parameters: Option<map<string, Value>>, pairs: seq<Pair>,
                    encode: string -> string, reply: Reply)
    returns (request: HttpRequest, outcome: Result<ApiResponse, ApiError>)
    requires ParamsOrder(pairs, parameters)
    ensures request == GetRequest(client, RequestUrl(client.baseURL, pairs, encode))
    ensures outcome == GetOutcome(reply)
  {
    var url := BuildUrl(client.baseURL, parameters, pairs, encode);
    request := GetRequest(client, url);
    var handled := HandleResponse(reply);
    match handled
    case Success(r) =>
      outcome := Success(r);
    case Failure(e) =>
      outcome := Failure(NetworkError(e));
  }

  /** Every failure of a GET surfaces as a "Network error: " exception
      without a status code; an HTTP error keeps its code and text only in
      the cause. */
  lemma GetFailures(reply: Reply)
    ensures GetOutcome(reply).Success? <==> reply.Status? && reply.code == 200 && reply.stream.Readable?
    ensures GetOutcome(reply).Failure? ==>
              && GetOutcome(reply).error.ApiException?
              && GetOutcome(reply).error.statusCode.None?
              && "Network error: " <= GetOutcome(reply).error.message
    ensures reply.Status? && reply.code != 200 && reply.stream.Readable? ==>
              var e := GetOutcome(reply).error;
              var body := WithoutBreaks(reply.stream.raw);
              && e.message == "Network error: " + ("HTTP error " + IntText(reply.code) + ": " + body)
              && e.cause == Some(HttpError(reply.code, body))
  {
    match ResponseOutcome(reply)
    case Success(_) =>
    case Failure(e) =>
      var m := e.Message();
      assert GetOutcome(reply).error.message == "Network error: " + m;
      assert ("Network error: " + m)[..15] == "Network error: ";
  }

  /** execute(parameters): validation first; the request is sent only when
      it passes. `entries` is the iteration order of the rule table. */
  method Execute(client: Client, parameters: Option<map<string, Value>>, entries: seq<Entry>,
                 pairs: seq<Pair>, encode: string -> string, parse: Parser, reply: Reply)
    returns (request: Option<HttpRequest>, outcome: Result<ApiResponse, ApiError>)
    requires EntrySetOf(entries, ValidationRules())
    requires ParamsOrder(pairs, parameters)
    ensures request.Some? <==> JavaValidationFacts.Acceptable(parameters, parse)
    ensures request.None? ==> outcome == Failure(ValidationException(Violations(entries, parameters, parse)))
    ensures request.Some? ==>
              request.value == GetRequest(client, RequestUrl(client.baseURL, pairs, encode))
              && outcome == GetOutcome(reply)
  {
    JavaValidationFacts.AcceptanceExact(entries, parameters, parse);
    var thrown := ValidateParams(entries, parameters, parse);
    if thrown.Some? {
      request := None;
      outcome := Failure(thrown.value);
    } else {
      var sent;
      sent, outcome := ExecuteGet(client, parameters, pairs, encode, reply);
      request := Some(sent);
    }
  }

  /** execute() with no parameters always fails validation: both required
      parameters are reported missing, and nothing is sent. */
  method ExecuteWithoutParameters(client: Client, entries: seq<Entry>, parse: Parser, reply: Reply)
    returns (request: Option<HttpRequest>, outcome: Result<ApiResponse, ApiError>)
    requires EntrySetOf(entries, ValidationRules())
    ensures request.None?
    ensures outcome.Failure? && outcome.error.ValidationException?
    ensures multiset(outcome.error.violations) == multiset{Missing("image"), Missing("outputFormat")}
  {
    JavaValidationFacts.NullParametersReportBothRequired(entries, parse);
    request, outcome := Execute(client, None, entries, [], s => s, parse, reply);
  }

  // ---------------------------------------------------------------------
  // The multipart upload

  newtype Byte = b: int | 0 <= b < 256

  /** The UTF-16 code units Java stores for one character: the character
      itself below U+10000, otherwise its high and low surrogates. */
  function CodeUnits(c: char): (units: seq<int>)
    ensures |units| == (if c as int >= 0x1_0000 then 2 else 1)
    ensures forall u <- units :: 0 <= u < 0x1_0000
    ensures c as int < 0x1_0000 ==> units == [c as int]
    ensures c as int >= 0x1_0000 ==> 0xD800 <= units[0] < 0xDC00 <= units[1] < 0xE000
  {
    if c as int < 0x1_0000 then [c as int]
    else
      var v := c as int - 0x1_0000;
      [0xD800 + v / 0x400, 0xDC00 + v % 0x400]
  }

  /** DataOutputStream.writeBytes keeps the low eight bits of each char. */
  function LowByte(unit: int): Byte
  {
    (unit % 256) as Byte
  }

  /** The bytes writeBytes writes for one character: one per code unit. */
  function CharBytes(c: char): seq<Byte>
  {
    var units := CodeUnits(c);
    seq(|units|, i requires 0 <= i < |units| => LowByte(units[i]))
  }

  function WriteBytesOf(s: string): seq<Byte>
  {
    if s == [] then [] else CharBytes(s[0]) + WriteBytesOf(s[1..])
  }

  lemma {:induction false} WriteBytesAppend(a: string, b: string)
    ensures WriteBytesOf(a + b) == WriteBytesOf(a) + WriteBytesOf(b)
  {
    if a == [] {
      assert a + b == b;
    } else {
      assert (a + b)[1..] == a[1..] + b;
      WriteBytesAppend(a[1..], b);
    }
  }

  /** One byte per UTF-16 char: the byte count is String.length(). */
  lemma {:induction false} WriteBytesLength(s: string)
    ensures |WriteBytesOf(s)| == Utf16Length(s)
  {
    if s != [] {
      WriteBytesLength(s[1..]);
    }
  }

  /** Text below U+10000 is written one byte per character, the low byte
      of each. */
  lemma {:induction false} WriteBytesBasicPlane(s: string)
    requires forall i :: 0 <= i < |s| ==> s[i] as int < 0x1_0000
    ensures |WriteBytesOf(s)| == |s|
    ensures forall i :: 0 <= i < |s| ==> WriteBytesOf(s)[i] == LowByte(s[i] as int)
  {
    if s != [] {
      WriteBytesBasicPlane(s[1..]);
      assert CharBytes(s[0]) == [LowByte(s[0] as int)];
      forall i | 0 <= i < |s|
        ensures WriteBytesOf(s)[i] == LowByte(s[i] as int)
      {
        if i > 0 {
          assert WriteBytesOf(s)[i] == WriteBytesOf(s[1..])[i - 1];
        }
      }
    }
  }

  /** Text below U+0100 is written byte for byte; a character above it is
      not, so distinct file names can be written alike, and a character
      beyond U+FFFF becomes the low bytes of its two surrogates. */
  lemma WriteBytesLatin1(s: string)
    ensures (forall i :: 0 <= i < |s| ==> s[i] as int < 256) ==>
              |WriteBytesOf(s)| == |s| &&
              forall i :: 0 <= i < |s| ==> WriteBytesOf(s)[i] as int == s[i] as int
    ensures WriteBytesOf("\U{142}") == WriteBytesOf("B")
    ensures WriteBytesOf("\U{1F600}") == [0x3D, 0x00]
  {
    if forall i :: 0 <= i < |s| ==> s[i] as int < 256 {
      WriteBytesBasicPlane(s);
    }
    assert CodeUnits('\U{1F600}') == [0xD83D, 0xDE00];
  }

  /** The file to upload: File.getName(), File.exists() and its bytes. */
  datatype FileRef = FileRef(name: string, present: bool, content: seq<Byte>)

  const NoFileMessage := "File does not exist or is null"

  /** The part header written before the file's bytes: the delimiter
      line, the disposition and type lines, and an empty line. */
  function PartHead(boundary: string, fieldName: string, fileName: string): string
  {
    DelimiterLine(boundary) + DispositionLine(fieldName, fileName) + TypeLine(fileName) + "\r\n"
  }

  function DelimiterLine(boundary: string): string
  {
    "--" + boundary + "\r\n"
  }

  function DispositionLine(fieldName: string, fileName: string): string
  {
    "Content-Disposition: form-data; name=\"" + fieldName + "\"; filename=\"" + fileName + "\"" + "\r\n"
  }

  function TypeLine(fileName: string): string
  {
    "Content-Type: " + MimeType(fileName) + "\r\n"
  }

  /** The text written after the file's bytes: the line end and the closing
      delimiter. */
  function PartTail(boundary: string): string
  {
    "\r\n" + "--" + boundary + "--" + "\r\n"
  }

  function MultipartBody(boundary: string, fieldName: string, file: FileRef): seq<Byte>
  {
    WriteBytesOf(PartHead(boundary, fieldName, file.name)) + file.content + WriteBytesOf(PartTail(boundary))
  }

  /** The body carries the file's bytes untouched between the part header
      and the closing delimiter. */
  lemma MultipartLayout(boundary: string, fieldName: string, file: FileRef)
    ensures var body := MultipartBody(boundary, fieldName, file);
            var h := |WriteBytesOf(PartHead(boundary, fieldName, file.name))|;
            var t := |WriteBytesOf(PartTail(boundary))|;
            && |body| == h + |file.content| + t
            && body[h..h + |file.content|] == file.content
            && body[..h] == WriteBytesOf(PartHead(boundary, fieldName, file.name))
            && body[h + |file.content|..] == WriteBytesOf(PartTail(boundary))
            && body[..2] == WriteBytesOf("--")
  {
    var text := PartHead(boundary, fieldName, file.name);
    assert text == "--" + text[2..];
    WriteBytesAppend("--", text[2..]);
  }

  function UploadRequest(client: Client, boundary: string, body: seq<Byte>): HttpRequest
  {
    HttpRequest("POST", client.baseURL,
                [("Content-Type", "multipart/form-data; boundary=" + boundary),
                 ("x-api-key", client.apiKey), ("auth-mode", "android-package")],
                ConnectTimeout, ReadTimeout, body)
  }

  /** A FileInputStream over the file's bytes. */
  class FileSource {
    const content: seq<Byte>
    var position: nat

    predicate Valid()
      reads this
    {
      position <= |content|
    }

    constructor(bytes: seq<Byte>)
      ensures content == bytes && position == 0 && Valid()
    {
      content := bytes;
      position := 0;
    }

    /** read(buffer): -1 at the end of the file, otherwise some number of
        bytes between one and the buffer's length, copied to its front.
        How many is the stream's choice. */
    method Read(buffer: array<Byte>) returns (n: int)
      requires Valid() && buffer.Length > 0
      modifies this, buffer
      ensures Valid()
      ensures old(position) == |content| ==> n == -1 && position == old(position)
      ensures old(position) < |content| ==>
                && 1 <= n <= buffer.Length
                && position == old(position) + n
                && buffer[..n] == content[old(position)..position]
    {
      if position == |content| {
        return -1;
      }
      var available := if |content| - position < buffer.Length then |content| - position else buffer.Length;
      var k :| 1 <= k <= available;
      forall j | 0 <= j < k {
        buffer[j] := content[position + j];
      }
      position := position + k;
      n := k;
    }
  }

  /** The DataOutputStream over the connection's output. */
  class OutputSink {
    var written: seq<Byte>

    constructor()
      ensures written == []
    {
      written := [];
    }

    method WriteBytes(s: string)
      modifies this
      ensures written == old(written) + WriteBytesOf(s)
    {
      written := written + WriteBytesOf(s);
    }

    method Write(buffer: array<Byte>, offset: nat, length: nat)
      requires offset + length <= buffer.Length
      modifies this
      ensures written == old(written) + buffer[offset..offset + length]
    {
      written := written + buffer[offset..offset + length];
    }
  }

  /** The four header lines of the file part, written one by one. */
  method WritePartHead(output: OutputSink, boundary: string, fieldName: string, fileName: string)
    modifies output
    ensures output.written == old(output.written) + WriteBytesOf(PartHead(boundary, fieldName, fileName))
  {
    var lineEnd := "\r\n";
    var a, b, c := DelimiterLine(boundary), DispositionLine(fieldName, fileName), TypeLine(fileName);
    ghost var start := output.written;
    output.WriteBytes(a);
    output.WriteBytes(b);
    WriteBytesAppend(a, b);
    AppendAssoc(start, WriteBytesOf(a), WriteBytesOf(b));
    output.WriteBytes(c);
    WriteBytesAppend(a + b, c);
    AppendAssoc(start, WriteBytesOf(a + b), WriteBytesOf(c));
    output.WriteBytes(lineEnd);
    WriteBytesAppend(a + b + c, lineEnd);
    AppendAssoc(start, WriteBytesOf(a + b + c), WriteBytesOf(lineEnd));
  }

  /** The copy loop: read into a 4096-byte buffer until the end of the
      file, writing each chunk read. Whatever chunk sizes the stream
      chooses, the whole file is written in order. */
  method CopyFile(input: FileSource, output: OutputSink)
    requires input.Valid() && input.position == 0
    modifies input, output
    ensures input.Valid() && input.position == |input.content|
    ensures output.written == old(output.written) + input.content
  {
    ghost var head := output.written;
    var buffer := new Byte[4096];
    var bytesRead := input.Read(buffer);
    while bytesRead != -1
      invariant input.Valid()
      invariant bytesRead == -1 ==> input.position == |input.content|
      invariant bytesRead != -1 ==>
                  && 1 <= bytesRead <= buffer.Length
                  && bytesRead <= input.position
                  && buffer[..bytesRead] == input.content[input.position - bytesRead..input.position]
      invariant output.written == head + input.content[..input.position - (if bytesRead == -1 then 0 else bytesRead)]
      decreases |input.content| - input.position + (if bytesRead == -1 then 0 else 1)
    {
      ghost var p := input.position;
      output.Write(buffer, 0, bytesRead);
      assert output.written == head + input.content[..p];
      bytesRead := input.Read(buffer);
    }
    assert input.content[..input.position] == input.content;
  }

  /** The two writes after the file's bytes: the line end, then the
      closing delimiter. */
  method WritePartTail(output: OutputSink, boundary: string)
    modifies output
    ensures output.written == old(output.written) + WriteBytesOf(PartTail(boundary))
  {
    var lineEnd := "\r\n";
    var twoHyphens := "--";
    var closing := twoHyphens + boundary + twoHyphens + lineEnd;
    ghost var start := output.written;
    output.WriteBytes(lineEnd);
    output.WriteBytes(closing);
    WriteBytesAppend(lineEnd, closing);
    AppendAssoc(start, WriteBytesOf(lineEnd), WriteBytesOf(closing));
    assert PartTail(boundary) == lineEnd + closing;
  }

  /** executeWithFile. `uuid` is the random UUID's text. `streamFailure` is
      the message of an exception thrown while opening the connection's
      output stream or the file, after which no request is completed.
      Exceptions from handleResponse are already APIExceptions and pass
      through unchanged. */
  method ExecuteWithFile(client: Client, file: Option<FileRef>, fieldName: string, uuid: string,
                         streamFailure: Option<string>, reply: Reply)
    returns (request: Option<HttpRequest>, outcome: Result<ApiResponse, ApiError>)
    ensures (file.None? || !file.value.present) ==>
              request.None? && outcome == Failure(ApiException(NoFileMessage, None, None))
    ensures file.Some? && file.value.present && streamFailure.Some? ==>
              var m := streamFailure.value;
              request.None? && outcome == Failure(ApiException("File upload error: " + m, None, Some(OtherException(m))))
    ensures file.Some? && file.value.present && streamFailure.None? ==>
              && request == Some(UploadRequest(client, "----" + uuid, MultipartBody("----" + uuid, fieldName, file.value)))
              && outcome == ResponseOutcome(reply)
  {
    if file.None? || !file.value.present {
      return None, Failure(ApiException(NoFileMessage, None, None));
    }
    var f := file.value;
    var boundary := "----" + uuid;
    if streamFailure.Some? {
      var m := streamFailure.value;
      return None, Failure(ApiException("File upload error: " + m, None, Some(OtherException(m))));
    }
    var output := new OutputSink();
    WritePartHead(output, boundary, fieldName, f.name);
    var input := new FileSource(f.content);
    CopyFile(input, output);
    WritePartTail(output, boundary);
    assert output.written == MultipartBody(boundary, fieldName, f);
    request := Some(UploadRequest(client, boundary, output.written));
    outcome := HandleResponse(reply);
  }

  /** executeWithFile(file): the field is named "image". */
  method ExecuteWithFileDefault(client: Client, file: Option<FileRef>, uuid: string,
                                streamFailure: Option<string>, reply: Reply)
    returns (request: Option<HttpRequest>, outcome: Result<ApiResponse, ApiError>)
    ensures (file.None? || !file.value.present) ==>
              request.None? && outcome == Failure(ApiException(NoFileMessage, None, None))
    ensures file.Some? && file.value.present && streamFailure.Some? ==>
              var m := streamFailure.value;
              request.None? && outcome == Failure(ApiException("File upload error: " + m, None, Some(OtherException(m))))
    ensures file.Some? && file.value.present && streamFailure.None? ==>
              && request == Some(UploadRequest(client, "----" + uuid, MultipartBody("----" + uuid, "image", file.value)))
              && outcome == ResponseOutcome(reply)
  {
    request, outcome := ExecuteWithFile(client, file, "image", uuid, streamFailure, reply);
  }

  /** Unlike a GET, an upload's HTTP error reaches the caller with its
      status code, and a missing status line keeps its processing message. */
  lemma UploadFailures(reply: Reply)
    ensures reply.Status? && reply.code != 200 && reply.stream.Readable? ==>
              ResponseOutcome(reply) == Failure(HttpError(reply.code, WithoutBreaks(reply.stream.raw)))
              && ResponseOutcome(reply).error.statusCode == Some(reply.code)
    ensures reply.NoStatus? ==>
              ResponseOutcome(reply).error.message == "Failed to process response: " + reply.reason
  {
  }
}
