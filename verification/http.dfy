/** The hand-rolled HTTP/1.1 exchange inside `Client::get`: the GET request
    it writes to the stream, and the cut of the raw response into a header
    section and a body at the first blank line, the framing of section 2.1
    of RFC 9112. */
module Http {
  import opened Wrappers
  import opened Errors
  import opened Text

  const Host := "adventofcode.com"
  const CRLF := "\r\n"
  /** The end of the header section: the last header line's CRLF followed by
      the empty line's CRLF. */
  const BlankLine := "\r\n\r\n"

  // ---------------------------------------------------------------------
  // Request rendering
  // ---------------------------------------------------------------------

  /** The request `Client::get` sends for request target `target` (the base
      path followed by the endpoint) and cookie value `cookie`, header order
      and the `User-Aget` spelling as written in the source. */
  function RenderGet(target: string, cookie: string): string
  {
    ("GET " + target + " HTTP/1.1\r\n")
    + ("Host: " + Host + "\r\n")
    + "User-Aget: AocBud-RustHttp\r\n"
    + "Accept: */*\r\n"
    + ("Cookie: " + cookie + "\r\n")
    + "Connection: close\r\n"
    + "\r\n"
  }

  /** The request line and the header lines, in the order they are sent. */
  function HeaderLines(target: string, cookie: string): (ls: seq<string>)
    ensures |ls| == 6
  {
    [ "GET " + target + " HTTP/1.1",
      "Host: " + Host,
      "User-Aget: AocBud-RustHttp",
      "Accept: */*",
      "Cookie: " + cookie,
      "Connection: close" ]
  }

  /** Each line followed by its CRLF terminator. */
  function Lines(ls: seq<string>): string
  {
    if ls == [] then "" else ls[0] + CRLF + Lines(ls[1..])
  }

  lemma LinesOfSix(ls: seq<string>)
    requires |ls| == 6
    ensures Lines(ls) == (ls[0] + CRLF) + (ls[1] + CRLF) + (ls[2] + CRLF) + (ls[3] + CRLF) + (ls[4] + CRLF) + (ls[5] + CRLF)
  {
    assert ls[5..][1..] == [];
    assert Lines(ls[5..]) == ls[5] + CRLF;
    assert ls[4..][1..] == ls[5..];
    assert Lines(ls[4..]) == ls[4] + CRLF + Lines(ls[5..]);
    assert ls[3..][1..] == ls[4..];
    assert Lines(ls[3..]) == ls[3] + CRLF + Lines(ls[4..]);
    assert ls[2..][1..] == ls[3..];
    assert Lines(ls[2..]) == ls[2] + CRLF + Lines(ls[3..]);
    assert ls[1..][1..] == ls[2..];
    assert Lines(ls[1..]) == ls[1] + CRLF + Lines(ls[2..]);
  }

  /** The rendered request is the request line and the five headers, each
      ended by CRLF, then an empty line: a message head with nothing after
      it. */
  lemma RenderGetIsHeaderLines(target: string, cookie: string)
    ensures RenderGet(target, cookie) == Lines(HeaderLines(target, cookie)) + CRLF
  {
    var ls := HeaderLines(target, cookie);
    LinesOfSix(ls);
    assert "GET " + target + " HTTP/1.1\r\n" == ls[0] + CRLF;
    assert "Host: " + Host + "\r\n" == ls[1] + CRLF;
    assert "Cookie: " + cookie + "\r\n" == ls[4] + CRLF;
    assert "User-Aget: AocBud-RustHttp\r\n" == "User-Aget: AocBud-RustHttp" + CRLF;
    assert "Accept: */*\r\n" == "Accept: */*" + CRLF;
    assert "Connection: close\r\n" == "Connection: close" + CRLF;
  }

  /** In a sequence of CRLF-terminated lines that are non-empty and hold no
      CR, no blank line starts before the last line's terminator, whatever
      follows. */
  lemma {:induction false} NoBlankLineAmongLines(ls: seq<string>, rest: string, i: int)
    requires forall k :: 0 <= k < |ls| ==> |ls[k]| > 0 && '\r' !in ls[k]
    requires 0 <= i < |Lines(ls)| - 2
    ensures !OccursAt(Lines(ls) + rest, BlankLine, i)
  {
    var l, tail := ls[0], Lines(ls[1..]);
    var s := Lines(ls) + rest;
    assert s == l + CRLF + (tail + rest);
    if i + 4 > |s| {
    } else if i < |l| {
      assert s[i..i + 4][0] == s[i] == l[i] != '\r';
    } else if i == |l| {
      assert tail == ls[1] + CRLF + Lines(ls[1..][1..]);
      assert s[i..i + 4][2] == s[i + 2] == ls[1][0] != '\r';
    } else if i == |l| + 1 {
      assert s[i..i + 4][0] == s[i] == '\n';
    } else {
      var j := i - |l| - 2;
      assert (tail + rest)[j..j + 4] == s[i..i + 4];
      NoBlankLineAmongLines(ls[1..], rest, j);
    }
  }

  /** Every request and header line is non-empty and holds no CR when the
      target and the cookie hold none. */
  lemma HeaderLinesHoldNoCR(target: string, cookie: string)
    requires '\r' !in target && '\r' !in cookie
    ensures forall k :: 0 <= k < 6 ==> var l := HeaderLines(target, cookie)[k]; |l| > 0 && '\r' !in l
  {
    assert '\r' !in "GET " + target + " HTTP/1.1";
    assert '\r' !in "Cookie: " + cookie;
  }

  /** Framed by the server's rule, the request is a header section with an
      empty body: the first blank line is the one that ends it. This holds
      whenever the target and the cookie hold no CR. */
  lemma RequestHasNoBody(target: string, cookie: string)
    requires '\r' !in target && '\r' !in cookie
    ensures var req := RenderGet(target, cookie);
      |req| >= 4 && SplitOnce(req, BlankLine) == Some((req[..|req| - 4], ""))
  {
    var ls := HeaderLines(target, cookie);
    var req := RenderGet(target, cookie);
    RenderGetIsHeaderLines(target, cookie);
    HeaderLinesHoldNoCR(target, cookie);
    var n := |Lines(ls)|;
    forall j | 0 <= j < n - 2
      ensures !OccursAt(req, BlankLine, j)
    {
      NoBlankLineAmongLines(ls, CRLF, j);
    }
    assert req == req[..n - 2] + BlankLine + "";
    SplitOnceJoin(req[..n - 2], BlankLine, "");
  }

  // ---------------------------------------------------------------------
  // Response splitting
  // ---------------------------------------------------------------------

  /** `str::split_once`: the text before and after the first occurrence of
      `sep`, or nothing when `sep` does not occur. */
  function SplitOnce(s: string, sep: string): (r: Option<(string, string)>)
    ensures r.None? <==> !Contains(s, sep)
    ensures r.Some? ==> s == r.value.0 + sep + r.value.1
    ensures r.Some? ==> forall j :: 0 <= j < |r.value.0| ==> !OccursAt(s, sep, j)
    ensures r.Some? && sep != [] ==> !Contains(r.value.0, sep)
  {
    match First(s, sep)
    case None => None
    case Some(i) =>
      var r := Some((s[..i], s[i + |sep|..]));
      assert s == s[..i] + sep + s[i + |sep|..];
      forall j | 0 <= j <= i && sep != []
        ensures !OccursAt(s[..i], sep, j)
      {
        if sep != [] && j + |sep| <= i {
          assert s[..i][j..j + |sep|] == s[j..j + |sep|];
          assert !OccursAt(s, sep, j);
        }
      }
      r
  }

  /** Joining a header and a body with `sep` and splitting again gives them
      back exactly when `sep` does not start anywhere inside the header. */
  lemma SplitOnceJoin(head: string, sep: string, body: string)
    ensures SplitOnce(head + sep + body, sep) == Some((head, body))
        <==> forall j :: 0 <= j < |head| ==> !OccursAt(head + sep + body, sep, j)
  {
    var s := head + sep + body;
    assert OccursAt(s, sep, |head|) by {
      assert s[|head|..|head| + |sep|] == sep;
    }
    if forall j :: 0 <= j < |head| ==> !OccursAt(s, sep, j) {
      var i := First(s, sep).value;
      assert i == |head|;
      assert s[..i] == head;
      assert s[i + |sep|..] == body;
    }
  }

  /** A response as the source sees it: a header section, which it throws
      away, and the body text. */
  datatype Response = Response(head: string, body: string)

  /** Splits the raw response at its first blank line. A response with no
      blank line is an error, never a partial body. */
  function Decode(raw: string): (r: Result<Response, Error>)
    ensures r.Err? <==> !Contains(raw, BlankLine)
    ensures r.Err? ==> r.error == MalformedResponse
    ensures r.Ok? ==> raw == r.value.head + BlankLine + r.value.body
    ensures r.Ok? ==> !Contains(r.value.head, BlankLine)
    ensures r.Ok? ==> forall j :: 0 <= j < |r.value.head| ==> !OccursAt(raw, BlankLine, j)
  {
    match SplitOnce(raw, BlankLine)
    case None => Err(MalformedResponse)
    case Some((head, body)) => Ok(Response(head, body))
  }

  /** Round trip: a header section with no blank line starting inside it,
      followed by the blank line and any body, decodes to that header and
      that body. */
  lemma DecodeRoundTrip(head: string, body: string)
    requires forall j :: 0 <= j < |head| ==> !OccursAt(head + BlankLine + body, BlankLine, j)
    ensures Decode(head + BlankLine + body) == Ok(Response(head, body))
  {
    SplitOnceJoin(head, BlankLine, body);
  }

  /** `body` is what follows the first blank line of `raw`: `raw` ends with
      the blank line and `body`, and no blank line starts before that one. */
  predicate IsBodyOf(raw: string, body: string)
  {
    && |body| + |BlankLine| <= |raw|
    && var cut := |raw| - |body| - |BlankLine|;
       && raw[cut..] == BlankLine + body
       && forall j :: 0 <= j < cut ==> !OccursAt(raw, BlankLine, j)
  }

  /** A response has at most one body. */
  lemma BodyIsUnique(raw: string, body1: string, body2: string)
    requires IsBodyOf(raw, body1) && IsBodyOf(raw, body2)
    ensures body1 == body2
  {
    var cut1 := |raw| - |body1| - |BlankLine|;
    var cut2 := |raw| - |body2| - |BlankLine|;
    assert raw[cut1..][..4] == BlankLine && raw[cut2..][..4] == BlankLine;
    assert OccursAt(raw, BlankLine, cut1) && OccursAt(raw, BlankLine, cut2);
    assert cut1 == cut2;
    assert body1 == raw[cut1 + 4..] == body2;
  }

  /** One request/response exchange over a fresh stream. `server` stands for
      the TLS stream: given the request it yields the bytes read to the end
      of the stream, or nothing when writing or reading failed. */
  function Exchange(server: string -> Option<string>, request: string, endpoint: string): (r: Result<string, Error>)
    ensures server(request).None? ==> r == Err(TransportError(endpoint))
    ensures server(request).Some? ==> (r.Err? <==> !Contains(server(request).value, BlankLine))
    ensures server(request).Some? && r.Err? ==> r == Err(MalformedResponse)
    ensures r.Ok? ==> server(request).Some? && IsBodyOf(server(request).value, r.value)
  {
    match server(request)
    case None => Err(TransportError(endpoint))
    case Some(raw) =>
      match Decode(raw)
      case Err(e) => Err(e)
      case Ok(response) =>
        assert raw[|response.head|..] == BlankLine + response.body;
        Ok(response.body)
  }
}
