/** The client of one puzzle (`Client`): the session cookie, the base path
    of the puzzle, its cache file, and the stream to the server. */
module Aoc {
  import opened Wrappers
  import opened Errors
  import opened Text
  import opened Http
  import opened Extract
  import opened Cache

  /** The cookie value sent with every request. */
  function SessionCookie(token: string): string
  {
    "session=" + token
  }

  /** The path of the puzzle's page on the server, to which each request
      appends its endpoint. */
  function BasePath(day: Byte, year: Int32): string
  {
    "/" + SignedDecimal(year) + "/day/" + Decimal(day)
  }

  /** Two puzzles never share a base path: the year holds no `/`, so the
      second `/` ends it, and the rest after `day/` is the day. */
  lemma BasePathInjective(d1: Byte, y1: Int32, d2: Byte, y2: Int32)
    ensures BasePath(d1, y1) == BasePath(d2, y2) <==> d1 == d2 && y1 == y2
  {
    if BasePath(d1, y1) == BasePath(d2, y2) {
      var year1, year2 := SignedDecimal(y1), SignedDecimal(y2);
      var rest1, rest2 := "day/" + Decimal(d1), "day/" + Decimal(d2);
      assert BasePath(d1, y1) == "/" + (year1 + ['/'] + rest1);
      assert BasePath(d2, y2) == "/" + (year2 + ['/'] + rest2);
      assert year1 + ['/'] + rest1 == BasePath(d1, y1)[1..] == year2 + ['/'] + rest2;
      assert '/' !in year1 && '/' !in year2 by {
        assert !IsDigit('/');
      }
      SplitAtFirstChar(year1, rest1, year2, rest2, '/');
      assert Decimal(d1) == rest1[4..] == Decimal(d2);
      DecimalInjective(d1, d2);
      SignedDecimalInjective(y1, y2);
    }
  }

  /** The base path of the first puzzle of 2023. */
  lemma BasePathExample()
    ensures BasePath(1, 2023) == "/2023/day/1"
  {
    DecimalExample();
  }

  /** The request for the input of the first puzzle of 2023, made with the
      session token `abc123`: its request line and its cookie header. */
  lemma InputRequestExample()
    ensures var ls := HeaderLines(BasePath(1, 2023) + "/input", SessionCookie("abc123"));
      && ls[0] == "GET /2023/day/1/input HTTP/1.1"
      && ls[4] == "Cookie: session=abc123"
  {
    BasePathExample();
    assert BasePath(1, 2023) + "/input" == "/2023/day/1/input";
  }

  /** The requests a client sends frame as a header section with an empty
      body unless the session token or the endpoint holds a CR: the base path
      holds only digits, `-` and `/`, and the token is sent unchecked. */
  lemma ClientRequestHasNoBody(day: Byte, year: Int32, token: string, endpoint: string)
    requires '\r' !in token && '\r' !in endpoint
    ensures var req := RenderGet(BasePath(day, year) + endpoint, SessionCookie(token));
      |req| >= 4 && SplitOnce(req, BlankLine) == Some((req[..|req| - 4], ""))
  {
    var year', day' := SignedDecimal(year), Decimal(day);
    assert !IsDigit('\r');
    assert '\r' !in year' && '\r' !in day';
    assert '\r' !in BasePath(day, year) + endpoint by {
      assert BasePath(day, year) + endpoint == "/" + year' + "/day/" + day' + endpoint;
    }
    assert '\r' !in SessionCookie(token);
    RequestHasNoBody(BasePath(day, year) + endpoint, SessionCookie(token));
  }

  class Client {
    /** `session=<token>`. */
    const session: string
    /** `/<year>/day/<day>`. */
    const path: string
    /** The cache file of the puzzle. */
    const input: InputFile
    /** The server behind the TLS stream: given the request, the bytes read
        until the server closes the stream, or nothing when writing or
        reading failed. */
    const server: string -> Option<string>
    /** Every request written to the stream, in order. */
    var sent: seq<string>

    /** `Client::new` once the connection is open: the session token is
        passed in rather than read from the environment. */
    constructor (day: Byte, year: Int32, token: string, disk: Disk, server: string -> Option<string>)
      ensures session == SessionCookie(token)
      ensures path == BasePath(day, year)
      ensures input.path == CachePath(day, year) && input.disk == disk
      ensures this.server == server
      ensures sent == []
    {
      session := SessionCookie(token);
      path := BasePath(day, year);
      input := new InputFile(day, year, disk);
      this.server := server;
      sent := [];
    }

    /** The request for `endpoint` below the puzzle's base path. */
    function Request(endpoint: string): string
    {
      RenderGet(path + endpoint, session)
    }

    /** `Client::get`: sends the request for `endpoint` and returns the body
        of the response. `Exchange` is its specification. */
    method Get(endpoint: string) returns (r: Result<string, Error>)
      modifies this`sent
      ensures sent == old(sent) + [Request(endpoint)]
      ensures r == Exchange(server, Request(endpoint), endpoint)
    {
      var request := Request(endpoint);
      sent := sent + [request];
      var response := server(request);
      if response.None? {
        return Err(TransportError(endpoint));
      }
      var decoded := Decode(response.value);
      if decoded.Err? {
        return Err(decoded.error);
      }
      r := Ok(decoded.value.body);
    }

    /** `Client::get_input`: the cached input if there is one; otherwise the
        input fetched from `/input`, written to the cache before it is
        returned. A write that stops part way leaves a truncated file, which
        the next call returns as a cache hit. */
    method GetInput() returns (r: Result<string, Error>)
      modifies this`sent, input.disk
      // cache hit: the cached text, no request, nothing written
      ensures input.path in old(input.disk.files) ==>
        && r == Ok(old(input.disk.files)[input.path])
        && sent == old(sent)
        && input.disk.files == old(input.disk.files)
      // cache miss: exactly one request, for `/input`
      ensures input.path !in old(input.disk.files) ==>
        sent == old(sent) + [Request("/input")]
      ensures input.path !in old(input.disk.files) ==>
        var fetched := Exchange(server, Request("/input"), "/input");
        if fetched.Err? then
          r == fetched && input.disk.files == old(input.disk.files)
        else if r.Ok? then
          r == fetched && input.disk.files == old(input.disk.files)[input.path := fetched.value]
        else
          && r == Err(CacheWriteFailed)
          && (|| input.disk.files == old(input.disk.files)
              || PartlyWritten(old(input.disk.files), input.disk.files, input.path, fetched.value))
      // a file that cannot be created: the write fails and the cache is as it was
      ensures input.path !in old(input.disk.files) && input.path in input.disk.unwritable ==>
        r.Err? && input.disk.files == old(input.disk.files)
    {
      var cached := input.Read();
      if cached.Some? {
        return Ok(cached.value);
      }
      var contents := Get("/input");
      if contents.Err? {
        return contents;
      }
      var written := input.Write(contents.value);
      if written.Err? {
        return Err(written.error);
      }
      r := Ok(contents.value);
    }

    /** `Client::get_test_input`: the example input extracted from the
        puzzle's page. A failed request is returned as its error rather than
        a panic. Nothing is cached. */
    method GetTestInput() returns (r: Result<string, Error>)
      modifies this`sent
      ensures sent == old(sent) + [Request("")]
      ensures var page := Exchange(server, Request(""), "");
        r == if page.Err? then page else ExtractTestInput(page.value)
    {
      var page := Get("");
      if page.Err? {
        return page;
      }
      r := ExtractTestInput(page.value);
    }
  }

  /** Asking twice for the input: once the first call succeeds, the second
      returns the same text from the cache, so at most one request goes out
      and none when the input was cached already. When the first call fails
      to write the cache, the second may return only a prefix of the input:
      the truncated file is taken for a cached one. */
  method GetInputTwice(client: Client) returns (first: Result<string, Error>, second: Result<string, Error>)
    modifies client, client.input.disk
    ensures first.Ok? ==> second == first
    ensures first.Ok? ==>
      client.input.path in client.input.disk.files && client.input.disk.files[client.input.path] == first.value
    ensures first.Ok? && client.input.path in old(client.input.disk.files) ==> client.sent == old(client.sent)
    ensures first.Ok? && client.input.path !in old(client.input.disk.files) ==>
      client.sent == old(client.sent) + [client.Request("/input")]
    ensures first.Err? && first.error.CacheWriteFailed? && client.input.path !in old(client.input.disk.files) ==>
      var fetched := Exchange(client.server, client.Request("/input"), "/input");
      fetched.Ok? && (second.Ok? ==> second.value <= fetched.value)
  {
    first := client.GetInput();
    second := client.GetInput();
  }
}
