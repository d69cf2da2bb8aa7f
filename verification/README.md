# aoc-bud core, modelled in Dafny

aoc-bud is a small Rust client for Advent of Code. For one puzzle, given as
a day and a year, it downloads the puzzle input and the example input from
`adventofcode.com`. It speaks HTTP/1.1 by hand over a TLS stream. It keeps
each downloaded input in `./aoc_inputs/<day>_<year>.input`, so the input is
fetched only once.

This project models the logic of `src/lib.rs`, with the network and the disk
abstracted:

- **Request rendering** (`Http.RenderGet`): the GET request `Client::get` writes.
  The request line comes first. Then come the headers `Host`, `User-Aget` (spelled
  as in the source), `Accept`, `Cookie: session=<token>` and `Connection: close`,
  each ended by CRLF, and then an empty line with no body after it. The request
  target is the base path `/<year>/day/<day>` followed by the endpoint (`/input`,
  or nothing for the puzzle page).
- **Response splitting** (`Http.SplitOnce`, `Http.Decode`, `Http.Exchange`): the
  response is cut at its first blank line (`\r\n\r\n`), as section 2.1 of RFC 9112
  frames an HTTP/1.1 message. The header section is dropped and the rest is the
  body. A response with no blank line makes the source panic
  (`expect("Response has no body")`); the model returns the error value
  `MalformedResponse` there, never a partial body.
- **Cache naming** (`Cache.CachePath`): `./aoc_inputs/<day>_<year>.input`. Two
  different puzzles never share a file.
- **Read-through cache** (`Aoc.Client.GetInput`): if the cache file exists, its text
  is returned and no request is made. Otherwise `/input` is fetched once, the body
  is written to the cache file, and the same text is returned. A failed fetch or a
  failed write is returned as an error, and a failed write returns no content. A
  write can fail after the file was created, leaving a truncated file that the next
  call returns as if it were the cached input.
- **Example extraction** (`Extract.ExtractTestInput`): the group of
  `(?s)<pre><code>(.*)</code></pre>`. The `.*` is greedy and `(?s)` lets it span
  line breaks. The text runs from the first opening tag to the last closing tag
  after it.

The disk is a `Cache.Disk` object: a map from path to text, plus the set of
paths where a file cannot be created. Where the file can be created, how much
of the text reaches the disk before a write stops is left open. The TLS stream
is the `server` function of a `Client`. Given the request text, it returns the
bytes read until the server closes the stream, or nothing when the write or the
read failed. The
session token is a parameter. Every request a `Client` sends is logged in
its `sent` field, so the number of fetches is `|sent|`.

Points of the code's behaviour worth knowing:

- The `.*` of the example pattern is greedy, so on a page with several blocks
  the text runs from the first opening tag to the last closing tag
  (`Extract.ExtractSpansBlocks`).
- Only the puzzle input is cached; the example input is fetched every time.
- A failed cache write is returned as an error (`?` at src/lib.rs:109), even
  though the input was fetched.

## Model

| member | source | states |
|---|---|---|
| `Text.First` | src/lib.rs:98 | The search `split_once` performs: the result is an occurrence of the pattern, none starts before it, and there is none exactly when the pattern does not occur |
| `Text.Last` | src/lib.rs:115-117 | The search the greedy `.*` implies: the result is an occurrence of the closing tag, none starts after it, and there is none exactly when the tag does not occur |
| `Text.Decimal` | src/lib.rs:35 | The `{day}` of the path: non-empty, all digits, no leading zero (`0` is written `0`); `Text.ParseDecimalInvertsDecimal` and `Text.DecimalInjective` state that it names each number uniquely |
| `Text.SignedDecimal` | src/lib.rs:77 | The `{year}` of the path: non-empty, digits after an optional `-` that appears exactly for negative years; `Text.ParseSignedInvertsSignedDecimal` and `Text.SignedDecimalInjective` state that it names each number uniquely |
| `Text.ParseDecimalInvertsDecimal` | src/lib.rs:35 | Reading back the decimal digits `format!` writes for an unsigned day gives the number back |
| `Text.ParseSignedInvertsSignedDecimal` | src/lib.rs:77 | Reading back the rendering of a signed year, minus sign included, gives the number back |
| `Text.DecimalInjective` | src/lib.rs:35 | Two days render to the same digits if and only if they are equal |
| `Text.SignedDecimalInjective` | src/lib.rs:77 | Two years render to the same text if and only if they are equal |
| `Http.RenderGet` | src/lib.rs:83-87 | The request text; its contract is carried by `Http.RenderGetIsHeaderLines` (line by line) and `Http.RequestHasNoBody` (framing) |
| `Http.RenderGetIsHeaderLines` | src/lib.rs:83-87 | The request is exactly the request line `GET <target> HTTP/1.1`, then Host, User-Aget, Accept, Cookie and Connection in that order, each ended by CRLF, then one empty line |
| `Http.NoBlankLineAmongLines` | src/lib.rs:84 | In CRLF-ended lines that are non-empty and hold no CR, no blank line starts before the last line's terminator, whatever follows |
| `Http.RequestHasNoBody` | src/lib.rs:83-87 | When the target and the cookie hold no CR, the first blank line of the request is its last four characters, so the request frames as a header section with an empty body |
| `Http.SplitOnce` | src/lib.rs:98 | The input is the prefix, the separator and the suffix, in that order. The separator starts nowhere inside the prefix, and the prefix does not contain it. The result is absent exactly when the separator does not occur |
| `Http.SplitOnceJoin` | src/lib.rs:98 | Joining a prefix and a suffix with the separator and splitting again gives them back if and only if the separator starts nowhere inside the prefix |
| `Http.Decode` | src/lib.rs:97-101 | Head, blank line and body put back together give the raw response. The head holds no blank line, and no blank line starts inside it. A response without a blank line is the error `MalformedResponse`, never a partial body |
| `Http.DecodeRoundTrip` | src/lib.rs:97-101 | A head inside which no blank line starts, followed by the blank line and any body, decodes to exactly that head and body |
| `Http.Exchange` | src/lib.rs:89-101 | A failed write or read of the stream is `TransportError` for the endpoint. A response without a blank line is `MalformedResponse`, and success happens exactly when there is one. On success the result is the text after the first blank line of the response (`Http.IsBodyOf`) |
| `Http.BodyIsUnique` | src/lib.rs:98-100 | A response has at most one body in the sense of `Http.IsBodyOf`, so the contract of `Http.Exchange` determines its result |
| `Extract.ExtractTestInput` | src/lib.rs:115-123 | Succeeds if and only if some opening tag is followed, at or after its end, by a closing tag. On success the result is the text between the leftmost opening tag and the last closing tag, which no other match beats. Otherwise the error is `TestInputNotFound` |
| `Extract.ExtractFindsLeftmostLongest` | src/lib.rs:115-119 | For any match that starts leftmost and ends last, the result is that match's group |
| `Extract.ExtractSingleBlock` | src/lib.rs:115-120 | When no opening tag comes before the block and no closing tag comes after it, the result is exactly the block's contents |
| `Extract.ExtractSpansBlocks` | src/lib.rs:115-120 | On a page with two blocks, the greedy result is the first block's contents through the second block's contents, with the tags and markup between them |
| `Extract.ExtractExampleFragment` | src/lib.rs:115-120 | `<pre><code>1,2,3\n4,5,6</code></pre>` yields `1,2,3\n4,5,6`, line break included |
| `Cache.CachePath` | src/lib.rs:35 | The cache file name; `Cache.CachePathInjective` states that no two puzzles share it and `Cache.CachePathExample` gives one instance |
| `Cache.CachePathInjective` | src/lib.rs:35 | Two (day, year) pairs name the same cache file if and only if they are equal |
| `Cache.CachePathExample` | src/lib.rs:35 | The cache file of day 1 of 2023 is `./aoc_inputs/1_2023.input` |
| `Cache.InputFile.constructor` | src/lib.rs:27-37 | The cache file of a puzzle is named by `CachePath` |
| `Cache.InputFile.Read` | src/lib.rs:39-46 | Returns the file's text exactly when the file exists |
| `Cache.InputFile.Write` | src/lib.rs:48-51 | Either succeeds with the file holding the given text and nothing else on the disk changed, or fails with `CacheWriteFailed`, leaving the disk unchanged (the file could not be created, always the case for an unwritable path) or leaving the file holding a proper prefix of the text (`fs::write` emptied it and stopped part way) |
| `Aoc.SessionCookie` | src/lib.rs:75 | The cookie value `session=<token>`, whose place in the request `Aoc.InputRequestExample` shows |
| `Aoc.BasePath` | src/lib.rs:77 | The puzzle's base path; `Aoc.BasePathInjective` states that no two puzzles share it and `Aoc.BasePathExample` gives one instance |
| `Aoc.BasePathInjective` | src/lib.rs:77 | Two (day, year) pairs have the same base path if and only if they are equal |
| `Aoc.BasePathExample` | src/lib.rs:77 | The base path of day 1 of 2023 is `/2023/day/1` |
| `Aoc.InputRequestExample` | src/lib.rs:75-87 | The input request for day 1 of 2023 with token `abc123` has the request line `GET /2023/day/1/input HTTP/1.1` and the header `Cookie: session=abc123` |
| `Aoc.ClientRequestHasNoBody` | src/lib.rs:75-87 | Every request a client renders for a puzzle frames as a header section with an empty body, unless the session token or the endpoint holds a CR: the base path cannot break the framing, and the token is sent unchecked |
| `Aoc.Client.constructor` | src/lib.rs:62-80 | A new client holds `session=<token>`, the base path `/<year>/day/<day>` and the puzzle's cache file, and has sent nothing yet |
| `Aoc.Client.Request` | src/lib.rs:83-87 | The request for an endpoint below the base path; its contract is that of `Http.RenderGet` on the target `path + endpoint` |
| `Aoc.Client.Get` | src/lib.rs:82-102 | Sends exactly one request, the one rendered for the endpoint, and returns what `Http.Exchange` specifies: the body of the response, the endpoint's transport error, or `MalformedResponse` |
| `Aoc.Client.GetInput` | src/lib.rs:104-111 | On a hit: the cached text, verbatim, with no request and no write. On a miss: exactly one request, for `/input`. A failed fetch returns its error and leaves the cache as it was. Success returns the fetched body, which is now stored under the cache path, and nothing else changed. A failed write returns `CacheWriteFailed` and no content, leaving the cache as it was or a truncated file at the cache path; an unwritable path always leaves it as it was |
| `Aoc.Client.GetTestInput` | src/lib.rs:114-124 | Sends one request for the puzzle page. Returns the page's error, or the extraction from the page. Leaves the disk alone |
| `Aoc.GetInputTwice` | src/lib.rs:104-111 | Once a first call succeeds, the text is in the cache and a second call returns the same text with no request; across both calls at most one request goes out. After a failed cache write on a miss, a successful second call may return only a prefix of the fetched input |

## Left out

- Opening the connection (src/lib.rs:66-72): the TCP connect, the TLS handshake and their errors in `Client::new`. The constructor starts from an open stream.
- Writing to and reading from the stream (src/lib.rs:89-95): these are the `server` function. Its `None` stands for either I/O error, and the text of the underlying error is dropped.
- `Aoc.Client.Get` treats the stream as a function of the request alone. In the source a `Client` owns one stream, and the server closes it after the first response (`Connection: close`). A second request on the same `Client` is not modelled as failing.
- `Http.Decode` and `Http.Exchange`: the `expect("Response has no body")` at src/lib.rs:99 panics on a response without a blank line. The model returns the error value `MalformedResponse` instead, so a caller sees an error where the program would abort.
- `Cache.InputFile.Write`: where the file can be created, the model does not say which outcome occurs (full text, or a prefix of it and an error). The device's free space is not modelled, so a write that the source would complete may still be taken to stop part way.
- Lossy UTF-8 decoding (src/lib.rs:97): the response is already text (`seq<char>`).
- Reading `AOC_SESSION` through `dotenv` (src/lib.rs:63-64): the token is a parameter.
- Creating the `aoc_inputs` folder, and its error (src/lib.rs:28-31): the disk map has no folders.
- The panic on a cache file that exists but cannot be read (src/lib.rs:42): a file in the map can always be read.
- The regex engine (src/lib.rs:115): its one pattern is computed by two substring searches.
- The public `AoC` wrappers (src/lib.rs:132-152), which turn every error into a panic, and the `unwrap` at src/lib.rs:116. The model returns the errors as `Result` values.
- `AoC::today` (src/lib.rs:155-161): it reads the clock in UTC-5, an external time source.
- `AoC::solve` (src/lib.rs:164-166): an empty stub.
- Error messages: the source formats each error as a `String`. The model keeps the kind of error in `Errors.Error`, with the endpoint that `TransportError` names; the operating system's error text is dropped.
- Integer widths: `day` is a `u8` and `year` an `i32` (the `Byte` and `Int32` subset types). Nothing in the core does arithmetic on them, so no wrap-around arises.
