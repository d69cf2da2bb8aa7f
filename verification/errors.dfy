/** The ways an operation of the client can fail. The source reports each of
    them as a formatted `String`; the model keeps the kind of failure and the
    part of the message that depends on the call (the endpoint of a failed
    request). */
module Errors {

  datatype Error =
    /** Writing the request to, or reading the response from, the TLS stream
        failed for the given endpoint. */
    | TransportError(endpoint: string)
    /** The response holds no blank line, so it has no body. The source
        panics here ("Response has no body"); the model returns this value. */
    | MalformedResponse
    /** Writing the fetched input to its cache file failed. The message names
        only the operating system's error, not the file. */
    | CacheWriteFailed
    /** The puzzle page holds no `<pre><code>...</code></pre>` block. */
    | TestInputNotFound
}
