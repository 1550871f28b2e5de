/** Plain values for what the server reads and writes: optional values,
    the outcome of a file read, and the response a handler produces. */
module Http {

  /** A JavaScript value that is either a string-like payload or `undefined`. */
  datatype Option<+T> = None | Some(value: T)

  /** The callback outcome of `fs.readFile`: the data, or an error. */
  datatype ReadResult<+T> = Read(data: T) | ReadError

  newtype byte = x: int | 0 <= x < 256

  /** A response body: text written with `res.end(string)` or the raw
      buffer of a file. */
  datatype Body = Text(text: string) | Bytes(bytes: seq<byte>)

  /** What `res.writeHead` and `res.end` send, without the constant
      security and CORS headers every response carries. */
  datatype Response = Response(
    status: int,
    contentType: string,
    cacheControl: Option<string>,
    body: Body)

  const TextPlain := "text/plain"
  const NotFoundBody := "404 Not Found"

  /** The 404 answer used both for a missing static file and for a
      missing client script (src/server.js:48-49, 68-69). */
  const NotFound := Response(404, TextPlain, None, Text(NotFoundBody))
}
