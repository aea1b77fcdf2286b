/**
 * The errors the message layer reports, with the payload each use site
 * attaches to it.
 */
module Errors {
  import opened Octets

  datatype Error =
    /** The HTTP/1 parser rejected the packet. */
    | InvalidHttp
    /** The HTTP/1 parser needs more input, or the header end is past the packet. */
    | PartialHttp
    /** The message is not HTTP/1.1. */
    | InvalidHttpVersion
    /** A response carries a status other than 200. */
    | ResponseCode(code: u16)
    /** The request method is not an SSDP method, or a wrapper saw the wrong kind. */
    | InvalidMethod(name: Bytes)
    /** The request target is not `*`. */
    | InvalidUri(uri: Bytes)
    /** A required header is absent. */
    | MissingHeader(header: Bytes)
    /** A header name or value is not acceptable, or an MX value is out of range. */
    | InvalidHeader(header: Bytes)
    /** Bytes follow the header block. */
    | InvalidBodyForMethod(name: Bytes)
    /** An I/O operation failed. */
    | Io
}
