/** The parts of the framework the request decoder calls but whose code is not
    part of this model: the header parser, URL decoding, cookie parsing and the
    multipart decoder. Each becomes a value that the caller supplies. Every
    property proved here holds whatever they compute, except where a
    precondition says otherwise: framing needs a header parser whose content
    length is greater than -4 for every input (`Framing.Advances`), the
    pipelining round trip a parser that reads each message's own body
    length, and the `/x?a=1&a=2` examples a URL decoder that leaves `a`, `1`
    and `2` unchanged. */
module Collaborators {
  import opened MultiMap

  /** A parsed request header (`THttpRequestHeader`), seen through the
      accessors the decoder uses. */
  datatype Header = Header(
    methodToken: string,           // method(): the request-line verb as sent
    path: string,                  // path(): the request target, query included
    contentType: string,           // contentType()
    rawHeader: string -> string,   // rawHeader(name): a header field's value
    contentLength: int)            // contentLength()

  /** One cookie (`TCookie`): its name and value. */
  datatype Cookie = Cookie(name: string, value: string)

  /** The functions the decoder delegates to. */
  datatype Codecs = Codecs(
    fromUrlEncoding: string -> string,               // THttpUtility::fromUrlEncoding
    parseCookies: string -> seq<Cookie>,             // TCookie::parseCookies
    multipartFormItems: (string, string) -> seq<Item>, // TMultipartFormData(body, boundary).formItems()
    parseHeader: string -> Header)                   // THttpRequestHeader(bytes)
}
