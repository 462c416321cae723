# HTTP/1.1 message handling of a minimal Python server

This project models the two pieces of wire-protocol handling in the
server's `server.py`:

- `create_response(status, content="", content_type="text/plain")`
  serialises a response (RFC 9112 section 2.1, with the Content-Length field
  of RFC 9110 section 8.6). The caller supplies the status line as a literal
  string. When `content` is empty, the output is that status followed by one
  CRLF. Otherwise it is the status, directly followed by `Content-Type: <type>`,
  `Content-Length: <len(content)>`, a blank line and the content.
- `parse_request(request_text)` is the unfinished request-line parser.
  It splits the text on CRLF and takes the first line. It splits that line on
  single spaces and reads token 0 as the method and token 1 as the path.

Both are pure string code, so both are modelled as Dafny functions with lemmas.
Module `PyStr` (`pystr.dfy`) models the two Python built-ins they use:
`str.split(sep)` as `Split`, and `str(n)` as `Decimal`. Module `Server`
(`server.dfy`) models the two functions and their properties.

`FramedBody` is the partner of `CreateResponse`. It is a reader written
independently of the serialiser. It frames the body by its Content-Length,
as described in RFC 9112 section 6. `FramedBodyRoundTrip` proves that the
reader and the serialiser agree in both directions.

The server's documented design and its code differ in three places. In each,
the model follows the code:

- The design has the parser return a record with headers and a body,
  and fail with an error when the request line is malformed. The code only
  computes the method and the path, returns `None`, and a request line
  without a space makes `first_line[1]` raise. The model is therefore a
  partial function whose `requires` is exactly the condition under which the
  index succeeds.
- The design measures Content-Length in bytes. The code uses
  `len(content)` on a string, which counts characters. The model counts
  characters.
- The code adds no separator between the status and `Content-Type:`. Callers
  are expected to end the status with CRLF themselves, and the model copies
  the status unchanged.

## Model

| member | source | states |
|---|---|---|
| `PyStr.Split` | server.py:41-43 | `str.split`: at least one piece; joining the pieces with the separator gives the input back; no piece contains the separator; the first piece is the input up to the first separator, or the whole input |
| `PyStr.SplitHasTwoPieces` | server.py:43-45 | a split has at least two pieces exactly when the separator occurs in the input |
| `PyStr.Decimal` | server.py:31 | `str(n)` for `n >= 0` is a non-empty digit string with no leading zero ("0" only for zero) |
| `PyStr.DecimalRoundTrip` | server.py:31 | reading back the decimal rendering of `n` gives `n` |
| `PyStr.DecimalOfValue` | server.py:31 | every canonical digit string is the rendering of its own value, so the rendering is the only canonical form |
| `Server.CreateResponse` | server.py:8-34 | the response begins with the caller's status and ends with the content |
| `Server.EmptyContentIsBareStatus` | server.py:30-33 | empty content gives exactly `status + "\r\n"` whatever the content type: no Content-Type, no Content-Length, no body |
| `Server.ContentTypeFollowsStatus` | server.py:31 | for non-empty content, `status` is directly followed by `Content-Type: `, the type and CRLF, with no separator in between |
| `Server.DefaultIsTextPlain` | server.py:8-31 | without a content-type argument, non-empty content is labelled `text/plain` |
| `Server.ContentLengthIsLength` | server.py:31 | for non-empty content, the digit run after `Content-Length: ` is the canonical decimal of `len(content)`, reads back as `len(content)`, and is followed by the blank line and then the content |
| `Server.BodyIsContent` | server.py:31 | for non-empty content, the response ends with `"\r\n\r\n" + content` |
| `Server.ReadsBackContent` | server.py:30-33 | a Content-Length-framed reader recovers exactly `content` from the response built from it, empty or not |
| `Server.AcceptedIsBuilt` | server.py:30-33 | every response the framed reader accepts is the response `create_response` builds from the body read |
| `Server.FramedBodyRoundTrip` | server.py:30-33 | the reader yields `content` if and only if the response is the one built from `content` |
| `Server.RequestLineOf` | server.py:41-43 | the request line is a prefix of the text with no CRLF in it, and it is either the whole text or followed by CRLF |
| `Server.RequestLineDetermined` | server.py:41-43 | that characterisation is unique: any CRLF-free prefix that is the whole text or followed by CRLF is the request line |
| `Server.ParseableIff` | server.py:43-45 | `first_line[1]` exists (two or more tokens) exactly when the request line contains a space; otherwise there is one token and the index fails |
| `Server.ParseRequest` | server.py:37-45 | the method contains no space and is followed by a space in the request line; the path is what follows that space, up to the next space or the end of the line |
| `Server.ParseRequestDetermined` | server.py:43-45 | any method and path with that property are exactly the ones `parse_request` extracts |
| `Server.ParseFullRequestLine` | server.py:41-45 | for `<method> <path> <version>` followed by CRLF and anything, the method and path are extracted exactly, case preserved, whatever follows the first CRLF |
| `Server.ParseDoubleSpace` | server.py:43-45 | two spaces after the method give an empty path: empty tokens from consecutive spaces are kept |

## Left out

- The `socket` import, `main()` (whose body is `pass`) and the `__main__` guard (server.py:1, server.py:50-54): networking and process entry, with no behaviour to model.
- The globals `HOST`, `PORT` and `files_directory` (server.py:3-5): configuration that nothing in the file reads.
- `.encode()` at server.py:34: the model returns the response as a character string and does not model UTF-8 encoding. Content-Length therefore counts characters, which equals the byte length only for ASCII content.
- Non-string content: `content` is modelled as a string. Python's `if content:` would also accept other values (bytes, None), but the file never passes them.
- The return value of `parse_request`: the source returns `None`. The model returns the two locals it computes (`mehtod`, misspelt in the source, and `path`) so that properties can be stated about them. The source never uses either.
- Header parsing, body extraction, routing (`/`, `/echo/`, `/user-agent`, `/files/`) and the file store: none of these exist in the code. The handler names in the docstring at server.py:11-18 are not implemented.
- The `IndexError` path: the failure of `first_line[1]` (an `IndexError`) is modelled as the precondition `Parseable`, not as an error value, because the source raises rather than handling the case.
