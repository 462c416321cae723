/**
  The HTTP/1.1 message handling of the server: the response serialiser
  `create_response` (response framing of RFC 9112 section 2.1, with the
  Content-Length field of RFC 9110 section 8.6) and the unfinished
  request-line parser `parse_request` (RFC 9112 section 3).
  Messages are character strings; the final UTF-8 `.encode()` is not modelled.
 */
module Server {
  import opened PyStr

  const CRLF: string := "\r\n"
  const DefaultContentType: string := "text/plain"

  // Response serialiser

  /**
    `create_response(status, content, content_type)`. The status argument is
    the caller's literal status line and is copied unchanged. Empty content
    gives the status followed by one CRLF and nothing else; non-empty content
    gives the status immediately followed by a Content-Type and a
    Content-Length header, a blank line and the content.
   */
  function CreateResponse(status: string, content: string := "", contentType: string := DefaultContentType): (r: string)
    ensures status <= r
    ensures |content| <= |r| && r[|r| - |content|..] == content
  {
    if content != [] then
      status + "Content-Type: " + contentType + "\r\nContent-Length: " + Decimal(|content|) + "\r\n\r\n" + content
    else
      status + CRLF
  }

  /** The headers that precede the Content-Length digits in a non-empty response. */
  function HeadBeforeLength(status: string, contentType: string): string {
    status + "Content-Type: " + contentType + "\r\nContent-Length: "
  }

  /** Empty content: exactly the status and one CRLF, whatever the content type. */
  lemma EmptyContentIsBareStatus(status: string, contentType: string)
    ensures CreateResponse(status, "", contentType) == status + CRLF
    ensures CreateResponse(status) == status + CRLF
  {
  }

  /** Non-empty content: the status is followed directly by "Content-Type: " and the type. */
  lemma ContentTypeFollowsStatus(status: string, content: string, contentType: string)
    requires content != []
    ensures status + "Content-Type: " + contentType + CRLF <= CreateResponse(status, content, contentType)
  {
  }

  /** Without an explicit content type, non-empty content is labelled text/plain. */
  lemma DefaultIsTextPlain(status: string, content: string)
    requires content != []
    ensures status + "Content-Type: text/plain\r\n" <= CreateResponse(status, content)
  {
  }

  lemma RegroupRight(a: string, b: string, c: string, d: string)
    ensures a + b + c + d == a + (b + (c + d))
  {
  }

  /** Where a digit run ends and a non-digit tail starts, after a known head. */
  lemma DigitsThenTail(head: string, d: string, tail: string)
    requires AllDigits(d) && |tail| > 0 && !IsDigit(tail[0])
    ensures var r := head + (d + tail);
      && head <= r
      && LeadingDigits(r[|head|..]) == d
      && r[|head| + |d|..] == tail
  {
    var r := head + (d + tail);
    assert r[|head|..] == d + tail;
    LeadingDigitsOfRun(d, tail);
    assert r[|head| + |d|..] == tail;
  }

  /** A non-empty response is the head, the length digits, the blank line and the content. */
  lemma NonEmptyLayout(status: string, content: string, contentType: string)
    requires content != []
    ensures CreateResponse(status, content, contentType)
        == HeadBeforeLength(status, contentType) + (Decimal(|content|) + ("\r\n\r\n" + content))
  {
    RegroupRight(HeadBeforeLength(status, contentType), Decimal(|content|), "\r\n\r\n", content);
  }

  /**
    Non-empty content: the digits after "Content-Length: " are the canonical
    decimal rendering of the number of characters of the content, and they
    are followed by the blank line.
   */
  lemma ContentLengthIsLength(status: string, content: string, contentType: string)
    requires content != []
    ensures var r, head := CreateResponse(status, content, contentType), HeadBeforeLength(status, contentType);
      && head <= r
      && var digits := LeadingDigits(r[|head|..]);
      && digits == Decimal(|content|)
      && DecimalValue(digits) == |content|
      && r[|head| + |digits|..] == "\r\n\r\n" + content
  {
    NonEmptyLayout(status, content, contentType);
    DigitsThenTail(HeadBeforeLength(status, contentType), Decimal(|content|), "\r\n\r\n" + content);
    DecimalRoundTrip(|content|);
  }

  /** Non-empty content: the response ends with the blank line and then exactly the content. */
  lemma BodyIsContent(status: string, content: string, contentType: string)
    requires content != []
    ensures var r := CreateResponse(status, content, contentType);
      |r| >= |content| + 4 && r[|r| - |content| - 4..] == "\r\n\r\n" + content
  {
  }

  /**
    A reader for responses of this shape, as a client that knows the status
    line and the content type would frame them by Content-Length (RFC 9112
    section 6.2): the bare status line is an empty body; otherwise the
    headers must be present, the length must be a canonical decimal number
    followed by the blank line, and exactly that many characters must follow.
   */
  function FramedBody(response: string, status: string, contentType: string): (body: Option<string>)
  {
    if response == status + CRLF then Some([])
    else
      var head := HeadBeforeLength(status, contentType);
      if !(head <= response) then None
      else
        var rest := response[|head|..];
        var digits := LeadingDigits(rest);
        var after := rest[|digits|..];
        if |digits| == 0 || digits[0] == '0' || !("\r\n\r\n" <= after) then None
        else if |after| - 4 != DecimalValue(digits) then None
        else Some(after[4..])
  }

  /** Reading a response built from `content` gives back `content`. */
  lemma ReadsBackContent(status: string, content: string, contentType: string)
    ensures FramedBody(CreateResponse(status, content, contentType), status, contentType) == Some(content)
  {
    if content != [] {
      var r, head := CreateResponse(status, content, contentType), HeadBeforeLength(status, contentType);
      ContentLengthIsLength(status, content, contentType);
      assert |r| > |status + CRLF|;
      var digits := LeadingDigits(r[|head|..]);
      assert r[|head|..][|digits|..] == r[|head| + |digits|..];
    }
  }

  /** Every response the reader accepts is the one built from the body it reads. */
  lemma AcceptedIsBuilt(response: string, status: string, contentType: string)
    requires FramedBody(response, status, contentType).Some?
    ensures CreateResponse(status, FramedBody(response, status, contentType).value, contentType) == response
  {
    if response != status + CRLF {
      var head := HeadBeforeLength(status, contentType);
      var rest := response[|head|..];
      var digits := LeadingDigits(rest);
      var after := rest[|digits|..];
      var content := after[4..];
      DecimalValuePositive(digits);
      DecimalOfValue(digits);
      assert after == "\r\n\r\n" + content;
      assert rest == digits + after;
      assert response == head + rest;
      NonEmptyLayout(status, content, contentType);
    }
  }

  /**
    The serialiser and the reader agree in both directions: reading a
    response built from `content` gives back `content`, and every response
    the reader accepts is the one built from the body it reads.
   */
  lemma FramedBodyRoundTrip(status: string, content: string, contentType: string, response: string)
    ensures FramedBody(response, status, contentType) == Some(content)
        <==> CreateResponse(status, content, contentType) == response
  {
    ReadsBackContent(status, content, contentType);
    if FramedBody(response, status, contentType) == Some(content) {
      AcceptedIsBuilt(response, status, contentType);
    }
  }

  // Request-line parser

  /** The two values `parse_request` extracts: the method and the path. */
  datatype RequestLine = RequestLine(httpMethod: string, path: string)

  /**
    `request_text.split('\r\n')[0]`: the text before the first CRLF, or the
    whole text when there is none.
   */
  function RequestLineOf(text: string): (line: string)
    ensures line <= text && !Contains(line, CRLF)
    ensures line == text || OccursAt(text, CRLF, |line|)
  {
    Split(text, CRLF)[0]
  }

  /** `t` is the text of `s` up to its first space, or all of `s` when it has none. */
  predicate FirstToken(s: string, t: string) {
    ' ' !in t && (s == t || t + " " <= s)
  }

  /**
    `first_line[1]` exists exactly when the request line holds a space; in
    every other case the split has one piece and the source's index fails.
   */
  predicate Parseable(text: string) {
    ' ' in RequestLineOf(text)
  }

  lemma ParseableIff(text: string)
    ensures |Split(RequestLineOf(text), " ")| >= 2 <==> Parseable(text)
    ensures !Parseable(text) ==> |Split(RequestLineOf(text), " ")| == 1
  {
    SplitHasTwoPieces(RequestLineOf(text), " ");
    ContainsChar(RequestLineOf(text), ' ');
  }

  /** Split pieces on a single character never contain that character. */
  lemma PieceHasNoChar(pieces: seq<string>, c: char, j: nat)
    requires j < |pieces| && forall i :: 0 <= i < |pieces| ==> !Contains(pieces[i], [c])
    ensures c !in pieces[j]
  {
    ContainsChar(pieces[j], c);
  }

  /**
    `parse_request(request_text)`: token 0 and token 1 of the request line
    split on single spaces. The method is the request line before its first
    space; the path is what follows that space up to the next space or the
    end of the line. Empty tokens (two spaces in a row) are kept.
   */
  function ParseRequest(text: string): (r: RequestLine)
    requires Parseable(text)
    ensures var line := RequestLineOf(text);
      && ' ' !in r.httpMethod
      && r.httpMethod + " " <= line
      && FirstToken(line[|r.httpMethod| + 1..], r.path)
  {
    var line := RequestLineOf(text);
    var tokens := Split(line, " ");
    ParseableIff(text);
    PieceHasNoChar(tokens, ' ', 0);
    PieceHasNoChar(tokens, ' ', 1);
    assert line == tokens[0] + " " + Join(tokens[1..], " ");
    assert line[|tokens[0]| + 1..] == Join(tokens[1..], " ");
    RequestLine(tokens[0], tokens[1])
  }

  /** Every character of a token before its end differs from a space. */
  lemma TokenHasNoSpaceBefore(s: string, t: string)
    requires FirstToken(s, t)
    ensures |t| <= |s| && (|t| < |s| ==> s[|t|] == ' ')
    ensures forall i :: 0 <= i < |t| ==> s[i] != ' '
  {
    assert forall i :: 0 <= i < |t| ==> s[i] == t[i];
  }

  /** The first token of a string is unique. */
  lemma FirstTokenUnique(s: string, t1: string, t2: string)
    requires FirstToken(s, t1) && FirstToken(s, t2)
    ensures t1 == t2
  {
    TokenHasNoSpaceBefore(s, t1);
    TokenHasNoSpaceBefore(s, t2);
    assert |t1| == |t2|;
    assert t1 == s[..|t1|] == t2;
  }

  /**
    The method and path are determined by the request line: any method and
    path with the property `ParseRequest` promises are the ones it returns.
   */
  lemma ParseRequestDetermined(text: string, httpMethod: string, path: string)
    requires Parseable(text)
    requires ' ' !in httpMethod && httpMethod + " " <= RequestLineOf(text)
    requires FirstToken(RequestLineOf(text)[|httpMethod| + 1..], path)
    ensures ParseRequest(text) == RequestLine(httpMethod, path)
  {
    var line, r := RequestLineOf(text), ParseRequest(text);
    FirstTokenUnique(line, httpMethod, r.httpMethod);
    FirstTokenUnique(line[|httpMethod| + 1..], path, r.path);
  }

  /** No CRLF starts inside a CRLF-free prefix of the text. */
  lemma NoCrlfInsidePrefix(text: string, p: string)
    requires p <= text && !Contains(p, CRLF)
    ensures forall k :: 0 <= k && k + 2 <= |p| ==> !OccursAt(text, CRLF, k)
  {
    forall k | 0 <= k && k + 2 <= |p|
      ensures !OccursAt(text, CRLF, k)
    {
      assert text[k..k + 2] == p[k..k + 2];
      assert !OccursAt(p, CRLF, k);
    }
  }

  lemma CrlfAt(text: string, k: nat)
    requires OccursAt(text, CRLF, k)
    ensures k + 1 < |text| && text[k] == '\r' && text[k + 1] == '\n'
  {
    assert text[k..k + 2][0] == text[k] && text[k..k + 2][1] == text[k + 1];
  }

  /**
    The request line is determined by the text: it is the one CRLF-free
    prefix that is either the whole text or followed by CRLF.
   */
  lemma RequestLineDetermined(text: string, line: string)
    requires line <= text && !Contains(line, CRLF)
    requires line == text || OccursAt(text, CRLF, |line|)
    ensures RequestLineOf(text) == line
  {
    var l := RequestLineOf(text);
    NoCrlfInsidePrefix(text, l);
    NoCrlfInsidePrefix(text, line);
    if l != text {
      CrlfAt(text, |l|);
    }
    if line != text {
      CrlfAt(text, |line|);
    }
    assert |l| == |line|;
    assert l == text[..|l|] == line;
  }

  /** A request line without carriage returns contains no CRLF. */
  lemma NoCarriageReturn(line: string)
    requires '\r' !in line
    ensures !Contains(line, CRLF)
  {
    forall k | 0 <= k <= |line|
      ensures !OccursAt(line, CRLF, k)
    {
      if k + 2 <= |line| {
        assert line[k..k + 2][0] == line[k];
      }
    }
  }

  /**
    For a request `<method> <path> <version>` CRLF followed by anything (the
    headers and body are never looked at), the parser extracts exactly the
    method and the path, case preserved.
   */
  lemma ParseFullRequestLine(m: string, p: string, v: string, rest: string)
    requires ' ' !in m && ' ' !in p
    requires '\r' !in m && '\r' !in p && '\r' !in v
    ensures var text := m + " " + p + " " + v + CRLF + rest;
      Parseable(text) && ParseRequest(text) == RequestLine(m, p)
  {
    var line := m + " " + p + " " + v;
    var text := line + CRLF + rest;
    assert '\r' !in line by {
      assert forall i :: 0 <= i < |line| ==> line[i] in m || line[i] == ' ' || line[i] in p || line[i] in v;
    }
    NoCarriageReturn(line);
    assert OccursAt(text, CRLF, |line|) by {
      assert text[|line|..|line| + 2] == CRLF;
    }
    RequestLineDetermined(text, line);
    assert line[|m| + 1..] == p + " " + v;
    ParseRequestDetermined(text, m, p);
    assert m + " " + p + " " + v + CRLF + rest == text;
  }

  /** Two spaces after the method give an empty path: empty tokens are kept. */
  lemma ParseDoubleSpace(m: string, tail: string)
    requires ' ' !in m && '\r' !in m && '\r' !in tail
    ensures var text := m + "  " + tail;
      Parseable(text) && ParseRequest(text) == RequestLine(m, "")
  {
    var text := m + "  " + tail;
    assert '\r' !in text by {
      assert forall i :: 0 <= i < |text| ==> text[i] in m || text[i] == ' ' || text[i] in tail;
    }
    NoCarriageReturn(text);
    RequestLineDetermined(text, text);
    assert text[|m| + 1..] == "" + " " + tail;
    ParseRequestDetermined(text, m, "");
  }
}
