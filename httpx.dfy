/** The incremental HTTP header parser `HTTPX` of modules/httpx.py.

    Text arrives in chunks. An unfinished line is kept in `_pending_data` and put in front of
    the next chunk. The parser captures the start line, then the header lines up to the
    empty line that ends the header block (the message layout of section 2.1 of RFC 9112),
    and then only buffers what follows. `get_data` / `get_response` rebuild the message,
    and `get_host_address_and_port` reads the destination from the `Host` field
    (section 7.2 of RFC 9110, port 80 by default).

    The class HTTPX keeps the source's fields and methods. Each method is specified by a
    pure function on `Parser`, the value of those fields, and the lemmas are about the
    pure functions. */
module HttpX {
  import opened Builtins

  const HTTP_INIT := 0
  const HTTP_REQUEST_LINE := 1
  const HTTP_REQUEST_HEADER := 2
  const HTTP_REQUEST_BODY := 3
  const HTTP_RESPONSE_STATUS_LINE := 4
  const HTTP_RESPONSE_HEADER := 5
  const HTTP_RESPONSE_BODY := 6

  const CRLF := "\r\n"
  /** An empty line right after a line terminator: the end of a header block. */
  const BLANK_LINE := "\r\n\r\n"

  /** The fields of an HTTPX object as one value. `_request_line` and
      `_response_status_line` are not assigned by the constructor, so they are None until
      the first start line has been seen, and reading them before that is an AttributeError. */
  datatype Parser = Parser(
    state: int,
    headers: seq<string>,
    host: string,
    pending: string,
    requestLine: Option<string>,
    statusLine: Option<string>)

  const Initial := Parser(HTTP_INIT, [], "", "", None, None)

  /** The fields after a method call, and what the call returned or raised. */
  datatype Step<T> = Step(after: Parser, value: T)

  // ---------------------------------------------------------------------------
  // Lines

  /** Each line followed by CRLF, in order. */
  function Terminated(lines: seq<string>): string
  {
    if lines == [] then "" else Terminated(lines[..|lines| - 1]) + lines[|lines| - 1] + CRLF
  }

  lemma {:induction false} TerminatedAppend(a: seq<string>, b: seq<string>)
    ensures Terminated(a + b) == Terminated(a) + Terminated(b)
    decreases |b|
  {
    if b != [] {
      var b' := b[..|b| - 1];
      assert (a + b)[..|a + b| - 1] == a + b';
      TerminatedAppend(a, b');
    } else {
      assert a + b == a;
    }
  }

  /** What the header loop makes of a text: the complete non-empty lines before the first
      empty line, in order, whether that empty line was seen, and the unconsumed rest, which
      becomes `_pending_data`. */
  datatype HeaderScan = HeaderScan(lines: seq<string>, blank: bool, rest: string)

  function ScanHeaders(s: string): HeaderScan
    decreases |s|
  {
    var i := Find(s, CRLF, 0);
    if i == -1 then HeaderScan([], false, s)
    else if i == 0 then HeaderScan([], true, s[2..])
    else
      var r := ScanHeaders(s[i + 2..]);
      HeaderScan([s[..i]] + r.lines, r.blank, r.rest)
  }

  /** The text before the first occurrence of `sub` does not contain `sub`. */
  lemma PrefixBeforeFirst(s: string, sub: string, i: nat)
    requires i <= |s| && |sub| > 0
    requires Find(s, sub, 0) == -1 || i <= Find(s, sub, 0)
    ensures !Contains(s[..i], sub)
  {
    var t := s[..i];
    forall j | 0 <= j
      ensures !OccursAt(t, sub, j)
    {
      assert OccursAt(t, sub, j) ==> t[j..j + |sub|] == s[j..j + |sub|];
      assert OccursAt(t, sub, j) ==> OccursAt(s, sub, j);
    }
  }

  /** Where the first CRLF is, the text is a line, CRLF, and the rest. */
  lemma ScanStep(s: string)
    ensures var i := Find(s, CRLF, 0);
      i != -1 ==> s == s[..i] + CRLF + s[i + 2..] && !Contains(s[..i], CRLF)
  {
    var i := Find(s, CRLF, 0);
    if i != -1 {
      PrefixBeforeFirst(s, CRLF, i);
      assert s[i..i + 2] == CRLF;
      assert s == s[..i] + s[i..i + 2] + s[i + 2..];
    }
  }

  /** A line without CRLF followed by CRLF: the first CRLF is the one after the line. A line
      ending in '\r' does not change this, since "\r\r" is not a CRLF. */
  lemma FindAfterLine(x: string, t: string)
    requires !Contains(x, CRLF)
    ensures Find(x + CRLF + t, CRLF, 0) == |x|
  {
    var s := x + CRLF + t;
    assert s[|x|..|x| + 2] == CRLF;
    assert OccursAt(s, CRLF, |x|);
    forall j | 0 <= j < |x|
      ensures !OccursAt(s, CRLF, j)
    {
      if j + 2 <= |x| {
        assert s[j..j + 2] == x[j..j + 2];
        assert !OccursAt(x, CRLF, j);
      } else {
        assert s[j..j + 2][1] == s[j + 1] == '\r';
      }
    }
  }

  /** An occurrence of the empty-line marker starts with a CRLF. */
  lemma BlankStartsWithCrlf(s: string, j: int)
    ensures OccursAt(s, BLANK_LINE, j) <==> OccursAt(s, CRLF, j) && OccursAt(s, CRLF, j + 2)
  {
    assert BLANK_LINE == CRLF + CRLF;
    assert BLANK_LINE[..2] == CRLF && BLANK_LINE[2..] == CRLF;
    if 0 <= j && j + 4 <= |s| {
      var w := s[j..j + 4];
      assert w == s[j..j + 2] + s[j + 2..j + 4];
      assert w[..2] == s[j..j + 2] && w[2..] == s[j + 2..j + 4];
    }
  }

  /** The empty-line marker occurs in "line CRLF rest" exactly when the rest starts with
      CRLF or holds the marker itself. */
  lemma BlankAfterLine(x: string, t: string)
    requires !Contains(x, CRLF)
    ensures (exists j :: OccursAt(x + CRLF + t, BLANK_LINE, j)) <==> OccursAt(t, CRLF, 0) || exists j :: OccursAt(t, BLANK_LINE, j)
  {
    var s := x + CRLF + t;
    var n := |x|;
    if OccursAt(t, CRLF, 0) {
      BlankAtJoin(x, t);
    }
    forall j | OccursAt(t, BLANK_LINE, j)
      ensures OccursAt(s, BLANK_LINE, j + n + 2)
    {
      BlankShift(x, t, j);
    }
    forall j | OccursAt(s, BLANK_LINE, j)
      ensures OccursAt(t, CRLF, 0) || OccursAt(t, BLANK_LINE, j - n - 2)
    {
      BlankInJoin(x, t, j);
    }
  }

  lemma BlankShift(x: string, t: string, j: int)
    requires 0 <= j
    ensures OccursAt(t, BLANK_LINE, j) <==> OccursAt(x + CRLF + t, BLANK_LINE, j + |x| + 2)
  {
    if j + 4 <= |t| {
      SliceAfterLine(x, t, j, 4);
    }
  }

  /** The text after "x CRLF" is `t`, at an offset of |x| + 2. */
  lemma SliceAfterLine(x: string, t: string, i: int, k: int)
    requires 0 <= i && 0 <= k && i + k <= |t|
    ensures (x + CRLF + t)[|x| + 2 + i..|x| + 2 + i + k] == t[i..i + k]
  {
    var s := x + CRLF + t;
    assert s[|x| + 2..] == t;
    assert s[|x| + 2 + i..|x| + 2 + i + k] == s[|x| + 2..][i..i + k];
  }

  lemma BlankAtJoin(x: string, t: string)
    requires OccursAt(t, CRLF, 0)
    ensures OccursAt(x + CRLF + t, BLANK_LINE, |x|)
  {
    var s := x + CRLF + t;
    var n := |x|;
    assert s[n..n + 2] == CRLF;
    SliceAfterLine(x, t, 0, 2);
    BlankStartsWithCrlf(s, n);
  }

  lemma BlankInJoin(x: string, t: string, j: int)
    requires !Contains(x, CRLF) && OccursAt(x + CRLF + t, BLANK_LINE, j)
    ensures OccursAt(t, CRLF, 0) || OccursAt(t, BLANK_LINE, j - |x| - 2)
  {
    var s := x + CRLF + t;
    BlankStartsWithCrlf(s, j);
    CrlfAfterLine(x, t, j);
    if j == |x| {
      SliceAfterLine(x, t, 0, 2);
    } else {
      BlankShift(x, t, j - |x| - 2);
    }
  }

  /** In "x CRLF t" with no CRLF in `x`, a CRLF starts at |x| or inside `t`. */
  lemma CrlfAfterLine(x: string, t: string, j: int)
    requires !Contains(x, CRLF) && OccursAt(x + CRLF + t, CRLF, j)
    ensures j == |x| || j >= |x| + 2
  {
    var s := x + CRLF + t;
    var n := |x|;
    FindAfterLine(x, t);
    assert s[n + 1] == '\n';
    assert s[j..j + 2][0] == s[j] == '\r';
  }

  /** `r` with `lines` in front of its lines. */
  function Prepend(lines: seq<string>, r: HeaderScan): HeaderScan
  {
    r.(lines := lines + r.lines)
  }

  lemma PrependTwice(a: seq<string>, b: seq<string>, r: HeaderScan)
    ensures Prepend(a, Prepend(b, r)) == Prepend(a + b, r)
  {
    assert a + (b + r.lines) == (a + b) + r.lines;
  }

  /** Moving one scanned line into the headers already collected. */
  lemma PrependStep(h: seq<string>, line: string, r: HeaderScan, rest: HeaderScan, w: HeaderScan)
    requires r == Prepend([line], rest) && Prepend(h, r) == w
    ensures Prepend(h + [line], rest) == w
  {
    PrependTwice(h, [line], rest);
  }

  /** The three shapes a scan can take. */
  lemma ScanNone(s: string)
    requires !Contains(s, CRLF)
    ensures ScanHeaders(s) == HeaderScan([], false, s)
  {
  }

  lemma ScanBlank(t: string)
    ensures ScanHeaders(CRLF + t) == HeaderScan([], true, t)
  {
    assert OccursAt(CRLF + t, CRLF, 0);
    assert (CRLF + t)[2..] == t;
  }

  lemma ScanCons(x: string, t: string)
    requires x != "" && !Contains(x, CRLF)
    ensures ScanHeaders(x + CRLF + t) == Prepend([x], ScanHeaders(t))
  {
    FindAfterLine(x, t);
    var s := x + CRLF + t;
    assert s[..|x|] == x;
    assert s[|x| + 2..] == t;
  }

  /** What a scan stands for: its lines, each with its CRLF, the empty line if it was seen,
      then the rest. */
  function Unscan(r: HeaderScan): string
  {
    Terminated(r.lines) + (if r.blank then CRLF else "") + r.rest
  }

  lemma UnscanPrepend(line: string, r: HeaderScan)
    ensures Unscan(Prepend([line], r)) == line + CRLF + Unscan(r)
  {
    TerminatedAppend([line], r.lines);
    assert [line][..0] == [];
  }

  /** `_parse_headers` loses nothing and invents nothing: the lines it appends, each with
      its CRLF, then the empty line if it was seen, then what it keeps pending, are exactly
      the text it was given. */
  lemma {:induction false} ScanHeadersSplits(s: string)
    ensures Unscan(ScanHeaders(s)) == s
    decreases |s|
  {
    var i := Find(s, CRLF, 0);
    ScanStep(s);
    if i == 0 {
      assert s == CRLF + s[2..];
    } else if i > 0 {
      var t := s[i + 2..];
      ScanHeadersSplits(t);
      UnscanPrepend(s[..i], ScanHeaders(t));
    }
  }

  /** The lines `_parse_headers` appends are non-empty and hold no CRLF, and when no empty
      line was seen the pending rest holds no CRLF either. */
  lemma {:induction false} ScanHeadersLines(s: string)
    ensures var r := ScanHeaders(s);
      && (forall k :: 0 <= k < |r.lines| ==> r.lines[k] != "" && !Contains(r.lines[k], CRLF))
      && (!r.blank ==> !Contains(r.rest, CRLF))
    decreases |s|
  {
    var i := Find(s, CRLF, 0);
    ScanStep(s);
    if i > 0 {
      ScanHeadersLines(s[i + 2..]);
    }
  }

  /** How scanning `d` continues once `b` is appended to it. */
  predicate ScanExtends(d: string, b: string)
  {
    var r := ScanHeaders(d);
    ScanHeaders(d + b) == if r.blank then r.(rest := r.rest + b) else Prepend(r.lines, ScanHeaders(r.rest + b))
  }

  /** Scanning a text that was cut in two: the scan of the whole is the scan of the first
      part, continued, unless it already saw the empty line, on its unconsumed rest
      followed by the second part. */
  lemma {:induction false} ScanHeadersExtend(d: string, b: string)
    ensures ScanExtends(d, b)
    decreases |d|
  {
    var i := Find(d, CRLF, 0);
    ScanStep(d);
    if i == -1 {
      ScanNone(d);
      assert Prepend([], ScanHeaders(d + b)) == ScanHeaders(d + b);
    } else if i == 0 {
      var t := d[2..];
      assert d == CRLF + t;
      assert d + b == CRLF + (t + b);
      ScanBlank(t);
      ScanBlank(t + b);
    } else {
      var x, t := d[..i], d[i + 2..];
      ScanHeadersExtend(t, b);
      ScanExtendsCons(x, t, b);
    }
  }

  lemma ScanExtendsCons(x: string, t: string, b: string)
    requires x != "" && !Contains(x, CRLF)
    requires ScanExtends(t, b)
    ensures ScanExtends(x + CRLF + t, b)
  {
    assert x + CRLF + t + b == x + CRLF + (t + b);
    ScanCons(x, t);
    ScanCons(x, t + b);
    var r' := ScanHeaders(t);
    if !r'.blank {
      PrependTwice([x], r'.lines, ScanHeaders(r'.rest + b));
    }
  }

  /** The empty line is seen exactly when the text starts with CRLF or holds two CRLF in a
      row. */
  lemma {:induction false} ScanHeadersBlankIff(s: string)
    ensures ScanHeaders(s).blank <==> OccursAt(s, CRLF, 0) || exists j :: OccursAt(s, BLANK_LINE, j)
    decreases |s|
  {
    var i := Find(s, CRLF, 0);
    ScanStep(s);
    if i == -1 {
      forall j ensures !OccursAt(s, BLANK_LINE, j) {
        BlankStartsWithCrlf(s, j);
      }
    } else if i > 0 {
      var x, t := s[..i], s[i + 2..];
      ScanHeadersBlankIff(t);
      ScanCons(x, t);
      BlankAfterLine(x, t);
    }
  }

  // ---------------------------------------------------------------------------
  // The methods as functions on Parser

  /** `_parse_headers(buf, start)` on `text == buf[start:]`, and `_parse_response_headers`
      when `done` is HTTP_RESPONSE_HEADER: append the lines, keep the rest pending, and move
      to `done` once the empty line is seen. */
  function CollectHeaders(p: Parser, text: string, done: int): Parser
  {
    var scan := ScanHeaders(text);
    p.(headers := p.headers + scan.lines, pending := scan.rest,
       state := if scan.blank then done else p.state)
  }

  /** The request-method test of `parse_request`: "GET" or "POST" anywhere in the text. */
  predicate HasMethod(data: string)
  {
    Contains(data, "GET") || Contains(data, "POST")
  }

  lemma HasMethodExtend(d: string, b: string)
    requires HasMethod(d)
    ensures HasMethod(d + b)
  {
    if Contains(d, "GET") {
      ContainsExtend(d, b, "GET");
    } else {
      ContainsExtend(d, b, "POST");
    }
  }

  /** `parse_request(buf)`. The value is the one returned: False when no start line can
      begin, True otherwise, and None (the method falls off its end) in a response state. */
  function RequestStep(p: Parser, buf: string): Step<Option<bool>>
  {
    var data := p.pending + buf;
    var q := p.(pending := "");
    if q.state == HTTP_INIT then
      if !HasMethod(data) then Step(q, Some(false))
      else
        var i := Find(data, CRLF, 0);
        if i != -1 then
          var withLine := q.(requestLine := Some(data[..i]), state := HTTP_REQUEST_LINE);
          Step(CollectHeaders(withLine, data[i + 2..], HTTP_REQUEST_HEADER), Some(true))
        else Step(q.(pending := data), Some(true))
    else if q.state == HTTP_REQUEST_LINE then Step(CollectHeaders(q, data, HTTP_REQUEST_HEADER), Some(true))
    else if q.state == HTTP_REQUEST_HEADER then Step(q.(pending := data), Some(true))
    else Step(q, None)
  }

  /** The branch of `parse_request` that finds the end of the request line. */
  lemma RequestStepLine(p: Parser, buf: string, i: int)
    requires p.state == HTTP_INIT && HasMethod(p.pending + buf)
    requires i == Find(p.pending + buf, CRLF, 0) && i != -1
    ensures var data := p.pending + buf;
      RequestStep(p, buf)
      == Step(CollectHeaders(p.(pending := "").(requestLine := Some(data[..i]), state := HTTP_REQUEST_LINE),
                             From(data, i + 2), HTTP_REQUEST_HEADER), Some(true))
  {
  }

  /** The branch of `parse_request` that buffers the body. */
  lemma RequestStepBody(p: Parser, buf: string)
    requires p.state == HTTP_REQUEST_HEADER
    ensures RequestStep(p, buf) == Step(p.(pending := p.pending + buf), Some(true))
  {
  }

  /** The branch of `parse_request` that goes on collecting header lines. */
  lemma RequestStepHeaders(p: Parser, buf: string)
    requires p.state == HTTP_REQUEST_LINE
    ensures RequestStep(p, buf)
      == Step(CollectHeaders(p.(pending := ""), From(p.pending + buf, 0), HTTP_REQUEST_HEADER), Some(true))
  {
  }

  /** `parse_response(buf)`. Outside the initial state the method reads the undefined global
      HTTP_RESPONSE_LINE and raises NameError, after the pending text has been taken out. */
  function ResponseStep(p: Parser, buf: string): Step<Result<()>>
  {
    var data := p.pending + buf;
    var q := p.(pending := "");
    if q.state == HTTP_INIT then
      var i := Find(data, CRLF, 0);
      if i != -1 then
        var withLine := q.(statusLine := Some(data[..i]), state := HTTP_RESPONSE_STATUS_LINE);
        Step(CollectHeaders(withLine, data[i + 2..], HTTP_RESPONSE_HEADER), Ok(()))
      else Step(q.(pending := data), Ok(()))
    else Step(q, Err(NameError))
  }

  /** The branch of `parse_response` that finds the end of the status line. */
  lemma ResponseStepLine(p: Parser, buf: string, i: int)
    requires p.state == HTTP_INIT
    requires i == Find(p.pending + buf, CRLF, 0) && i != -1
    ensures var data := p.pending + buf;
      ResponseStep(p, buf)
      == Step(CollectHeaders(p.(pending := "").(statusLine := Some(data[..i]), state := HTTP_RESPONSE_STATUS_LINE),
                             From(data, i + 2), HTTP_RESPONSE_HEADER), Ok(()))
  {
  }


  /** `get_data()` as written: the start line is kept only when `_host` is non-empty and
      occurs in it (with its first occurrence replaced by "/"); otherwise it is dropped. */
  function DataStep(p: Parser): Step<Result<string>>
  {
    match p.requestLine
    case None => Step(p, Err(AttributeError))
    case Some(line) =>
      var url := if |p.host| > 0 && Contains(line, p.host) then ReplaceFirst(line, p.host, "/") else "";
      Step(p.(requestLine := Some(""), headers := [], pending := ""),
           Ok(url + CRLF + Terminated(p.headers) + CRLF + p.pending))
  }

  /** `get_data()` as evidently intended: the start line is kept, rewritten only where
      `_host` occurs in it. */
  function RebuildRequest(p: Parser): Option<string>
  {
    match p.requestLine
    case None => None
    case Some(line) =>
      var url := if |p.host| > 0 && Contains(line, p.host) then ReplaceFirst(line, p.host, "/") else line;
      Some(url + CRLF + Terminated(p.headers) + CRLF + p.pending)
  }

  /** `get_response()`. */
  function ResponseDataStep(p: Parser): Step<Result<string>>
  {
    match p.statusLine
    case None => Step(p, Err(AttributeError))
    case Some(line) =>
      Step(p.(statusLine := Some(""), headers := [], pending := ""),
           Ok(line + CRLF + Terminated(p.headers) + CRLF + p.pending))
  }

  /** The text from index 6 on of the first header line that contains "Host:". */
  function HostHeader(headers: seq<string>): Option<string>
  {
    if headers == [] then None
    else if Contains(headers[0], "Host:") then Some(From(headers[0], 6))
    else HostHeader(headers[1..])
  }

  /** `get_host_address_and_port()`. Without a Host line the fallback reads the misspelt
      attribute `self.request_line` and raises AttributeError, with `_host` already reset. */
  function HostStep(p: Parser): Step<Result<(string, int)>>
  {
    match HostHeader(p.headers)
    case None => Step(p.(host := ""), Err(AttributeError))
    case Some(h) =>
      var q := p.(host := "http://" + h + "/");
      var c := Find(h, ":", 0);
      if c == -1 then Step(q, Ok((h, 80)))
      else Step(q, PortResult(h[..c], PyInt(h[c + 1..])))
  }

  /** The host and the port `int()` read after the ':', or ValueError when it read none. */
  function PortResult(addr: string, port: Option<int>): Result<(string, int)>
  {
    match port
    case None => Err(ValueError)
    case Some(n) => Ok((addr, n))
  }

  /** `check_header()`: the header block of the request has been read. */
  predicate HeaderComplete(p: Parser)
  {
    p.state >= HTTP_REQUEST_HEADER
  }

  /** Feeding chunks to `parse_request` one call after another. */
  function RequestChunks(p: Parser, chunks: seq<string>): Parser
    decreases |chunks|
  {
    if chunks == [] then p else RequestChunks(RequestStep(p, chunks[0]).after, chunks[1..])
  }

  function Concat(chunks: seq<string>): string
  {
    if chunks == [] then "" else chunks[0] + Concat(chunks[1..])
  }

  /** The parser has its start line and is collecting header lines or buffering the body. */
  predicate Started(p: Parser)
  {
    p.state == HTTP_REQUEST_LINE || p.state == HTTP_REQUEST_HEADER
  }

  // ---------------------------------------------------------------------------
  // Properties of parse_request

  /** With neither "GET" nor "POST" in the accumulated text, `parse_request` returns False,
      stays in the initial state and throws the text away. */
  lemma RejectsWithoutMethod(p: Parser, buf: string)
    requires p.state == HTTP_INIT && !HasMethod(p.pending + buf)
    ensures var s := RequestStep(p, buf);
      s.value == Some(false) && s.after.state == HTTP_INIT && s.after.pending == ""
      && s.after.headers == p.headers && s.after.requestLine == p.requestLine
  {
  }

  /** So a first chunk without a method name is as if it had never arrived. */
  lemma DiscardsChunkWithoutMethod(a: string, rest: seq<string>)
    requires !HasMethod(a)
    ensures RequestChunks(Initial, [a] + rest) == RequestChunks(Initial, rest)
  {
    assert Initial.pending + a == a;
    assert ([a] + rest)[1..] == rest;
  }

  /** With a method name but no CRLF yet, the whole accumulated text stays pending. */
  lemma KeepsPartialStartLine(p: Parser, buf: string)
    requires p.state == HTTP_INIT && HasMethod(p.pending + buf) && !Contains(p.pending + buf, CRLF)
    ensures RequestStep(p, buf) == Step(p.(pending := p.pending + buf), Some(true))
  {
  }

  /** Once a CRLF has arrived, the start line is exactly the text before the first CRLF (so
      it holds none), it is followed by CRLF in the stream, and the state has moved on. */
  lemma CapturesRequestLine(p: Parser, buf: string)
    requires p.state == HTTP_INIT && HasMethod(p.pending + buf) && Contains(p.pending + buf, CRLF)
    ensures var s := RequestStep(p, buf); var data := p.pending + buf;
      && s.value == Some(true)
      && s.after.state >= HTTP_REQUEST_LINE
      && s.after.requestLine.Some?
      && !Contains(s.after.requestLine.value, CRLF)
      && data == s.after.requestLine.value + CRLF + data[|s.after.requestLine.value| + 2..]
  {
    ScanStep(p.pending + buf);
  }

  /** Once the header block is complete, later chunks are only appended to the pending
      text, in arrival order; the header lines do not change. */
  lemma {:induction false} BodyOnlyBuffered(p: Parser, chunks: seq<string>)
    requires p.state == HTTP_REQUEST_HEADER
    ensures RequestChunks(p, chunks) == p.(pending := p.pending + Concat(chunks))
    decreases |chunks|
  {
    if chunks != [] {
      var p1 := RequestStep(p, chunks[0]).after;
      assert p1 == p.(pending := p.pending + chunks[0]);
      BodyOnlyBuffered(p1, chunks[1..]);
    }
  }

  /** In the header state, `text` then `b` is collected as the joined text. */
  lemma CollectJoin(q: Parser, text: string, b: string)
    requires q.state == HTTP_REQUEST_LINE
    ensures RequestStep(CollectHeaders(q, text, HTTP_REQUEST_HEADER), b)
      == Step(CollectHeaders(q, text + b, HTTP_REQUEST_HEADER), Some(true))
  {
    ScanHeadersExtend(text, b);
    var r := ScanHeaders(text);
    var a := CollectHeaders(q, text, HTTP_REQUEST_HEADER);
    if r.blank {
      RequestStepBody(a, b);
      assert ScanHeaders(text + b) == r.(rest := r.rest + b);
    } else {
      RequestStepHeaders(a, b);
      assert From(a.pending + b, 0) == r.rest + b;
      var t := ScanHeaders(r.rest + b);
      assert ScanHeaders(text + b) == Prepend(r.lines, t);
      assert (q.headers + r.lines) + t.lines == q.headers + (r.lines + t.lines);
    }
  }

  /** Two chunks fed one after the other leave the parser exactly as the joined text fed at
      once, as long as the parser has started or the first accumulated text names a method. */
  lemma RequestStepJoin(p: Parser, a: string, b: string)
    requires Started(p) || (p.state == HTTP_INIT && HasMethod(p.pending + a))
    ensures RequestStep(RequestStep(p, a).after, b) == RequestStep(p, a + b)
  {
    var d := p.pending + a;
    assert p.pending + (a + b) == d + b;
    var q := p.(pending := "");
    if p.state == HTTP_INIT {
      HasMethodExtend(d, b);
      var i := Find(d, CRLF, 0);
      if i != -1 {
        FindExtend(d, b, CRLF, 0);
        assert (d + b)[..i] == d[..i];
        assert (d + b)[i + 2..] == d[i + 2..] + b;
        CollectJoin(q.(requestLine := Some(d[..i]), state := HTTP_REQUEST_LINE), d[i + 2..], b);
      } else {
        assert RequestStep(p, a).after.(pending := "") == q;
      }
    } else if p.state == HTTP_REQUEST_LINE {
      CollectJoin(q, d, b);
    }
  }

  /** Chunk boundaries do not matter: feeding any non-empty list of chunks leaves the
      parser as feeding their concatenation at once, provided the first call can see a
      method name (or the start line is already in). */
  lemma {:induction false} RequestChunksJoin(p: Parser, chunks: seq<string>)
    requires |chunks| > 0
    requires Started(p) || (p.state == HTTP_INIT && HasMethod(p.pending + chunks[0]))
    ensures RequestChunks(p, chunks) == RequestStep(p, Concat(chunks)).after
    decreases |chunks|
  {
    var c := chunks[0];
    var p1 := RequestStep(p, c).after;
    if |chunks| == 1 {
      assert Concat(chunks) == c;
      assert RequestChunks(p1, chunks[1..]) == p1;
    } else {
      var rest := chunks[1..];
      var d := p.pending + c;
      if p.state == HTTP_INIT && Find(d, CRLF, 0) == -1 {
        assert p1.pending == d;
        HasMethodExtend(d, rest[0]);
      }
      RequestChunksJoin(p1, rest);
      RequestStepJoin(p, c, Concat(rest));
    }
  }

  /** `check_header` becomes true exactly when the text fed so far holds an empty line
      after the start line, i.e. a CRLF followed by another CRLF. */
  lemma HeaderCompleteIff(data: string)
    requires HasMethod(data)
    ensures HeaderComplete(RequestStep(Initial, data).after) <==> exists j :: OccursAt(data, BLANK_LINE, j)
  {
    assert Initial.pending + data == data;
    var i := Find(data, CRLF, 0);
    ScanStep(data);
    if i == -1 {
      forall j ensures !OccursAt(data, BLANK_LINE, j) {
        BlankStartsWithCrlf(data, j);
      }
    } else {
      var x, t := data[..i], data[i + 2..];
      ScanHeadersBlankIff(t);
      BlankAfterLine(x, t);
    }
  }

  /** Chunking does not change when the header block is complete (the same holds for
      every other field, by RequestChunksJoin). */
  lemma HeaderCompleteAnyChunking(chunks: seq<string>)
    requires |chunks| > 0 && HasMethod(chunks[0])
    ensures HeaderComplete(RequestChunks(Initial, chunks)) <==> exists j :: OccursAt(Concat(chunks), BLANK_LINE, j)
  {
    assert Initial.pending + chunks[0] == chunks[0];
    RequestChunksJoin(Initial, chunks);
    HasMethodExtend(chunks[0], Concat(chunks[1..]));
    HeaderCompleteIff(Concat(chunks));
  }

  /** The exception to chunk independence: a method name split across two chunks is lost.
      "GE" alone names no method and is dropped, so "T\r\n" after it is dropped too, while
      the joined "GET\r\n" is accepted. */
  lemma SplitMethodNameIsDropped()
    ensures RequestChunks(Initial, ["GE", "T\r\n"]) == Initial
    ensures RequestStep(Initial, "GET\r\n").after.requestLine == Some("GET")
  {
    NoMethodInPieces();
    DiscardsChunkWithoutMethod("GE", ["T\r\n"]);
    DiscardsChunkWithoutMethod("T\r\n", []);
    assert ["GE"] + ["T\r\n"] == ["GE", "T\r\n"];
    assert ["T\r\n"] + [] == ["T\r\n"];
    WholeMethodName();
  }

  lemma NoMethodInPieces()
    ensures !HasMethod("GE") && !HasMethod("T\r\n")
  {
    var t := "T\r\n";
    assert t[0..3] != "GET" by {
      assert t[0..3][0] == 'T';
    }
  }

  lemma WholeMethodName()
    ensures RequestStep(Initial, "GET\r\n").after.requestLine == Some("GET")
  {
    var whole := "GET\r\n";
    assert Initial.pending + whole == whole;
    assert OccursAt(whole, "GET", 0);
    var x := "GET";
    forall j | 0 <= j
      ensures !OccursAt(x, CRLF, j)
    {
      if j + 2 <= |x| {
        assert x[j..j + 2][0] == x[j] != '\r';
      }
    }
    assert x + CRLF + "" == whole;
    FindAfterLine(x, "");
    assert whole[..3] == x;
  }

  // ---------------------------------------------------------------------------
  // Properties of get_data, get_response and get_host_address_and_port

  /** `get_data` returns the start line (rewritten, or dropped), then each header with its
      CRLF, then the empty line, then the pending text, and empties the three buffers.
      `_state` and `_host` are left as they were. */
  lemma DataStepClears(p: Parser)
    requires p.requestLine.Some?
    ensures var s := DataStep(p);
      && s.value.Ok?
      && s.after == p.(requestLine := Some(""), headers := [], pending := "")
      && s.after.state == p.state && s.after.host == p.host
      && exists url :: s.value.value == url + CRLF + Terminated(p.headers) + CRLF + p.pending
  {
    var line := p.requestLine.value;
    var url := if |p.host| > 0 && Contains(line, p.host) then ReplaceFirst(line, p.host, "/") else "";
    assert DataStep(p).value.value == url + CRLF + Terminated(p.headers) + CRLF + p.pending;
  }

  /** As written, `get_data` drops the start line whenever `_host` does not occur in it,
      as for the origin-form line "GET / HTTP/1.1" under a Host header: the output then
      begins with the empty line, where the intended rebuild keeps the line. */
  lemma DataStepDropsStartLine(p: Parser)
    requires p.requestLine.Some? && !(|p.host| > 0 && Contains(p.requestLine.value, p.host))
    ensures DataStep(p).value == Ok(CRLF + Terminated(p.headers) + CRLF + p.pending)
    ensures RebuildRequest(p) == Some(p.requestLine.value + DataStep(p).value.value)
  {
    var line := p.requestLine.value;
    assert "" + CRLF == CRLF;
    assert line + CRLF + Terminated(p.headers) + CRLF + p.pending
        == line + (CRLF + Terminated(p.headers) + CRLF + p.pending);
  }

  /** A concrete state in which the drop happens: the Host line names "a", so `_host`
      becomes "http://a/", which does not occur in "GET / HTTP/1.1". */
  lemma DataStepDropsOriginFormLine()
    ensures var p := Parser(HTTP_REQUEST_HEADER, ["Host: a"], "", "", Some("GET / HTTP/1.1"), None);
      var h := HostStep(p);
      && h.value == Ok(("a", 80))
      && DataStep(h.after).value == Ok(CRLF + "Host: a" + CRLF + CRLF)
      && RebuildRequest(h.after) == Some("GET / HTTP/1.1" + CRLF + "Host: a" + CRLF + CRLF)
  {
    var p := Parser(HTTP_REQUEST_HEADER, ["Host: a"], "", "", Some("GET / HTTP/1.1"), None);
    SampleHost(p);
    OriginFormLacksHost();
    var q := p.(host := "http://a/");
    DataStepDropsStartLine(q);
    SingleLineTerminated("Host: a");
    Regroup("GET / HTTP/1.1", "Host: a");
  }

  lemma SingleLineTerminated(x: string)
    ensures Terminated([x]) == x + CRLF
  {
    assert [x][..0] == [];
  }

  lemma Regroup(line: string, x: string)
    ensures CRLF + (x + CRLF) + CRLF + "" == CRLF + x + CRLF + CRLF
    ensures line + (CRLF + x + CRLF + CRLF) == line + CRLF + x + CRLF + CRLF
  {
  }

  lemma SampleHost(p: Parser)
    requires p.headers == ["Host: a"]
    ensures HostStep(p) == Step(p.(host := "http://a/"), Ok(("a", 80)))
  {
    var line := "Host: a";
    assert OccursAt(line, "Host:", 0);
    assert From(line, 6) == "a";
    var h := "a";
    assert h[0..1] != ":" by {
      assert h[0..1][0] == 'a';
    }
    assert Find(h, ":", 0) == -1;
    assert "http://" + h + "/" == "http://a/";
  }

  lemma OriginFormLacksHost()
    ensures !Contains("GET / HTTP/1.1", "http://a/")
  {
    var start := "GET / HTTP/1.1";
    var host := "http://a/";
    forall j | 0 <= j
      ensures !OccursAt(start, host, j)
    {
      if j + 9 <= |start| {
        assert start[j..j + 9][0] == start[j] != 'h';
      }
    }
  }

  /** The intended rebuild is byte-exact: after a complete header block has been parsed from
      the initial state, it gives back the text that was fed, with only the first
      occurrence of `_host` replaced by "/" when `_host` occurs in the start line. */
  lemma RebuildRoundTrip(data: string, host: string)
    requires HasMethod(data)
    requires HeaderComplete(RequestStep(Initial, data).after)
    ensures var p := RequestStep(Initial, data).after.(host := host);
      && p.requestLine.Some?
      && RebuildRequest(p) == Some(if |host| > 0 && Contains(p.requestLine.value, host) then ReplaceFirst(data, host, "/") else data)
  {
    var i := Find(data, CRLF, 0);
    InitialParse(data);
    ScanStep(data);
    RebuildCollected(data[..i], data[i + 2..], data, host);
  }

  /** `parse_request` from the initial state on a text that names a method. */
  lemma InitialParse(data: string)
    requires HasMethod(data)
    ensures var i := Find(data, CRLF, 0); var after := RequestStep(Initial, data).after;
      && (i == -1 ==> after.state == HTTP_INIT)
      && (i != -1 ==> after == CollectHeaders(Initial.(requestLine := Some(data[..i]), state := HTTP_REQUEST_LINE), data[i + 2..], HTTP_REQUEST_HEADER))
  {
    assert Initial.pending + data == data;
  }

  lemma RebuildCollected(x: string, t: string, data: string, host: string)
    requires data == x + CRLF + t
    requires HeaderComplete(CollectHeaders(Initial.(requestLine := Some(x), state := HTTP_REQUEST_LINE), t, HTTP_REQUEST_HEADER))
    ensures var p := CollectHeaders(Initial.(requestLine := Some(x), state := HTTP_REQUEST_LINE), t, HTTP_REQUEST_HEADER).(host := host);
      RebuildRequest(p) == Some(if |host| > 0 && Contains(x, host) then ReplaceFirst(data, host, "/") else data)
  {
    var r := ScanHeaders(t);
    var p := CollectHeaders(Initial.(requestLine := Some(x), state := HTTP_REQUEST_LINE), t, HTTP_REQUEST_HEADER).(host := host);
    assert p.headers == r.lines by {
      assert [] + r.lines == r.lines;
    }
    assert r.blank && p.pending == r.rest && p.requestLine == Some(x);
    ClosedScanText(data, x, t, r);
    RebuildParts(p, x, data);
  }

  /** The rebuild of a parser holding `x` as its start line gives back a text `data`
      made of that line, the header lines and the pending text. */
  lemma RebuildParts(p: Parser, x: string, data: string)
    requires p.requestLine == Some(x)
    requires data == x + CRLF + Terminated(p.headers) + CRLF + p.pending
    ensures RebuildRequest(p) == Some(if |p.host| > 0 && Contains(x, p.host) then ReplaceFirst(data, p.host, "/") else data)
  {
    var host := p.host;
    var rest := CRLF + Terminated(p.headers) + CRLF + p.pending;
    assert data == x + rest;
    var url := if |host| > 0 && Contains(x, host) then ReplaceFirst(x, host, "/") else x;
    assert url + CRLF + Terminated(p.headers) + CRLF + p.pending == url + rest;
    if |host| > 0 && Contains(x, host) {
      ReplaceFirstExtend(x, rest, host, "/");
    }
  }

  /** The same round trip for any chunking whose first chunk names the method. */
  lemma RebuildRoundTripChunked(chunks: seq<string>, host: string)
    requires |chunks| > 0 && HasMethod(chunks[0])
    requires HeaderComplete(RequestChunks(Initial, chunks))
    ensures var p := RequestChunks(Initial, chunks).(host := host);
      && p.requestLine.Some?
      && RebuildRequest(p) == Some(
           if |host| > 0 && Contains(p.requestLine.value, host) then ReplaceFirst(Concat(chunks), host, "/")
           else Concat(chunks))
  {
    assert Initial.pending + chunks[0] == chunks[0];
    RequestChunksJoin(Initial, chunks);
    HasMethodExtend(chunks[0], Concat(chunks[1..]));
    RebuildRoundTrip(Concat(chunks), host);
  }

  /** `get_response` on a parsed status line and header block gives back the text fed. */
  lemma ResponseRoundTrip(data: string)
    requires ResponseStep(Initial, data).after.state == HTTP_RESPONSE_HEADER
    ensures ResponseDataStep(ResponseStep(Initial, data).after).value == Ok(data)
  {
    assert Initial.pending + data == data;
    var i := Find(data, CRLF, 0);
    assert i != -1;
    ResponseStepLine(Initial, data, i);
    ScanStep(data);
    var t := data[i + 2..];
    assert From(data, i + 2) == t;
    var r := ScanHeaders(t);
    var w := Initial.(pending := "").(statusLine := Some(data[..i]), state := HTTP_RESPONSE_STATUS_LINE);
    var p := CollectHeaders(w, t, HTTP_RESPONSE_HEADER);
    assert p == ResponseStep(Initial, data).after;
    assert p.headers == r.lines by {
      assert [] + r.lines == r.lines;
    }
    assert r.blank && p.pending == r.rest;
    ClosedScanText(data, data[..i], t, r);
    ResponseParts(p, data[..i], data);
  }

  /** A text made of a start line and a header block whose scan reached the empty line is
      the start line, the terminated header lines, the empty line and the rest. */
  lemma ClosedScanText(data: string, x: string, t: string, r: HeaderScan)
    requires data == x + CRLF + t && r == ScanHeaders(t) && r.blank
    ensures data == x + CRLF + Terminated(r.lines) + CRLF + r.rest
  {
    ScanHeadersSplits(t);
    var a, b := Terminated(r.lines), r.rest;
    assert t == a + CRLF + b;
    assert x + CRLF + (a + CRLF + b) == x + CRLF + a + CRLF + b;
  }

  lemma ResponseParts(p: Parser, x: string, data: string)
    requires p.statusLine == Some(x)
    requires data == x + CRLF + Terminated(p.headers) + CRLF + p.pending
    ensures ResponseDataStep(p).value == Ok(data)
  {
  }

  /** A call of `parse_response` outside the initial state raises NameError and loses the
      text buffered so far. */
  lemma ResponseOutsideInitRaises(p: Parser, buf: string)
    requires p.state != HTTP_INIT
    ensures ResponseStep(p, buf) == Step(p.(pending := ""), Err(NameError))
  {
  }

  /** The host comes from the first header line that contains "Host:", read from index 6;
      without a ':' in it the port is 80, otherwise it is split at the first ':'. */
  lemma HostFromFirstHostLine(p: Parser, k: nat)
    requires k < |p.headers| && Contains(p.headers[k], "Host:")
    requires forall j :: 0 <= j < k ==> !Contains(p.headers[j], "Host:")
    ensures var h := From(p.headers[k], 6); var s := HostStep(p);
      && s.after.host == "http://" + h + "/"
      && (!Contains(h, ":") ==> s.value == Ok((h, 80)))
      && (Contains(h, ":") ==> var c := Find(h, ":", 0);
            s.value == (if PyInt(h[c + 1..]).Some? then Ok((h[..c], PyInt(h[c + 1..]).value)) else Err(ValueError)))
  {
    HostHeaderAt(p.headers, k);
    var h := From(p.headers[k], 6);
    var c := Find(h, ":", 0);
    if c == -1 {
      HostStepNoColon(p, h);
    } else if PyInt(h[c + 1..]).Some? {
      HostStepPort(p, h, c, PyInt(h[c + 1..]).value);
    } else {
      HostStepBadPort(p, h, c);
    }
  }

  lemma {:induction false} HostHeaderAt(headers: seq<string>, k: nat)
    requires k < |headers| && Contains(headers[k], "Host:")
    requires forall j :: 0 <= j < k ==> !Contains(headers[j], "Host:")
    ensures HostHeader(headers) == Some(From(headers[k], 6))
    decreases k
  {
    if k > 0 {
      HostHeaderAt(headers[1..], k - 1);
    }
  }

  /** A Host line "Host: <addr>:<port>" with the port in decimal digits yields exactly
      that address and port. */
  lemma HostPortRoundTrip(p: Parser, addr: string, port: nat)
    requires |p.headers| > 0 && p.headers[0] == "Host: " + addr + ":" + Decimal(port)
    requires forall j :: 0 <= j < |addr| ==> addr[j] != ':'
    ensures HostStep(p).value == Ok((addr, port))
  {
    HostLineFirst(p, addr, Decimal(port));
    PortText(addr, port);
    HostStepPort(p, addr + ":" + Decimal(port), |addr|, port);
  }

  lemma HostLineFirst(p: Parser, addr: string, d: string)
    requires |p.headers| > 0 && p.headers[0] == "Host: " + addr + ":" + d
    ensures HostHeader(p.headers) == Some(addr + ":" + d)
  {
    var h := addr + ":" + d;
    assert p.headers[0] == "Host: " + h;
    HostLineValue(p.headers[0], h);
  }

  lemma PortText(addr: string, port: nat)
    requires forall j :: 0 <= j < |addr| ==> addr[j] != ':'
    ensures var h := addr + ":" + Decimal(port);
      Find(h, ":", 0) == |addr| && h[..|addr|] == addr && PyInt(h[|addr| + 1..]) == Some(port)
  {
    SplitAtColon(addr, Decimal(port));
    PyIntDecimal(port);
  }

  /** The branches of `get_host_address_and_port`, one lemma each. */
  lemma HostStepNone(p: Parser)
    requires HostHeader(p.headers) == None
    ensures HostStep(p) == Step(p.(host := ""), Err(AttributeError))
  {
  }

  lemma HostStepNoColon(p: Parser, h: string)
    requires HostHeader(p.headers) == Some(h) && Find(h, ":", 0) == -1
    ensures HostStep(p) == Step(p.(host := "http://" + h + "/"), Ok((h, 80)))
  {
  }

  lemma HostStepBadPort(p: Parser, h: string, c: int)
    requires HostHeader(p.headers) == Some(h)
    requires c == Find(h, ":", 0) && c != -1 && PyInt(h[c + 1..]) == None
    ensures HostStep(p) == Step(p.(host := "http://" + h + "/"), Err(ValueError))
  {
  }

  lemma HostStepPort(p: Parser, h: string, c: int, port: int)
    requires HostHeader(p.headers) == Some(h)
    requires c == Find(h, ":", 0) && c != -1 && PyInt(h[c + 1..]) == Some(port)
    ensures HostStep(p) == Step(p.(host := "http://" + h + "/"), Ok((h[..c], port)))
  {
  }

  /** A line "Host: h" contains "Host:" and holds `h` from index 6 on. */
  lemma HostLineValue(line: string, h: string)
    requires line == "Host: " + h
    ensures Contains(line, "Host:") && From(line, 6) == h
  {
    assert line[0..5] == "Host:";
    assert OccursAt(line, "Host:", 0);
    assert line[6..] == h;
  }

  /** In "addr:d" with no ':' in `addr`, the first ':' is the one after `addr`. */
  lemma SplitAtColon(addr: string, d: string)
    requires forall j :: 0 <= j < |addr| ==> addr[j] != ':'
    ensures var h := addr + ":" + d;
      Find(h, ":", 0) == |addr| && h[..|addr|] == addr && h[|addr| + 1..] == d
  {
    var h := addr + ":" + d;
    assert h[|addr|..|addr| + 1] == ":";
    assert OccursAt(h, ":", |addr|);
    forall j | 0 <= j < |addr|
      ensures !OccursAt(h, ":", j)
    {
      assert h[j..j + 1][0] == h[j] == addr[j];
    }
    assert h[..|addr|] == addr;
    assert h[|addr| + 1..] == d;
  }

  /** Without any Host line the fallback raises, with `_host` reset to the empty string. */
  lemma {:induction false} NoHostLineRaises(p: Parser)
    requires forall j :: 0 <= j < |p.headers| ==> !Contains(p.headers[j], "Host:")
    ensures HostStep(p) == Step(p.(host := ""), Err(AttributeError))
    decreases |p.headers|
  {
    if p.headers != [] {
      NoHostLineRaises(p.(headers := p.headers[1..]));
    }
  }

  /** One turn of the header loop, in its three cases: `target` is what the whole loop
      will have collected, `h` the header lines collected so far. */
  lemma LineAt(buf: string, start: nat)
    requires start <= |buf| && Find(buf, CRLF, start) > start
    ensures var i := Find(buf, CRLF, start);
      buf[start..] == buf[start..i] + CRLF + buf[i + 2..] && !Contains(buf[start..i], CRLF)
  {
    FindShift(buf, CRLF, start);
    var i := Find(buf, CRLF, start);
    var u := buf[start..];
    ScanStep(u);
    assert u[..i - start] == buf[start..i];
    assert u[i - start + 2..] == buf[i + 2..];
  }

  lemma ScanFromLine(buf: string, start: nat, i: int, h: seq<string>, h2: seq<string>, next: nat, target: HeaderScan)
    requires start <= |buf| && i == Find(buf, CRLF, start) && i > start
    requires h2 == h + [buf[start..i]] && next == i + 2
    requires ScannedFrom(buf, start, h, target)
    ensures ScannedFrom(buf, next, h2, target)
  {
    LineAt(buf, start);
    var line, tail := buf[start..i], From(buf, i + 2);
    ScanCons(line, tail);
    assert From(buf, start) == line + CRLF + tail;
    PrependStep(h, line, ScanHeaders(From(buf, start)), ScanHeaders(tail), target);
  }

  lemma ScanFromBlank(buf: string, start: nat, h: seq<string>, target: HeaderScan)
    requires start <= |buf| && Find(buf, CRLF, start) == start
    requires ScannedFrom(buf, start, h, target)
    ensures h == target.lines && target.blank && target.rest == From(buf, start + 2)
  {
    var u := buf[start..];
    assert u[..2] == CRLF;
    assert u == CRLF + buf[start + 2..];
    ScanBlank(buf[start + 2..]);
    assert h + [] == h;
  }

  lemma ScanFromNone(buf: string, start: nat, h: seq<string>, target: HeaderScan)
    requires Find(buf, CRLF, start) == -1
    requires ScannedFrom(buf, start, h, target)
    ensures h == target.lines && !target.blank && target.rest == From(buf, start)
  {
    if start <= |buf| {
      FindShift(buf, CRLF, start);
    }
    assert h + [] == h;
  }

  // ---------------------------------------------------------------------------
  // The class

  /** `lines` followed by the scan of `buf` from `start` on is `target`: what the header loop
      keeps true while it consumes lines. */
  predicate ScannedFrom(buf: string, start: nat, lines: seq<string>, target: HeaderScan)
  {
    Prepend(lines, ScanHeaders(From(buf, start))) == target
  }

  /** One turn of the header loop: the line ending at `index` is appended and the scan moves
      past its CRLF. */
  method TakeHeaderLine(buf: string, start: nat, index: int, lines: seq<string>, ghost target: HeaderScan)
    returns (lines': seq<string>, start': nat)
    requires start <= |buf| && index == Find(buf, CRLF, start) && index > start
    requires ScannedFrom(buf, start, lines, target)
    ensures ScannedFrom(buf, start', lines', target)
    ensures start' == index + 2
  {
    lines' := lines + [buf[start..index]];
    ScanFromLine(buf, start, index, lines, lines', index + 2, target);
    start' := index + 2;
  }

  /** The `while index != -1` loop of `_parse_headers`: the lines found from `start0` on are
      appended to `h`, `blank` says whether the empty line ending the header was reached, and
      the text left over starts at `start`. */
  method HeaderLoop(buf: string, start0: nat, h: seq<string>) returns (lines: seq<string>, blank: bool, start: nat)
    ensures Prepend(h, ScanHeaders(From(buf, start0))) == HeaderScan(lines, blank, From(buf, start))
  {
    ghost var target := Prepend(h, ScanHeaders(From(buf, start0)));
    lines, blank, start := h, false, start0;
    var index := Find(buf, CRLF, start);
    while index != -1
      invariant index != -1 ==> start <= |buf|
      invariant index == Find(buf, CRLF, start)
      invariant ScannedFrom(buf, start, lines, target)
      decreases |buf| - start
    {
      if index == start {
        ScanFromBlank(buf, start, lines, target);
        blank := true;
        start := start + 2;
        return;
      }
      lines, start := TakeHeaderLine(buf, start, index, lines, target);
      index := Find(buf, CRLF, start);
    }
    ScanFromNone(buf, start, lines, target);
  }

  class HTTPX {
    var state: int
    var headers: seq<string>
    var host: string
    var pendingData: string
    var requestLine: Option<string>
    var responseStatusLine: Option<string>

    function View(): Parser
      reads this
    {
      Parser(state, headers, host, pendingData, requestLine, responseStatusLine)
    }

    constructor ()
      ensures View() == Initial
    {
      state := HTTP_INIT;
      headers := [];
      host := "";
      pendingData := "";
      requestLine := None;
      responseStatusLine := None;
    }

    method CheckHeader() returns (r: bool)
      ensures r == HeaderComplete(View())
    {
      if state >= HTTP_REQUEST_HEADER {
        return true;
      } else {
        return false;
      }
    }

    method GetData() returns (r: Result<string>)
      modifies this
      ensures Step(View(), r) == DataStep(old(View()))
    {
      if requestLine.None? {
        return Err(AttributeError);
      }
      var line := requestLine.value;
      var url := "";
      if |host| > 0 && Find(line, host, 0) != -1 {
        url := ReplaceFirst(line, host, "/");
      }
      var data := url + CRLF;
      for k := 0 to |headers|
        invariant data == url + CRLF + Terminated(headers[..k])
      {
        assert headers[..k + 1][..k] == headers[..k];
        data := data + headers[k] + CRLF;
      }
      assert headers[..|headers|] == headers;
      data := data + CRLF;
      data := data + pendingData;
      requestLine := Some("");
      headers := [];
      pendingData := "";
      return Ok(data);
    }

    method GetResponse() returns (r: Result<string>)
      modifies this
      ensures Step(View(), r) == ResponseDataStep(old(View()))
    {
      if responseStatusLine.None? {
        return Err(AttributeError);
      }
      var data := responseStatusLine.value + CRLF;
      for k := 0 to |headers|
        invariant data == old(responseStatusLine).value + CRLF + Terminated(headers[..k])
      {
        assert headers[..k + 1][..k] == headers[..k];
        data := data + headers[k] + CRLF;
      }
      assert headers[..|headers|] == headers;
      data := data + CRLF;
      data := data + pendingData;
      responseStatusLine := Some("");
      headers := [];
      pendingData := "";
      return Ok(data);
    }

    method GetHostAddressAndPort() returns (r: Result<(string, int)>)
      modifies this
      ensures Step(View(), r) == HostStep(old(View()))
    {
      ghost var p := View();
      host := "";
      var found: Option<string> := None;
      var k := 0;
      while k < |headers| && found.None?
        invariant k <= |headers|
        invariant found.None? ==> HostHeader(headers[k..]) == HostHeader(headers)
        invariant found.Some? ==> HostHeader(headers) == found
      {
        assert headers[k..][0] == headers[k];
        assert headers[k..][1..] == headers[k + 1..];
        if Find(headers[k], "Host:", 0) != -1 {
          found := Some(From(headers[k], 6));
        }
        k := k + 1;
      }
      if found.None? {
        // The fallback reads `self._request_line`, then the attribute `self.request_line`,
        // which does not exist: it raises before changing anything else.
        HostStepNone(p);
        return Err(AttributeError);
      }
      var h := found.value;
      host := "http://" + h + "/";
      assert View() == p.(host := "http://" + h + "/");
      var c := Find(h, ":", 0);
      if c != -1 {
        var port := PyInt(h[c + 1..]);
        if port.None? {
          HostStepBadPort(p, h, c);
          return Err(ValueError);
        }
        HostStepPort(p, h, c, port.value);
        return Ok((h[..c], port.value));
      }
      HostStepNoColon(p, h);
      return Ok((h, 80));
    }

    /** The loop shared by `_parse_headers` and `_parse_response_headers`. */
    method CollectHeaderLines(buf: string, start0: nat, done: int)
      modifies this
      ensures View() == CollectHeaders(old(View()), From(buf, start0), done)
    {
      var lines, blank, start := HeaderLoop(buf, start0, headers);
      if blank {
        state := done;
      }
      headers := lines;
      pendingData := From(buf, start);
    }

    method ParseHeaders(buf: string, start: nat)
      modifies this
      ensures View() == CollectHeaders(old(View()), From(buf, start), HTTP_REQUEST_HEADER)
    {
      CollectHeaderLines(buf, start, HTTP_REQUEST_HEADER);
    }

    method ParseResponseHeaders(buf: string, start: nat)
      modifies this
      ensures View() == CollectHeaders(old(View()), From(buf, start), HTTP_RESPONSE_HEADER)
    {
      CollectHeaderLines(buf, start, HTTP_RESPONSE_HEADER);
    }

    /** `_parse_body`: the whole text becomes the pending text. */
    method ParseBody(buf: string, start: nat)
      modifies this
      ensures View() == old(View()).(pending := buf)
    {
      pendingData := buf;
    }

    method ParseResponseBody(buf: string, start: nat)
      modifies this
      ensures View() == old(View()).(pending := buf)
    {
      pendingData := buf;
    }

    /** The opening of `parse_request` and `parse_response`: the text left over from the
        previous call is put in front of `buf` and the buffer is emptied. */
    method TakePending(buf: string) returns (data: string)
      modifies this
      ensures data == old(pendingData) + buf
      ensures View() == old(View()).(pending := "")
    {
      if |pendingData| != 0 {
        data := pendingData + buf;
        pendingData := "";
      } else {
        assert pendingData + buf == buf;
        data := buf;
      }
    }

    method ParseRequest(buf: string) returns (r: Option<bool>)
      modifies this
      ensures Step(View(), r) == RequestStep(old(View()), buf)
    {
      ghost var p := View();
      var data := TakePending(buf);
      ghost var q := p.(pending := "");

      if state == HTTP_INIT {
        if Find(data, "GET", 0) == -1 && Find(data, "POST", 0) == -1 {
          return Some(false);
        }
        var index := Find(data, CRLF, 0);
        if index != -1 {
          requestLine := Some(data[..index]);
          state := HTTP_REQUEST_LINE;
          assert View() == q.(requestLine := Some(data[..index]), state := HTTP_REQUEST_LINE);
          ParseHeaders(data, index + 2);
          RequestStepLine(p, buf, index);
        } else {
          pendingData := data;
        }
        return Some(true);
      }

      if state == HTTP_REQUEST_LINE {
        ParseHeaders(data, 0);
        RequestStepHeaders(p, buf);
        return Some(true);
      }

      if state == HTTP_REQUEST_HEADER {
        ParseBody(data, 0);
        return Some(true);
      }
      return None;
    }

    method ParseResponse(buf: string) returns (r: Result<()>)
      modifies this
      ensures Step(View(), r) == ResponseStep(old(View()), buf)
    {
      ghost var p := View();
      var data := TakePending(buf);
      ghost var q := p.(pending := "");

      if state == HTTP_INIT {
        var index := Find(data, CRLF, 0);
        if index != -1 {
          responseStatusLine := Some(data[..index]);
          state := HTTP_RESPONSE_STATUS_LINE;
          assert View() == q.(statusLine := Some(data[..index]), state := HTTP_RESPONSE_STATUS_LINE);
          ParseResponseHeaders(data, index + 2);
          ResponseStepLine(p, buf, index);
        } else {
          pendingData := data;
        }
        return Ok(());
      }
      // `if self._state == HTTP_RESPONSE_LINE:` names a global that does not exist.
      return Err(NameError);
    }
  }
}
