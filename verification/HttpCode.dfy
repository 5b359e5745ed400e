/** The parser's loops over its fixed buffers. */
module HttpCode {
  import opened Bytes
  import opened Decimals
  import opened Http
  import opened HttpFraming
  import opened HttpToken

  /** `meshd_http_find_crlf`. */
  method ScanCrlf(h: array<u8>, size: nat, begin: nat) returns (end: Option<nat>)
    requires size <= h.Length
    ensures end == FindCrlf(h[..size], begin)
  {
    var index := begin;
    while index + 1 < size
      invariant begin <= index
      invariant FindCrlf(h[..size], begin) == FindCrlf(h[..size], index)
    {
      if h[index] == CR && h[index + 1] == LF {
        return Some(index);
      }
      index := index + 1;
    }
    return None;
  }

  /** The two loops that drop blanks from both ends of `h[from..to]`. */
  method TrimBounds(h: array<u8>, from: nat, to: nat) returns (begin: nat, end: nat)
    requires from <= to <= h.Length
    ensures from <= begin <= end <= to
    ensures h[begin..end] == Trim(h[from..to])
  {
    begin, end := from, to;
    while begin < end && IsBlank(h[begin])
      invariant from <= begin <= end
      invariant TrimLeft(h[from..to]) == TrimLeft(h[begin..to])
    {
      assert h[begin..to][1..] == h[begin + 1..to];
      begin := begin + 1;
    }
    assert TrimLeft(h[begin..to]) == h[begin..to];
    while end > begin && IsBlank(h[end - 1])
      invariant begin <= end <= to
      invariant TrimRight(h[begin..to]) == TrimRight(h[begin..end])
    {
      assert h[begin..end][..end - begin - 1] == h[begin..end - 1];
      end := end - 1;
    }
  }

  /** `meshd_http_parse_content_length`. */
  method ScanLength(h: array<u8>, from: nat, to: nat) returns (r: LengthParse)
    requires from <= to <= h.Length
    ensures r == ParseLength(h[from..to])
  {
    var begin, end := TrimBounds(h, from, to);
    if begin == end {
      return NotDecimal;
    }
    ghost var t := h[begin..end];
    var parsed: nat := 0;
    for index := begin to end
      invariant ScanDigits(t[..index - begin]) == Length(parsed)
    {
      ScanSnoc(t, index - begin);
      var next := NextDigit(parsed, h[index]);
      if !next.Length? {
        ScanFailsEarly(t, index - begin + 1);
        return next;
      }
      parsed := next.n;
    }
    assert t[..end - begin] == t;
    return Length(parsed);
  }

  lemma ScanSnoc(t: seq<u8>, k: nat)
    requires k < |t| && ScanDigits(t[..k]).Length?
    ensures ScanDigits(t[..k + 1]) == NextDigit(ScanDigits(t[..k]).n, t[k])
  {
    assert t[..k + 1][..k] == t[..k];
  }

  lemma {:induction false} ScanFailsEarly(t: seq<u8>, k: nat)
    requires k <= |t| && !ScanDigits(t[..k]).Length?
    ensures ScanDigits(t) == ScanDigits(t[..k])
  {
    if k == |t| {
      assert t[..k] == t;
    } else {
      assert t[..|t| - 1][..k] == t[..k];
      ScanFailsEarly(t[..|t| - 1], k);
    }
  }

  /** The per-line checks of `meshd_http_parse_headers`. */
  method CheckLine(h: array<u8>, from: nat, to: nat) returns (ok: bool, colon: nat)
    requires from < to <= h.Length
    ensures ok ==> colon == from + ColonOf(h[from..to])
    ensures ok <==> FieldOk(h[from..to])
  {
    ghost var line := h[from..to];
    colon := from;
    if IsBlank(h[from]) {
      assert !IsTokenChar(line[0]);
      return false, colon;
    }
    while colon < to && h[colon] != COLON
      invariant from <= colon <= to
      invariant forall i :: 0 <= i < colon - from ==> line[i] != COLON && IsTokenChar(line[i])
    {
      if !IsTokenChar(h[colon]) {
        assert !IsTokenChar(line[colon - from]);
        return false, colon;
      }
      colon := colon + 1;
    }
    assert ColonOf(line) == colon - from;
    if colon == from || colon == to {
      return false, colon;
    }
    for index := colon + 1 to to
      invariant forall i :: colon - from < i < index - from ==> IsValueChar(line[i])
    {
      if !IsValueChar(h[index]) {
        assert !IsValueChar(line[index - from]);
        return false, colon;
      }
    }
    return true, colon;
  }

  lemma ParseContinues(h: seq<u8>, begin: nat, seen: bool, length: nat, scan: LineScan)
    requires begin < |h| && FindCrlf(h, begin).Some? && FindCrlf(h, begin).value != begin
    ensures var step := scan(h[begin..FindCrlf(h, begin).value], seen, length);
      ParseFields(h, begin, seen, length, scan)
        == if step.Stop? then HeaderParse(step.verdict, length)
           else ParseFields(h, FindCrlf(h, begin).value + 2, step.seen, step.length, scan)
  {
  }

  /** `scan` is the check of one line. */
  ghost predicate Scans(scan: LineScan) {
    forall line: seq<u8>, seen: bool, n: nat {:trigger ScanField(line, seen, n)} ::
      scan(line, seen, n) == ScanField(line, seen, n)
  }

  /** The request object of one connection. */
  class HttpRequest {
    const header: array<u8>
    const body: array<u8>
    var headerSize: nat
    var bodySize: nat
    var length: nat
    var headersComplete: bool
    var result: ParseResult

    ghost predicate Shaped()
      reads this
    {
      && header.Length == HEADER_MAX + 1 && body.Length == BODY_MAX && header != body
      && headerSize <= HEADER_MAX && bodySize <= BODY_MAX
    }

    ghost function State(): Parser
      requires Shaped()
      reads this, header, body
    {
      Parser(header[..headerSize], body[..bodySize], length, headersComplete, result)
    }

    ghost predicate Valid()
      reads this, header, body
    {
      Shaped() && ParserOk(State())
    }

    constructor ()
      ensures Valid() && State() == INITIAL
      ensures fresh(header) && fresh(body)
    {
      header := new u8[HEADER_MAX + 1](_ => 0);
      body := new u8[BODY_MAX](_ => 0);
      headerSize, bodySize, length, headersComplete, result := 0, 0, 0, false, NeedMore;
      new;
    }

    /** `meshd_http_parse_headers`: leaves the content length behind. */
    method ScanHeaders() returns (verdict: HeaderVerdict)
      requires Shaped()
      modifies this`length
      ensures HeaderParse(verdict, length) == ParseHeaders(header[..headerSize], old(length))
    {
      ghost var h, length0 := header[..headerSize], length;
      var end := ScanCrlf(header, headerSize, 0);
      if end.None? {
        return Rejected(MissingCrlf);
      }
      if end.value == 0 {
        return Rejected(EmptyRequestLine);
      }
      var begin := end.value + 2;
      var seen, done := false, false;
      while begin < headerSize
        invariant ParseHeaders(h, length0) == ParseFields(h, begin, seen, length, ScanField)
        decreases headerSize - begin
      {
        done, verdict, begin, seen := ScanNext(begin, seen, ScanField);
        if done {
          return;
        }
      }
      return Rejected(NoBlankLine);
    }

    /** One turn of the line loop. */
    method ScanNext(begin: nat, seen: bool, ghost scan: LineScan)
      returns (done: bool, verdict: HeaderVerdict, next: nat, seen': bool)
      requires Shaped() && begin < headerSize && Scans(scan)
      modifies this`length
      ensures begin < next
      ensures ParseFields(header[..headerSize], begin, seen, old(length), scan)
        == if done then HeaderParse(verdict, length) else ParseFields(header[..headerSize], next, seen', length, scan)
    {
      done, next, seen' := true, begin + 1, seen;
      var end := ScanCrlf(header, headerSize, begin);
      if end.None? {
        verdict := Rejected(MissingCrlf);
        return;
      }
      if end.value == begin {
        verdict := if begin + 2 == headerSize then Accepted else Rejected(TrailingBytes);
        return;
      }
      var step := ScanFrom(begin, end.value, seen, scan);
      if step.Stop? {
        verdict := step.verdict;
        return;
      }
      seen', length := step.seen, step.length;
      done, verdict, next := false, Accepted, end.value + 2;
    }

    /** A non-empty line, and what the scan of the rest follows from. */
    method ScanFrom(begin: nat, end: nat, seen: bool, ghost scan: LineScan) returns (step: FieldStep)
      requires Shaped() && begin < headerSize && begin != end && FindCrlf(header[..headerSize], begin) == Some(end)
      requires Scans(scan)
      ensures ParseFields(header[..headerSize], begin, seen, length, scan)
        == if step.Stop? then HeaderParse(step.verdict, length)
           else ParseFields(header[..headerSize], end + 2, step.seen, step.length, scan)
    {
      step := ScanLine(begin, end, seen, scan);
      ParseContinues(header[..headerSize], begin, seen, length, scan);
    }

    method ScanLine(begin: nat, end: nat, seen: bool, ghost scan: LineScan) returns (step: FieldStep)
      requires Shaped() && begin < end <= headerSize && Scans(scan)
      ensures step == scan(header[..headerSize][begin..end], seen, length)
    {
      ghost var line := header[begin..end];
      assert line == header[..headerSize][begin..end];
      assert scan(line, seen, length) == ScanField(line, seen, length);
      var ok, colon := CheckLine(header, begin, end);
      if !ok {
        return Stop(Rejected(BadField));
      }
      assert header[begin..colon] == NameOf(line) && header[colon + 1..end] == ValueOf(line);
      if SameName(header[begin..colon], TRANSFER_ENCODING) {
        return Stop(Rejected(TransferEncoding));
      }
      if !SameName(header[begin..colon], CONTENT_LENGTH) {
        return Continue(seen, length);
      }
      if seen {
        return Stop(Rejected(SecondLength));
      }
      var parsed := ScanLength(header, colon + 1, end);
      match parsed {
        case NotDecimal => return Stop(Rejected(BadLength));
        case OverLimit => return Stop(LengthTooBig);
        case Length(n) => return Continue(true, n);
      }
    }

    /** One header byte; `finished` when it ends the block. */
    method TakeHeaderByte(b: u8) returns (finished: bool)
      requires Valid() && result == NeedMore && !headersComplete && headerSize < HEADER_MAX && b != 0
      modifies this, header
      ensures Shaped() && bodySize == old(bodySize)
      ensures headersComplete <==> finished && result == NeedMore
      ensures header[..headerSize] == old(header[..headerSize]) + [b]
      ensures finished == EndsBlank(header[..headerSize]) && length <= BODY_MAX
      ensures !finished ==> result == NeedMore && length == old(length)
      ensures finished ==>
        var p := ParseHeaders(header[..headerSize], old(length));
        length == p.length && result == if p.verdict == Accepted then NeedMore else VerdictResult(p.verdict)
    {
      ghost var before := header[..headerSize];
      header[headerSize] := b;
      headerSize := headerSize + 1;
      assert header[..headerSize] == before + [b];
      finished := headerSize >= 4
        && header[headerSize - 4] == CR && header[headerSize - 3] == LF
        && header[headerSize - 2] == CR && header[headerSize - 1] == LF;
      if finished {
        header[headerSize] := 0;
        assert header[..headerSize] == before + [b];
        ParseHeadersLength(header[..headerSize], length);
        var verdict := ScanHeaders();
        if verdict == Accepted {
          headersComplete := true;
        } else {
          result := VerdictResult(verdict);
        }
      }
    }

    /** `memcpy` of the missing part of the body, as far as it has arrived. */
    method TakeBody(bytes: seq<u8>, cursor: nat) returns (next: nat)
      requires Valid() && result == NeedMore && headersComplete && cursor < |bytes|
      modifies this`bodySize, body
      ensures Shaped() && cursor < next <= |bytes|
      ensures next - cursor ==
        if |bytes| - cursor < length - old(bodySize) then |bytes| - cursor else length - old(bodySize)
      ensures body[..bodySize] == old(body[..bodySize]) + bytes[cursor..next]
    {
      var remaining := length - bodySize;
      var available := |bytes| - cursor;
      var size := if available < remaining then available else remaining;
      next := cursor + size;
      ghost var before := body[..bodySize];
      CopyInto(body, bodySize, bytes[cursor..next]);
      bodySize := bodySize + size;
      assert body[..bodySize] == before + bytes[cursor..next];
    }

    /** One turn of the feeding loop on the header; `done` ends the call. */
    method FeedHeader(bytes: seq<u8>, cursor: nat) returns (done: bool)
      requires Valid() && result == NeedMore && !headersComplete && cursor < |bytes|
      modifies this, header
      ensures Valid() && (result == NeedMore || done)
      ensures Run(old(State()), bytes[cursor..]) == if done then State() else Run(State(), bytes[cursor + 1..])
    {
      ghost var st, rest := State(), bytes[cursor..];
      RunKeeps(st, rest);
      assert rest[1..] == bytes[cursor + 1..];
      if headerSize >= HEADER_MAX {
        result := Exhausted;
        return true;
      }
      if bytes[cursor] == 0 {
        result := Invalid;
        return true;
      }
      var finished := TakeHeaderByte(bytes[cursor]);
      if finished {
        if result != NeedMore {
          return true;
        }
        if length == 0 {
          result := if cursor + 1 == |bytes| then CompleteRequest else Invalid;
          return true;
        }
      }
      return false;
    }

    /** One turn of the feeding loop on the body, in bulk. */
    method FeedBody(bytes: seq<u8>, cursor: nat) returns (next: nat, done: bool)
      requires Valid() && result == NeedMore && headersComplete && cursor < |bytes|
      modifies this, body
      ensures Valid() && (result == NeedMore || done) && cursor < next <= |bytes|
      ensures Run(old(State()), bytes[cursor..]) == if done then State() else Run(State(), bytes[next..])
    {
      ghost var st, rest := State(), bytes[cursor..];
      RunKeeps(st, rest);
      RunBody(st.header, st.body, length, rest);
      next := TakeBody(bytes, cursor);
      assert bytes[cursor..next] == rest[..next - cursor] && bytes[next..] == rest[next - cursor..];
      done := bodySize == length;
      if done {
        result := if next == |bytes| then CompleteRequest else Invalid;
      }
    }

    /** `meshd_mgmt_http_request_feed`: bytes into the header one by one, then
        into the body in bulk. */
    method FeedBytes(bytes: seq<u8>) returns (answer: ParseResult)
      requires Valid()
      modifies this, header, body
      ensures Valid()
      ensures FeedOut(State(), answer) == Feed(old(State()), bytes)
    {
      if result != NeedMore {
        return if bytes == [] then result else Invalid;
      }
      ghost var start := State();
      var cursor := 0;
      while cursor < |bytes|
        invariant Valid() && result == NeedMore && cursor <= |bytes|
        invariant Run(start, bytes) == Run(State(), bytes[cursor..])
        decreases |bytes| - cursor
      {
        var done;
        if !headersComplete {
          done := FeedHeader(bytes, cursor);
          cursor := cursor + 1;
        } else {
          cursor, done := FeedBody(bytes, cursor);
        }
        if done {
          return result;
        }
      }
      return NeedMore;
    }
  }

  /** The serving loop of one connection; `turns` are what waiting brings. */
  method ServeRequest(turns: seq<Turn>) returns (answer: ParseResult, request: HttpRequest)
    ensures fresh(request) && request.Valid()
    ensures answer == Serve(INITIAL, turns)
  {
    request := new HttpRequest();
    answer := NeedMore;
    var i := 0;
    while i < |turns|
      invariant i <= |turns| && answer == NeedMore
      invariant fresh(request) && fresh(request.header) && fresh(request.body) && request.Valid()
      invariant Serve(INITIAL, turns) == Serve(request.State(), turns[i..])
    {
      if turns[i].Stopped? || turns[i].bytes == [] {
        return Invalid, request;
      }
      answer := request.FeedBytes(turns[i].bytes);
      assert turns[i..][1..] == turns[i + 1..];
      i := i + 1;
      if answer != NeedMore {
        return;
      }
    }
  }

  /** `meshd_token_equal`: compares every byte before it answers. */
  method TokenEqual(expected: seq<u8>, h: array<u8>, from: nat, to: nat) returns (same: bool)
    requires from <= to <= h.Length
    ensures same <==> h[from..to] == expected
  {
    if |expected| != to - from {
      return false;
    }
    var different := false;
    for i := 0 to |expected|
      invariant different <==> exists k :: 0 <= k < i && expected[k] != h[from + k]
    {
      different := different || expected[i] != h[from + i];
    }
    assert !different ==> forall k :: 0 <= k < |expected| ==> h[from..to][k] == expected[k];
    return !different;
  }

  /** `meshd_check_token` over the header buffer. */
  method CheckTokenIn(h: array<u8>, size: nat, token: seq<u8>) returns (ok: bool)
    requires size <= h.Length
    ensures ok == CheckToken(h[..size], token)
  {
    if token == [] {
      return true;
    }
    var end := ScanCrlf(h, size, 0);
    if end.None? {
      return false;
    }
    var seen := CheckTokenFields(h, size, end.value + 2, token, Marker(token));
    ok := seen == Some(RightToken);
  }

  /** The loop over the field lines. */
  method CheckTokenFields(h: array<u8>, size: nat, start: nat, token: seq<u8>, ghost mark: seq<u8> -> Mark)
    returns (r: Option<Mark>)
    requires size <= h.Length && mark == Marker(token)
    ensures r == TokenFields(h[..size], start, mark, OtherField)
  {
    ghost var text := h[..size];
    var begin, seen, done := start, OtherField, false;
    while begin < size
      invariant TokenFields(text, start, mark, OtherField) == TokenFields(text, begin, mark, seen)
      decreases size - begin
    {
      done, r, begin, seen := CheckTokenLine(h, size, begin, token, mark, seen);
      if done {
        return;
      }
    }
    return None;
  }

  method CheckTokenLine(h: array<u8>, size: nat, begin: nat, token: seq<u8>, ghost mark: seq<u8> -> Mark, seen: Mark)
    returns (done: bool, r: Option<Mark>, next: nat, seen': Mark)
    requires begin < size <= h.Length && mark == Marker(token)
    ensures begin < next
    ensures TokenFields(h[..size], begin, mark, seen)
      == if done then r else TokenFields(h[..size], next, mark, seen')
  {
    done, r, next, seen' := true, None, begin + 1, seen;
    var end := ScanCrlf(h, size, begin);
    if end.None? {
      return;
    }
    if end.value == begin {
      r := Some(seen);
      return;
    }
    assert h[..size][begin..end.value] == h[begin..end.value];
    var m := MarkLine(h, begin, end.value, token, mark);
    if m != OtherField {
      if seen != OtherField {
        return;
      }
      seen' := m;
    }
    done, next := false, end.value + 2;
  }

  method MarkLine(h: array<u8>, from: nat, to: nat, token: seq<u8>, ghost mark: seq<u8> -> Mark) returns (m: Mark)
    requires from <= to <= h.Length && mark == Marker(token)
    ensures m == mark(h[from..to])
  {
    ghost var line := h[from..to];
    var colon := ScanColon(h, from, to);
    if colon == to {
      return OtherField;
    }
    assert h[from..colon] == NameOf(line) && h[colon + 1..to] == ValueOf(line);
    if !SameName(h[from..colon], TOKEN_NAME) {
      return OtherField;
    }
    var begin, end := TrimBounds(h, colon + 1, to);
    var same := TokenEqual(token, h, begin, end);
    return if same then RightToken else WrongToken;
  }

  method ScanColon(h: array<u8>, from: nat, to: nat) returns (colon: nat)
    requires from <= to <= h.Length
    ensures colon == from + ColonOf(h[from..to])
  {
    colon := from;
    while colon < to && h[colon] != COLON
      invariant from <= colon <= to
      invariant forall i :: 0 <= i < colon - from ==> h[from..to][i] != COLON
    {
      colon := colon + 1;
    }
  }
}
