/** The incremental request parser of the management endpoint, as a state
    machine on values, one byte at a time. */
module Http {
  import opened Bytes
  import opened Decimals

  const HEADER_MAX: nat := 8192
  const BODY_MAX: nat := 5176

  const TAB: u8 := 9
  const LF: u8 := 10
  const CR: u8 := 13
  const SPACE: u8 := 32
  const COLON: u8 := 58

  datatype ParseResult = NeedMore | CompleteRequest | Invalid | Exhausted

  /** Why a header block is refused; all of them answer `Invalid`. */
  datatype Reason =
    | MissingCrlf
    | EmptyRequestLine
    | TrailingBytes
    | NoBlankLine
    | BadField
    | TransferEncoding
    | SecondLength
    | BadLength

  datatype HeaderVerdict = Accepted | Rejected(reason: Reason) | LengthTooBig

  /** The verdict and the content length left behind in the request. */
  datatype HeaderParse = HeaderParse(verdict: HeaderVerdict, length: nat)

  // ---- characters and names ----

  function Lower(c: u8): u8 { if 65 <= c <= 90 then c + 32 else c }

  /** Equality up to ASCII case. */
  predicate SameName(x: seq<u8>, y: seq<u8>) {
    |x| == |y| && forall i :: 0 <= i < |x| ==> Lower(x[i]) == Lower(y[i])
  }

  /** A `tchar` of section 5.6.2 of RFC 9110. */
  predicate IsTokenChar(c: u8) {
    || IsDigit(c) || 65 <= c <= 90 || 97 <= c <= 122
    || c == 33 || 35 <= c <= 39 || 42 <= c <= 43 || 45 <= c <= 46 || 94 <= c <= 96 || c == 124 || c == 126
  }

  predicate IsValueChar(c: u8) { (c >= 0x20 || c == TAB) && c != 0x7f }

  predicate IsBlank(c: u8) { c == SPACE || c == TAB }

  const TRANSFER_ENCODING: seq<u8> := Ascii("Transfer-Encoding")
  const CONTENT_LENGTH: seq<u8> := Ascii("Content-Length")

  // ---- lines ----

  predicate CrlfAt(h: seq<u8>, i: int) {
    0 <= i && i + 1 < |h| && h[i] == CR && h[i + 1] == LF
  }

  /** First CRLF at or after `begin`. */
  function FindCrlf(h: seq<u8>, begin: nat): (k: Option<nat>)
    ensures k.Some? ==> begin <= k.value && CrlfAt(h, k.value)
    ensures k.Some? ==> forall j :: begin <= j < k.value ==> !CrlfAt(h, j)
    ensures k.None? ==> forall j :: begin <= j ==> !CrlfAt(h, j)
    decreases |h| - begin
  {
    if begin + 1 >= |h| then None
    else if CrlfAt(h, begin) then Some(begin)
    else FindCrlf(h, begin + 1)
  }

  // ---- field lines ----

  /** Position of the first colon, or the line's length. */
  function ColonOf(line: seq<u8>): (c: nat)
    ensures c <= |line|
    ensures c < |line| ==> line[c] == COLON
    ensures forall i :: 0 <= i < c ==> line[i] != COLON
  {
    if line == [] || line[0] == COLON then 0 else 1 + ColonOf(line[1..])
  }

  function NameOf(line: seq<u8>): seq<u8> { line[..ColonOf(line)] }

  function ValueOf(line: seq<u8>): seq<u8> {
    if ColonOf(line) < |line| then line[ColonOf(line) + 1..] else []
  }

  /** A field line: a non-empty token, a colon, and visible or blank bytes. */
  predicate FieldOk(line: seq<u8>) {
    && 0 < ColonOf(line) < |line|
    && (forall i :: 0 <= i < ColonOf(line) ==> IsTokenChar(line[i]))
    && (forall i :: ColonOf(line) < i < |line| ==> IsValueChar(line[i]))
  }

  function TrimLeft(s: seq<u8>): seq<u8> {
    if s != [] && IsBlank(s[0]) then TrimLeft(s[1..]) else s
  }

  function TrimRight(s: seq<u8>): seq<u8> {
    if s != [] && IsBlank(s[|s| - 1]) then TrimRight(s[..|s| - 1]) else s
  }

  function Trim(s: seq<u8>): seq<u8> { TrimRight(TrimLeft(s)) }

  datatype LengthParse = Length(n: nat) | NotDecimal | OverLimit

  /** Left-to-right accumulation with the limit checked before each digit. */
  function ScanDigits(s: seq<u8>): (r: LengthParse)
    ensures r.Length? ==> r.n <= BODY_MAX
  {
    if s == [] then Length(0)
    else
      var prefix := ScanDigits(s[..|s| - 1]);
      if prefix.Length? then NextDigit(prefix.n, s[|s| - 1]) else prefix
  }

  function NextDigit(parsed: nat, c: u8): (r: LengthParse)
    ensures r.Length? ==> r.n <= BODY_MAX
  {
    if !IsDigit(c) then NotDecimal
    else
      var digit := c - 48;
      if parsed > (BODY_MAX - digit) / 10 then OverLimit else Length(parsed * 10 + digit)
  }

  /** `meshd_http_parse_content_length`. */
  function ParseLength(value: seq<u8>): (r: LengthParse)
    ensures r.Length? ==> r.n <= BODY_MAX
  {
    var t := Trim(value);
    if t == [] then NotDecimal else ScanDigits(t)
  }

  // ---- header block ----

  /** One non-empty line: the verdict that ends the scan, or the new length. */
  datatype FieldStep = Stop(verdict: HeaderVerdict) | Continue(seen: bool, length: nat)

  function ScanField(line: seq<u8>, seen: bool, length: nat): FieldStep {
    if !FieldOk(line) then Stop(Rejected(BadField))
    else if SameName(NameOf(line), TRANSFER_ENCODING) then Stop(Rejected(TransferEncoding))
    else if !SameName(NameOf(line), CONTENT_LENGTH) then Continue(seen, length)
    else if seen then Stop(Rejected(SecondLength))
    else
      match ParseLength(ValueOf(line))
      case NotDecimal => Stop(Rejected(BadLength))
      case OverLimit => Stop(LengthTooBig)
      case Length(n) => Continue(true, n)
  }

  type LineScan = (seq<u8>, bool, nat) -> FieldStep

  /** The loop over the lines, whatever is done with each of them. */
  function ParseFields(h: seq<u8>, begin: nat, seen: bool, length: nat, scan: LineScan): HeaderParse
    decreases |h| - begin
  {
    if begin >= |h| then HeaderParse(Rejected(NoBlankLine), length)
    else
      var end := FindCrlf(h, begin);
      if end.None? then HeaderParse(Rejected(MissingCrlf), length)
      else if end.value == begin then
        HeaderParse(if begin + 2 == |h| then Accepted else Rejected(TrailingBytes), length)
      else
        match scan(h[begin..end.value], seen, length)
        case Stop(verdict) => HeaderParse(verdict, length)
        case Continue(seen', length') => ParseFields(h, end.value + 2, seen', length', scan)
  }

  /** `meshd_http_parse_headers`. */
  function ParseHeaders(h: seq<u8>, length: nat): HeaderParse {
    var end := FindCrlf(h, 0);
    if end.None? then HeaderParse(Rejected(MissingCrlf), length)
    else if end.value == 0 then HeaderParse(Rejected(EmptyRequestLine), length)
    else ParseFields(h, end.value + 2, false, length, ScanField)
  }

  function VerdictResult(v: HeaderVerdict): ParseResult {
    match v
    case Accepted => CompleteRequest
    case Rejected(_) => Invalid
    case LengthTooBig => Exhausted
  }

  // ---- feeding bytes ----

  datatype Parser = Parser(
    header: seq<u8>, body: seq<u8>, length: nat, headersComplete: bool, result: ParseResult)

  const INITIAL := Parser([], [], 0, false, NeedMore)

  predicate EndsBlank(h: seq<u8>) {
    CrlfAt(h, |h| - 4) && CrlfAt(h, |h| - 2)
  }

  /** A request is complete only on the last byte of a call. */
  function LastByte(rest: seq<u8>): ParseResult {
    if rest == [] then CompleteRequest else Invalid
  }

  /** The bytes of one call, from a state that needs more. */
  function Run(st: Parser, bytes: seq<u8>): Parser
    decreases |bytes|
  {
    if bytes == [] then st
    else
      var b, rest := bytes[0], bytes[1..];
      if st.headersComplete then
        var st1 := Parser(st.header, st.body + [b], st.length, true, NeedMore);
        if |st1.body| == st.length then Finish(st1, LastByte(rest)) else Run(st1, rest)
      else if |st.header| >= HEADER_MAX then Finish(st, Exhausted)
      else if b == 0 then Finish(st, Invalid)
      else
        var header := st.header + [b];
        if !EndsBlank(header) then Run(Parser(header, st.body, st.length, false, NeedMore), rest)
        else
          var p := ParseHeaders(header, st.length);
          if p.verdict != Accepted then Parser(header, st.body, p.length, false, VerdictResult(p.verdict))
          else if p.length == 0 then Parser(header, st.body, 0, true, LastByte(rest))
          else Run(Parser(header, st.body, p.length, true, NeedMore), rest)
  }

  function Finish(st: Parser, result: ParseResult): Parser {
    Parser(st.header, st.body, st.length, st.headersComplete, result)
  }

  datatype FeedOut = FeedOut(parser: Parser, answer: ParseResult)

  /** `meshd_mgmt_http_request_feed`: a finished request takes no more bytes. */
  function Feed(st: Parser, bytes: seq<u8>): FeedOut {
    if st.result != NeedMore then FeedOut(st, if bytes == [] then st.result else Invalid)
    else FeedOut(Run(st, bytes), Run(st, bytes).result)
  }

  // ---- what every call keeps ----

  /** Header and body stay inside their buffers; a request still waiting for
      its body has room for at least one more byte. */
  ghost predicate ParserOk(st: Parser) {
    && |st.header| <= HEADER_MAX
    && st.length <= BODY_MAX
    && |st.body| <= st.length
    && (!st.headersComplete ==> st.body == [])
    && (!st.headersComplete && st.result == NeedMore ==> st.length == 0)
    && (st.headersComplete && st.result == NeedMore ==> |st.body| < st.length)
  }

  lemma {:induction false} ParseFieldsLength(h: seq<u8>, begin: nat, seen: bool, length: nat, scan: LineScan)
    requires length <= BODY_MAX
    requires forall line: seq<u8>, seen: bool, n: nat :: n <= BODY_MAX && scan(line, seen, n).Continue? ==>
      scan(line, seen, n).length <= BODY_MAX
    ensures ParseFields(h, begin, seen, length, scan).length <= BODY_MAX
    decreases |h| - begin
  {
    if begin < |h| && FindCrlf(h, begin).Some? && FindCrlf(h, begin).value != begin {
      var end := FindCrlf(h, begin).value;
      var step := scan(h[begin..end], seen, length);
      if step.Continue? {
        ParseFieldsLength(h, end + 2, step.seen, step.length, scan);
      }
    }
  }

  lemma ParseHeadersLength(h: seq<u8>, length: nat)
    requires length <= BODY_MAX
    ensures ParseHeaders(h, length).length <= BODY_MAX
  {
    var end := FindCrlf(h, 0);
    if end.Some? {
      ParseFieldsLength(h, end.value + 2, false, length, ScanField);
    }
  }

  /** The buffers are never overrun, whatever arrives. */
  lemma {:induction false} RunKeeps(st: Parser, bytes: seq<u8>)
    requires ParserOk(st) && st.result == NeedMore
    ensures ParserOk(Run(st, bytes))
    decreases |bytes|
  {
    if bytes == [] {
    } else {
      var b, rest := bytes[0], bytes[1..];
      if st.headersComplete {
        if |st.body| + 1 != st.length {
          RunKeeps(Parser(st.header, st.body + [b], st.length, true, NeedMore), rest);
        }
      } else if |st.header| < HEADER_MAX && b != 0 {
        var header := st.header + [b];
        if !EndsBlank(header) {
          RunKeeps(Parser(header, st.body, st.length, false, NeedMore), rest);
        } else {
          var p := ParseHeaders(header, st.length);
          ParseHeadersLength(header, st.length);
          if p.verdict == Accepted && p.length != 0 {
            RunKeeps(Parser(header, st.body, p.length, true, NeedMore), rest);
          }
        }
      }
    }
  }

  lemma FeedKeeps(st: Parser, bytes: seq<u8>)
    requires ParserOk(st)
    ensures ParserOk(Feed(st, bytes).parser)
  {
    if st.result == NeedMore {
      RunKeeps(st, bytes);
    }
  }

  // ---- fragmentation ----

  /** What one call on `s1 + s2` does, in terms of the call on `s1`. */
  function Resume(st: Parser, s2: seq<u8>): Parser {
    match st.result
    case NeedMore => Run(st, s2)
    case CompleteRequest => if s2 == [] then st else Finish(st, Invalid)
    case Invalid => st
    case Exhausted => st
  }

  lemma {:induction false} RunSplit(st: Parser, s1: seq<u8>, s2: seq<u8>)
    requires st.result == NeedMore
    ensures Run(st, s1 + s2) == Resume(Run(st, s1), s2)
    decreases |s1|
  {
    if s1 == [] {
      assert s1 + s2 == s2;
    } else {
      var b, rest := s1[0], s1[1..];
      assert (s1 + s2)[0] == b && (s1 + s2)[1..] == rest + s2;
      if st.headersComplete {
        if |st.body| + 1 != st.length {
          RunSplit(Parser(st.header, st.body + [b], st.length, true, NeedMore), rest, s2);
        }
      } else if |st.header| < HEADER_MAX && b != 0 {
        var header := st.header + [b];
        if !EndsBlank(header) {
          RunSplit(Parser(header, st.body, st.length, false, NeedMore), rest, s2);
        } else {
          var p := ParseHeaders(header, st.length);
          if p.verdict == Accepted && p.length != 0 {
            RunSplit(Parser(header, st.body, p.length, true, NeedMore), rest, s2);
          }
        }
      }
    }
  }

  /** Fragmentation does not matter: splitting the bytes of a call over two
      calls reaches the same state exactly when the first call did not already
      complete the request, or there is nothing after it. */
  lemma SplitReachesSameStateIff(st: Parser, s1: seq<u8>, s2: seq<u8>)
    requires st.result == NeedMore
    ensures Feed(Feed(st, s1).parser, s2).parser == Feed(st, s1 + s2).parser
      <==> Feed(st, s1).answer != CompleteRequest || s2 == []
  {
    RunSplit(st, s1, s2);
  }

  /** After NEED_MORE the second call also gives the same answer. */
  lemma SplitAfterNeedMore(st: Parser, s1: seq<u8>, s2: seq<u8>)
    requires st.result == NeedMore && Feed(st, s1).answer == NeedMore
    ensures Feed(Feed(st, s1).parser, s2) == Feed(st, s1 + s2)
  {
    RunSplit(st, s1, s2);
  }
}
