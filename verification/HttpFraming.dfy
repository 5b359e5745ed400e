/** Which byte streams are requests: the parser against a grammar that knows
    nothing of scanning, states or fragments. */
module HttpFraming {
  import opened Bytes
  import opened Decimals
  import opened Http

  const CRLF: seq<u8> := [CR, LF]

  // ---- the grammar ----

  ghost predicate NoCrlf(line: seq<u8>) {
    forall i :: !CrlfAt(line, i)
  }

  /** Field lines, each with its line end. */
  function Join(fields: seq<seq<u8>>): seq<u8> {
    if fields == [] then [] else fields[0] + CRLF + Join(fields[1..])
  }

  /** Request line, field lines, empty line. */
  function Block(requestLine: seq<u8>, fields: seq<seq<u8>>): seq<u8> {
    requestLine + CRLF + (Join(fields) + CRLF)
  }

  predicate IsLengthField(line: seq<u8>) { SameName(NameOf(line), CONTENT_LENGTH) }

  predicate IsTransferEncoding(line: seq<u8>) { SameName(NameOf(line), TRANSFER_ENCODING) }

  /** The value of a Content-Length field is the decimal numeral of `n`. */
  predicate SaysLength(line: seq<u8>, n: nat) {
    IsDecimal(Trim(ValueOf(line))) && Decimal(Trim(ValueOf(line))) == n
  }

  /** The body length that the fields declare: that of the only Content-Length
      field, or zero without one. */
  ghost predicate Declares(fields: seq<seq<u8>>, n: nat) {
    || (n == 0 && NoLength(fields))
    || exists k :: 0 <= k < |fields| && OnlyLength(fields, k) && SaysLength(fields[k], n)
  }

  ghost predicate NoLength(fields: seq<seq<u8>>) {
    forall i :: 0 <= i < |fields| ==> !IsLengthField(fields[i])
  }

  ghost predicate OnlyLength(fields: seq<seq<u8>>, k: nat)
    requires k < |fields|
  {
    IsLengthField(fields[k]) && forall i :: 0 <= i < |fields| && i != k ==> !IsLengthField(fields[i])
  }

  ghost predicate GoodFields(fields: seq<seq<u8>>, n: nat) {
    && n <= BODY_MAX
    && (forall i :: 0 <= i < |fields| ==> FieldOk(fields[i]) && !IsTransferEncoding(fields[i]))
    && Declares(fields, n)
  }

  ghost predicate GoodRequest(s: seq<u8>, requestLine: seq<u8>, fields: seq<seq<u8>>, body: seq<u8>) {
    var head := Block(requestLine, fields);
    && s == head + body
    && requestLine != [] && NoCrlf(requestLine)
    && GoodFields(fields, |body|)
    && |head| <= HEADER_MAX && 0 !in head
  }

  /** A well-framed request. */
  ghost predicate IsRequest(s: seq<u8>) {
    exists requestLine, fields, body :: GoodRequest(s, requestLine, fields, body)
  }

  // ---- decimal lengths ----

  lemma {:induction false} ScanIsDecimal(s: seq<u8>, n: nat)
    ensures ScanDigits(s) == Length(n) <==>
      AllDigits(s) && Decimal(s) == n && n <= BODY_MAX
  {
    if s == [] {
    } else {
      var init, last := s[..|s| - 1], s[|s| - 1];
      assert AllDigits(s) <==> AllDigits(init) && IsDigit(last) by {
        assert s == init + [last];
      }
      if AllDigits(init) {
        ScanIsDecimal(init, Decimal(init));
      }
      if ScanDigits(init).Length? {
        ScanIsDecimal(init, ScanDigits(init).n);
      }
    }
  }

  /** The overflow-guarded scan accepts exactly the trimmed decimal numerals up
      to the body limit, and returns their value. */
  lemma ParseLengthIff(line: seq<u8>, n: nat)
    ensures ParseLength(ValueOf(line)) == Length(n) <==> SaysLength(line, n) && n <= BODY_MAX
  {
    ScanIsDecimal(Trim(ValueOf(line)), n);
  }

  // ---- fields, line by line ----

  function Fold(fields: seq<seq<u8>>, seen: bool, length: nat, scan: LineScan): HeaderParse {
    if fields == [] then HeaderParse(Accepted, length)
    else
      match scan(fields[0], seen, length)
      case Stop(verdict) => HeaderParse(verdict, length)
      case Continue(seen', length') => Fold(fields[1..], seen', length', scan)
  }

  ghost predicate AllGood(fields: seq<seq<u8>>) {
    forall i :: 0 <= i < |fields| ==> FieldOk(fields[i]) && !IsTransferEncoding(fields[i])
  }

  lemma {:induction false} FoldSeen(fields: seq<seq<u8>>, length: nat)
    ensures Fold(fields, true, length, ScanField).verdict == Accepted <==> AllGood(fields) && NoLength(fields)
    ensures Fold(fields, true, length, ScanField).verdict == Accepted ==>
      Fold(fields, true, length, ScanField).length == length
  {
    if fields == [] {
    } else {
      FoldSeen(fields[1..], length);
      assert AllGood(fields) && NoLength(fields) <==>
        FieldOk(fields[0]) && !IsTransferEncoding(fields[0]) && !IsLengthField(fields[0])
        && AllGood(fields[1..]) && NoLength(fields[1..]) by {
        assert fields == [fields[0]] + fields[1..];
      }
    }
  }

  lemma DeclaresHead(fields: seq<seq<u8>>, n: nat)
    requires fields != [] && IsLengthField(fields[0])
    ensures Declares(fields, n) <==> SaysLength(fields[0], n) && NoLength(fields[1..])
  {
    assert NoLength(fields[1..]) <==> OnlyLength(fields, 0) by {
      assert fields == [fields[0]] + fields[1..];
    }
    assert forall k :: 0 < k < |fields| ==> !OnlyLength(fields, k);
  }

  lemma DeclaresTail(fields: seq<seq<u8>>, n: nat)
    requires fields != [] && !IsLengthField(fields[0])
    ensures Declares(fields, n) <==> Declares(fields[1..], n)
  {
    var tail := fields[1..];
    assert NoLength(fields) <==> NoLength(tail) by {
      assert fields == [fields[0]] + tail;
    }
    forall k | 0 <= k < |tail|
      ensures OnlyLength(tail, k) <==> OnlyLength(fields, k + 1)
    {
      assert fields == [fields[0]] + tail;
    }
    if Declares(fields, n) && !NoLength(fields) {
      var k :| 0 <= k < |fields| && OnlyLength(fields, k) && SaysLength(fields[k], n);
      assert OnlyLength(tail, k - 1);
    }
  }

  /** Line by line, the scan accepts exactly the good field lists, with the
      length they declare. */
  lemma {:induction false} FoldIff(fields: seq<seq<u8>>, n: nat)
    ensures Fold(fields, false, 0, ScanField) == HeaderParse(Accepted, n) <==> GoodFields(fields, n)
  {
    if fields == [] {
    } else {
      var head, tail := fields[0], fields[1..];
      assert AllGood(fields) <==> FieldOk(head) && !IsTransferEncoding(head) && AllGood(tail) by {
        assert fields == [head] + tail;
      }
      if IsLengthField(head) {
        DeclaresHead(fields, n);
        ParseLengthIff(head, n);
        FoldSeen(tail, n);
        if ParseLength(ValueOf(head)).Length? {
          FoldSeen(tail, ParseLength(ValueOf(head)).n);
        }
      } else {
        DeclaresTail(fields, n);
        FoldIff(tail, n);
      }
    }
  }

  // ---- the block and its lines ----

  predicate BlankAt(h: seq<u8>, i: int) { CrlfAt(h, i) && CrlfAt(h, i + 2) }

  /** CRLFCRLF does not occur. */
  ghost predicate NoBlank(h: seq<u8>) {
    forall i :: !BlankAt(h, i)
  }

  /** CRLFCRLF occurs once, at the very end. */
  ghost predicate FirstBlank(h: seq<u8>) {
    EndsBlank(h) && forall i :: BlankAt(h, i) ==> i + 4 == |h|
  }

  ghost predicate Lines(fields: seq<seq<u8>>) {
    forall i :: 0 <= i < |fields| ==> fields[i] != [] && NoCrlf(fields[i])
  }

  lemma FirstCrlf(h: seq<u8>, begin: nat, line: seq<u8>, rest: seq<u8>)
    requires begin <= |h| && h[begin..] == line + CRLF + rest && NoCrlf(line)
    ensures FindCrlf(h, begin) == Some(begin + |line|)
    ensures h[begin..begin + |line|] == line && h[begin + |line| + 2..] == rest
  {
    var x := h[begin..];
    assert forall j :: begin <= j < |h| ==> h[j] == x[j - begin];
    assert x[|line|] == CR && x[|line| + 1] == LF;
    assert CrlfAt(h, begin + |line|);
    forall j | begin <= j < begin + |line|
      ensures !CrlfAt(h, j)
    {
      assert !CrlfAt(line, j - begin);
    }
    assert x[..|line|] == line && x[|line| + 2..] == rest;
  }

  lemma JoinCons(fields: seq<seq<u8>>)
    requires fields != []
    ensures Join(fields) + CRLF == fields[0] + CRLF + (Join(fields[1..]) + CRLF)
  {
  }

  /** From the start of a line, the scanner finds that line and the rest. */
  lemma NextLine(h: seq<u8>, begin: nat, fields: seq<seq<u8>>)
    requires begin <= |h| && h[begin..] == Join(fields) + CRLF && Lines(fields)
    ensures fields == [] ==> FindCrlf(h, begin) == Some(begin) && begin + 2 == |h|
    ensures fields != [] ==>
      var end := begin + |fields[0]|;
      && FindCrlf(h, begin) == Some(end) && end + 2 <= |h| && begin < end
      && h[begin..end] == fields[0] && h[end + 2..] == Join(fields[1..]) + CRLF
  {
    if fields == [] {
      assert h[begin..] == [] + CRLF + [];
      FirstCrlf(h, begin, [], []);
    } else {
      JoinCons(fields);
      FirstCrlf(h, begin, fields[0], Join(fields[1..]) + CRLF);
    }
  }

  /** From `begin` on, the scanner meets exactly these lines and then the empty
      line that ends the text. */
  ghost predicate Segmented(h: seq<u8>, begin: nat, fields: seq<seq<u8>>)
    decreases |fields|
  {
    if fields == [] then FindCrlf(h, begin) == Some(begin) && begin + 2 == |h|
    else
      var end := begin + |fields[0]|;
      && FindCrlf(h, begin) == Some(end) && begin < end && end + 2 <= |h|
      && h[begin..end] == fields[0] && Segmented(h, end + 2, fields[1..])
  }

  lemma {:induction false} JoinIsSegmented(h: seq<u8>, begin: nat, fields: seq<seq<u8>>)
    requires begin <= |h| && h[begin..] == Join(fields) + CRLF && Lines(fields)
    ensures Segmented(h, begin, fields)
    decreases |fields|
  {
    NextLine(h, begin, fields);
    if fields == [] {
    } else {
      JoinIsSegmented(h, begin + |fields[0]| + 2, fields[1..]);
    }
  }

  /** On these lines, index scanning is the fold over them: in particular no
      scan runs off the end. */
  lemma {:induction false} ParseFieldsIsFold(h: seq<u8>, begin: nat, fields: seq<seq<u8>>, seen: bool, length: nat,
                                             scan: LineScan)
    requires Segmented(h, begin, fields)
    ensures ParseFields(h, begin, seen, length, scan) == Fold(fields, seen, length, scan)
    decreases |fields|
  {
    if fields == [] {
    } else {
      var step := scan(fields[0], seen, length);
      if step.Continue? {
        ParseFieldsIsFold(h, begin + |fields[0]| + 2, fields[1..], step.seen, step.length, scan);
      }
    }
  }

  lemma ParseBlock(requestLine: seq<u8>, fields: seq<seq<u8>>)
    requires NoCrlf(requestLine) && Lines(fields)
    ensures ParseHeaders(Block(requestLine, fields), 0) ==
      if requestLine == [] then HeaderParse(Rejected(EmptyRequestLine), 0) else Fold(fields, false, 0, ScanField)
  {
    var h := Block(requestLine, fields);
    assert h[0..] == requestLine + CRLF + (Join(fields) + CRLF);
    FirstCrlf(h, 0, requestLine, Join(fields) + CRLF);
    if requestLine != [] {
      JoinIsSegmented(h, |requestLine| + 2, fields);
      ParseFieldsIsFold(h, |requestLine| + 2, fields, false, 0, ScanField);
    }
  }

  lemma CrlfPositions(line: seq<u8>, rest: seq<u8>, i: int)
    requires NoCrlf(line) && CrlfAt(line + CRLF + rest, i)
    ensures i == |line| || CrlfAt(rest, i - |line| - 2)
  {
    var x := line + CRLF + rest;
    assert x[|line|] == CR && x[|line| + 1] == LF;
    assert 0 <= i < |line| ==> !CrlfAt(line, i);
    if i >= |line| + 2 {
      assert x[i] == rest[i - |line| - 2] && x[i + 1] == rest[i - |line| - 1];
    }
  }

  lemma NotAtStart(fields: seq<seq<u8>>)
    requires fields != [] && Lines(fields)
    ensures !CrlfAt(Join(fields) + CRLF, 0)
  {
    JoinCons(fields);
    if CrlfAt(Join(fields) + CRLF, 0) {
      CrlfPositions(fields[0], Join(fields[1..]) + CRLF, 0);
    }
  }

  /** After any line, the lines and their empty line hold no earlier blank. */
  lemma {:induction false} BlankOnlyAtEnd(line: seq<u8>, fields: seq<seq<u8>>, i: int)
    requires NoCrlf(line) && Lines(fields) && BlankAt(line + CRLF + (Join(fields) + CRLF), i)
    ensures i + 4 == |line + CRLF + (Join(fields) + CRLF)|
    decreases |fields|
  {
    var rest := Join(fields) + CRLF;
    CrlfPositions(line, rest, i);
    CrlfPositions(line, rest, i + 2);
    if i == |line| {
      if fields != [] {
        NotAtStart(fields);
      }
    } else if fields != [] {
      JoinCons(fields);
      BlankOnlyAtEnd(fields[0], fields[1..], i - |line| - 2);
    }
  }

  lemma {:induction false} EndsInCrlf(fields: seq<seq<u8>>)
    ensures fields != [] ==> |Join(fields)| >= 2 && Join(fields)[|Join(fields)| - 2..] == CRLF
  {
    if fields == [] {
    } else {
      var first, tail := fields[0], Join(fields[1..]);
      EndsInCrlf(fields[1..]);
      var j := first + CRLF + tail;
      if fields[1..] == [] {
        assert tail == [] && j == first + CRLF;
      } else {
        assert j[|j| - 2..] == tail[|tail| - 2..];
      }
    }
  }

  lemma BlockIsFirstBlank(requestLine: seq<u8>, fields: seq<seq<u8>>)
    requires NoCrlf(requestLine) && Lines(fields)
    ensures FirstBlank(Block(requestLine, fields))
  {
    var h := Block(requestLine, fields);
    forall i | BlankAt(h, i)
      ensures i + 4 == |h|
    {
      BlankOnlyAtEnd(requestLine, fields, i);
    }
    EndsInCrlf([requestLine] + fields);
    assert ([requestLine] + fields)[1..] == fields;
    var lines := Join([requestLine] + fields);
    assert h == lines + CRLF;
    assert h[|h| - 4..] == lines[|lines| - 2..] + CRLF;
    assert h[|h| - 4] == h[|h| - 4..][0] && h[|h| - 3] == h[|h| - 4..][1];
  }

  lemma LineBefore(h: seq<u8>, begin: nat)
    requires FindCrlf(h, begin).Some?
    ensures NoCrlf(h[begin..FindCrlf(h, begin).value])
  {
    var line := h[begin..FindCrlf(h, begin).value];
    forall i | 0 <= i < |line|
      ensures !CrlfAt(line, i)
    {
      assert !CrlfAt(h, begin + i);
    }
  }

  /** The lines from `begin`, the start of a line of a block. */
  lemma {:induction false} SplitRest(h: seq<u8>, begin: nat) returns (fields: seq<seq<u8>>)
    requires FirstBlank(h) && 2 <= begin <= |h| - 2 && CrlfAt(h, begin - 2)
    ensures Lines(fields) && h[begin..] == Join(fields) + CRLF
    decreases |h| - begin
  {
    var end := FindCrlf(h, begin).value;
    if end == begin {
      assert BlankAt(h, begin - 2);
      assert h[begin..] == CRLF;
      fields := [];
    } else {
      assert end <= |h| - 4;
      var tail := SplitRest(h, end + 2);
      var line := h[begin..end];
      fields := [line] + tail;
      assert fields[1..] == tail;
      assert h[begin..] == line + CRLF + h[end + 2..];
      LineBefore(h, begin);
    }
  }

  lemma SplitBlock(h: seq<u8>) returns (requestLine: seq<u8>, fields: seq<seq<u8>>)
    requires FirstBlank(h)
    ensures NoCrlf(requestLine) && Lines(fields) && h == Block(requestLine, fields)
  {
    var end := FindCrlf(h, 0).value;
    assert end <= |h| - 4;
    requestLine := h[..end];
    fields := SplitRest(h, end + 2);
    LineBefore(h, 0);
    assert h == requestLine + CRLF + h[end + 2..];
  }

  // ---- the run ----

  lemma NoBlankGrows(h: seq<u8>, b: u8)
    requires NoBlank(h)
    ensures NoBlank(h + [b]) || FirstBlank(h + [b])
    ensures EndsBlank(h + [b]) <==> FirstBlank(h + [b])
  {
    var g := h + [b];
    forall i | BlankAt(g, i)
      ensures i + 4 == |g|
    {
      assert !BlankAt(h, i);
    }
    assert EndsBlank(g) <==> BlankAt(g, |g| - 4);
  }

  lemma NoBlankPrefix(h: seq<u8>, k: nat)
    requires FirstBlank(h) && k < |h|
    ensures NoBlank(h[..k])
  {
    forall i
      ensures !BlankAt(h[..k], i)
    {
      assert BlankAt(h[..k], i) ==> BlankAt(h, i);
    }
  }

  /** The state in which the header bytes `h` have just been received. */
  function Receiving(h: seq<u8>): Parser { Parser(h, [], 0, false, NeedMore) }

  /** What the parser makes of a finished block followed by `rest`. */
  function AfterBlock(h: seq<u8>, rest: seq<u8>): Parser {
    var p := ParseHeaders(h, 0);
    if p.verdict != Accepted then Parser(h, [], p.length, false, VerdictResult(p.verdict))
    else if p.length == 0 then Parser(h, [], 0, true, LastByte(rest))
    else Run(Parser(h, [], p.length, true, NeedMore), rest)
  }

  lemma EndsAtBlank(h: seq<u8>, m: nat)
    requires FirstBlank(h) && m < |h|
    ensures EndsBlank(h[..m + 1]) <==> m + 1 == |h|
  {
    if m + 1 == |h| {
      assert h[..m + 1] == h;
    } else {
      NoBlankPrefix(h, m + 1);
      assert !BlankAt(h[..m + 1], m + 1 - 4);
    }
  }

  lemma RunHeaderByte(h: seq<u8>, m: nat, rest: seq<u8>)
    requires FirstBlank(h) && m < |h| <= HEADER_MAX && 0 !in h
    ensures Run(Receiving(h[..m]), h[m..] + rest) ==
      if m + 1 == |h| then AfterBlock(h, rest) else Run(Receiving(h[..m + 1]), h[m + 1..] + rest)
  {
    var bytes := h[m..] + rest;
    assert bytes[0] == h[m] && bytes[1..] == h[m + 1..] + rest;
    assert h[..m] + [h[m]] == h[..m + 1];
    EndsAtBlank(h, m);
    if m + 1 == |h| {
      assert h[..m + 1] == h && h[m + 1..] + rest == rest;
    }
  }

  lemma {:induction false} RunToBlank(h: seq<u8>, m: nat, rest: seq<u8>)
    requires FirstBlank(h) && m < |h| <= HEADER_MAX && 0 !in h
    ensures Run(Receiving(h[..m]), h[m..] + rest) == AfterBlock(h, rest)
    decreases |h| - m
  {
    RunHeaderByte(h, m, rest);
    if m + 1 == |h| {
    } else {
      RunToBlank(h, m + 1, rest);
    }
  }

  lemma {:induction false} RunFindsBlank(h: seq<u8>, bytes: seq<u8>) returns (m: nat)
    requires NoBlank(h) && |h| <= HEADER_MAX && 0 !in h
    requires Run(Receiving(h), bytes).result == CompleteRequest
    ensures m <= |bytes| && FirstBlank(h + bytes[..m]) && |h| + m <= HEADER_MAX && 0 !in h + bytes[..m]
    decreases |bytes|
  {
    var b, rest := bytes[0], bytes[1..];
    NoBlankGrows(h, b);
    if EndsBlank(h + [b]) {
      m := 1;
      assert bytes[..1] == [b];
    } else {
      var k := RunFindsBlank(h + [b], rest);
      m := k + 1;
      assert h + bytes[..m] == h + [b] + rest[..k];
    }
  }

  /** The body: one call takes what is missing, and only that. */
  lemma {:induction false} RunBody(h: seq<u8>, body: seq<u8>, length: nat, bytes: seq<u8>)
    requires |body| < length
    ensures var missing := length - |body|;
      Run(Parser(h, body, length, true, NeedMore), bytes) ==
        if |bytes| < missing then Parser(h, body + bytes, length, true, NeedMore)
        else Parser(h, body + bytes[..missing], length, true, LastByte(bytes[missing..]))
    decreases |bytes|
  {
    if bytes == [] {
      assert body + bytes == body;
    } else {
      var b, rest := bytes[0], bytes[1..];
      var missing := length - |body|;
      if missing == 1 {
        assert bytes[..1] == [b];
      } else {
        RunBody(h, body + [b], length, rest);
        assert body + [b] + rest == body + bytes;
        if |bytes| >= missing {
          assert body + [b] + rest[..missing - 1] == body + bytes[..missing];
          assert rest[missing - 1..] == bytes[missing..];
        }
      }
    }
  }

  lemma AfterBlockCompletes(h: seq<u8>, rest: seq<u8>)
    ensures AfterBlock(h, rest).result == CompleteRequest <==> ParseHeaders(h, 0) == HeaderParse(Accepted, |rest|)
    ensures AfterBlock(h, rest).result == CompleteRequest ==>
      AfterBlock(h, rest) == Parser(h, rest, |rest|, true, CompleteRequest)
  {
    var p := ParseHeaders(h, 0);
    if p.verdict == Accepted && p.length != 0 {
      RunBody(h, [], p.length, rest);
      assert [] + rest == rest && (|rest| == p.length ==> rest[..p.length] == rest);
    }
  }

  /** An exit of the header scan for a missing CRLF, for bytes after the empty
      line or for a missing empty line. */
  predicate RunsOff(v: HeaderVerdict) {
    v == Rejected(MissingCrlf) || v == Rejected(TrailingBytes) || v == Rejected(NoBlankLine)
  }

  /** The scan never runs off a block that ends at its first CRLFCRLF. */
  lemma BlockIsScanned(h: seq<u8>)
    requires FirstBlank(h)
    ensures !RunsOff(ParseHeaders(h, 0).verdict)
  {
    var requestLine, fields := SplitBlock(h);
    ParseBlock(requestLine, fields);
    FoldReasons(fields, false, 0);
  }

  /** Whatever arrives, the header that is kept ends at its first CRLFCRLF or
      holds none; it is scanned in the first case only. */
  lemma {:induction false} HeaderIsDelimited(g: seq<u8>, bytes: seq<u8>)
    requires NoBlank(g)
    ensures var header := Run(Receiving(g), bytes).header;
      NoBlank(header) || FirstBlank(header)
    decreases |bytes|
  {
    if bytes == [] {
    } else if |g| < HEADER_MAX && bytes[0] != 0 {
      var h, rest := g + [bytes[0]], bytes[1..];
      NoBlankGrows(g, bytes[0]);
      if EndsBlank(h) {
        var p := ParseHeaders(h, 0);
        if p.verdict == Accepted && p.length != 0 {
          RunBody(h, [], p.length, rest);
        }
      } else {
        HeaderIsDelimited(h, rest);
      }
    }
  }

  /** From a new request, whatever bytes arrive, completed or refused: whenever a
      header is scanned, none of the three exits is taken. */
  lemma UnreachableExits(s: seq<u8>)
    ensures EndsBlank(Run(INITIAL, s).header) ==> !RunsOff(ParseHeaders(Run(INITIAL, s).header, 0).verdict)
  {
    HeaderIsDelimited([], s);
    var h := Run(INITIAL, s).header;
    if EndsBlank(h) {
      assert BlankAt(h, |h| - 4);
      BlockIsScanned(h);
    }
  }

  lemma {:induction false} FoldReasons(fields: seq<seq<u8>>, seen: bool, length: nat)
    ensures !RunsOff(Fold(fields, seen, length, ScanField).verdict)
  {
    if fields == [] {
    } else {
      var step := ScanField(fields[0], seen, length);
      if step.Continue? {
        FoldReasons(fields[1..], step.seen, step.length);
      }
    }
  }

  lemma GoodFieldsAreLines(fields: seq<seq<u8>>)
    requires forall i :: 0 <= i < |fields| ==> FieldOk(fields[i])
    ensures Lines(fields)
  {
    forall i | 0 <= i < |fields|
      ensures NoCrlf(fields[i])
    {
      FieldHasNoCrlf(fields[i]);
    }
  }

  lemma FieldHasNoCrlf(line: seq<u8>)
    requires FieldOk(line)
    ensures NoCrlf(line)
  {
    forall i
      ensures !CrlfAt(line, i)
    {
      if 0 <= i < |line| {
        assert i < ColonOf(line) ==> IsTokenChar(line[i]);
        assert i > ColonOf(line) ==> IsValueChar(line[i]);
      }
    }
  }

  lemma RequestCompletes(s: seq<u8>, requestLine: seq<u8>, fields: seq<seq<u8>>, body: seq<u8>)
    requires GoodRequest(s, requestLine, fields, body)
    ensures Run(INITIAL, s) == Parser(Block(requestLine, fields), body, |body|, true, CompleteRequest)
  {
    var h := Block(requestLine, fields);
    GoodFieldsAreLines(fields);
    BlockIsFirstBlank(requestLine, fields);
    ParseBlock(requestLine, fields);
    FoldIff(fields, |body|);
    RunToBlank(h, 0, body);
    assert h[..0] == [] && h[0..] + body == s;
    AfterBlockCompletes(h, body);
  }

  lemma CompleteSplits(s: seq<u8>) returns (h: seq<u8>, body: seq<u8>)
    requires Run(INITIAL, s).result == CompleteRequest
    ensures s == h + body && FirstBlank(h) && |h| <= HEADER_MAX && 0 !in h
    ensures ParseHeaders(h, 0) == HeaderParse(Accepted, |body|)
  {
    var m := RunFindsBlank([], s);
    h, body := s[..m], s[m..];
    assert [] + s[..m] == h && h + body == s;
    RunToBlank(h, 0, body);
    assert h[..0] == [] && h[0..] + body == s;
    AfterBlockCompletes(h, body);
  }

  lemma AcceptedIsRequest(h: seq<u8>, body: seq<u8>)
    requires FirstBlank(h) && |h| <= HEADER_MAX && 0 !in h && ParseHeaders(h, 0) == HeaderParse(Accepted, |body|)
    ensures IsRequest(h + body)
  {
    var requestLine, fields := SplitBlock(h);
    ParseBlock(requestLine, fields);
    FoldIff(fields, |body|);
    assert GoodRequest(h + body, requestLine, fields, body);
  }

  lemma CompleteIsRequest(s: seq<u8>)
    requires Run(INITIAL, s).result == CompleteRequest
    ensures IsRequest(s)
  {
    var h, body := CompleteSplits(s);
    AcceptedIsRequest(h, body);
  }

  /** Framing exactness: one call on a whole stream completes exactly on the
      streams of the grammar. */
  lemma CompletesIffRequest(s: seq<u8>)
    ensures Feed(INITIAL, s).answer == CompleteRequest <==> IsRequest(s)
  {
    if Run(INITIAL, s).result == CompleteRequest {
      CompleteIsRequest(s);
    }
    if IsRequest(s) {
      var requestLine, fields, body :| GoodRequest(s, requestLine, fields, body);
      RequestCompletes(s, requestLine, fields, body);
    }
  }

  // ---- any fragmentation ----

  function Concat(fragments: seq<seq<u8>>): seq<u8> {
    if fragments == [] then [] else Concat(fragments[..|fragments| - 1]) + fragments[|fragments| - 1]
  }

  /** The serving loop: keep feeding while more is needed. `None` means that a
      call before the last one ended the request. */
  function FeedAll(fragments: seq<seq<u8>>): Option<Parser> {
    if fragments == [] then Some(INITIAL)
    else
      var before := FeedAll(fragments[..|fragments| - 1]);
      if before.None? || before.value.result != NeedMore then None
      else Some(Run(before.value, fragments[|fragments| - 1]))
  }

  lemma {:induction false} FeedAllIsRun(fragments: seq<seq<u8>>)
    requires FeedAll(fragments).Some?
    ensures FeedAll(fragments).value == Run(INITIAL, Concat(fragments))
  {
    if fragments == [] {
    } else {
      var init, last := fragments[..|fragments| - 1], fragments[|fragments| - 1];
      FeedAllIsRun(init);
      RunSplit(INITIAL, Concat(init), last);
    }
  }

  /** A proper prefix of a request still needs more. */
  lemma PrefixNeedsMore(s1: seq<u8>, s2: seq<u8>)
    requires IsRequest(s1 + s2) && s2 != []
    ensures Run(INITIAL, s1).result == NeedMore
  {
    CompletesIffRequest(s1 + s2);
    RunSplit(INITIAL, s1, s2);
  }

  lemma {:induction false} RequestIsFedThrough(fragments: seq<seq<u8>>, s2: seq<u8>)
    requires IsRequest(Concat(fragments) + s2) && s2 != []
    ensures FeedAll(fragments).Some? && FeedAll(fragments).value.result == NeedMore
  {
    if fragments == [] {
    } else {
      var init, last := fragments[..|fragments| - 1], fragments[|fragments| - 1];
      assert Concat(fragments) + s2 == Concat(init) + (last + s2);
      RequestIsFedThrough(init, last + s2);
      FeedAllIsRun(fragments);
      PrefixNeedsMore(Concat(fragments), s2);
    }
  }

  /** However the stream arrives, the loop ends COMPLETE exactly when the bytes
      it received are one request; no fragment may follow the last byte. */
  lemma AnyFragmentation(fragments: seq<seq<u8>>)
    requires fragments != [] && fragments[|fragments| - 1] != []
    ensures (FeedAll(fragments).Some? && FeedAll(fragments).value.result == CompleteRequest)
      <==> IsRequest(Concat(fragments))
  {
    var init, last := fragments[..|fragments| - 1], fragments[|fragments| - 1];
    CompletesIffRequest(Concat(fragments));
    if IsRequest(Concat(fragments)) {
      RequestIsFedThrough(init, last);
      FeedAllIsRun(fragments);
    } else if FeedAll(fragments).Some? {
      FeedAllIsRun(fragments);
    }
  }

  // ---- the serving loop ----

  /** One turn: bytes from the peer, or the end of waiting (the deadline, a failed
      wait or receive, a closed connection). */
  datatype Turn = Received(bytes: seq<u8>) | Stopped

  /** What the loop answers after these turns; NEED_MORE while it waits. */
  function Serve(st: Parser, turns: seq<Turn>): ParseResult
    decreases |turns|
  {
    if turns == [] then NeedMore
    else if turns[0].Stopped? || turns[0].bytes == [] then Invalid
    else
      var o := Feed(st, turns[0].bytes);
      if o.answer == NeedMore then Serve(o.parser, turns[1..]) else o.answer
  }

  /** The first `n` turns brought bytes, and these together. */
  ghost predicate Delivers(turns: seq<Turn>, n: nat, s: seq<u8>)
    requires n <= |turns|
    decreases n
  {
    if n == 0 then s == []
    else
      && turns[0].Received? && turns[0].bytes != [] && turns[0].bytes <= s
      && Delivers(turns[1..], n - 1, s[|turns[0].bytes|..])
  }

  lemma {:induction false} ServeCompletes(st: Parser, turns: seq<Turn>, n: nat, s: seq<u8>)
    requires st.result == NeedMore && n <= |turns| && Delivers(turns, n, s) && s != []
    requires Run(st, s).result == CompleteRequest
    ensures Serve(st, turns) == CompleteRequest
    decreases n
  {
    var b := turns[0].bytes;
    var rest := s[|b|..];
    assert s == b + rest;
    RunSplit(st, b, rest);
    if rest == [] {
    } else {
      ServeCompletes(Run(st, b), turns[1..], n - 1, rest);
    }
  }

  lemma {:induction false} CompleteWasDelivered(st: Parser, turns: seq<Turn>) returns (n: nat, s: seq<u8>)
    requires st.result == NeedMore && Serve(st, turns) == CompleteRequest
    ensures 0 < n <= |turns| && Delivers(turns, n, s) && Run(st, s).result == CompleteRequest
    decreases |turns|
  {
    var b := turns[0].bytes;
    if Run(st, b).result == NeedMore {
      var m, t := CompleteWasDelivered(Run(st, b), turns[1..]);
      n, s := m + 1, b + t;
      assert s[|b|..] == t;
      RunSplit(st, b, t);
    } else {
      n, s := 1, b;
      assert s[|b|..] == [];
    }
  }

  /** The first `n` turns deliver one well-framed request. */
  ghost predicate DeliversRequest(turns: seq<Turn>, n: nat, s: seq<u8>) {
    n <= |turns| && Delivers(turns, n, s) && IsRequest(s)
  }

  lemma DeliveredCompletes(turns: seq<Turn>, n: nat, s: seq<u8>)
    requires DeliversRequest(turns, n, s)
    ensures Serve(INITIAL, turns) == CompleteRequest
  {
    CompletesIffRequest(s);
    ServeCompletes(INITIAL, turns, n, s);
  }

  /** The serving loop completes exactly if the turns before the end of waiting
      deliver one well-framed request, and nothing comes with its last byte; how
      the bytes are cut into turns does not matter. */
  lemma ServesIffRequest(turns: seq<Turn>)
    ensures Serve(INITIAL, turns) == CompleteRequest <==> exists n: nat, s :: DeliversRequest(turns, n, s)
  {
    if Serve(INITIAL, turns) == CompleteRequest {
      var n, s := CompleteWasDelivered(INITIAL, turns);
      CompletesIffRequest(s);
      assert DeliversRequest(turns, n, s);
    }
    forall n: nat, s | DeliversRequest(turns, n, s) {
      DeliveredCompletes(turns, n, s);
    }
  }

  lemma ServeInvalidWhenStopped(st: Parser, turns: seq<Turn>, n: nat, s: seq<u8>)
    requires st.result == NeedMore && n < |turns| && Delivers(turns, n, s)
    requires turns[n].Stopped? || turns[n].bytes == []
    requires Run(st, s).result == NeedMore
    ensures Serve(st, turns) == Invalid
    decreases n
  {
    if n == 0 {
    } else {
      var b := turns[0].bytes;
      var rest := s[|b|..];
      assert s == b + rest;
      RunSplit(st, b, rest);
      assert Run(st, b).result == NeedMore;
      ServeInvalidWhenStopped(Run(st, b), turns[1..], n - 1, rest);
    }
  }

  /** A connection that ends before its request is complete is answered INVALID. */
  lemma StoppedIsInvalid(turns: seq<Turn>, n: nat, s: seq<u8>)
    requires n < |turns| && Delivers(turns, n, s) && (turns[n].Stopped? || turns[n].bytes == [])
    requires Feed(INITIAL, s).answer == NeedMore
    ensures Serve(INITIAL, turns) == Invalid
  {
    ServeInvalidWhenStopped(INITIAL, turns, n, s);
  }
}
