/** Exactly when a new request is answered with each of the four results. */
module HttpAnswers {
  import opened Bytes
  import opened Decimals
  import opened Http
  import opened HttpFraming
  import opened HttpGrammar

  // ---- the head ----

  /** CR LF CR LF at `i`. */
  predicate EmptyLineAt(s: seq<u8>, i: nat) {
    i + 4 <= |s| && s[i] == 13 && s[i + 1] == 10 && s[i + 2] == 13 && s[i + 3] == 10
  }

  ghost predicate NoEmptyLine(s: seq<u8>) {
    forall i: nat :: !EmptyLineAt(s, i)
  }

  /** The stream is still a head: not too long, no NUL, no empty line yet. */
  ghost predicate StillHead(s: seq<u8>) { |s| <= 8192 && 0 !in s && NoEmptyLine(s) }

  /** More than 8192 bytes, the first 8192 of which are still a head. */
  ghost predicate HeadTooLong(s: seq<u8>) { |s| > 8192 && StillHead(s[..8192]) }

  /** A NUL in what is still a head. */
  ghost predicate NulInHead(s: seq<u8>) {
    exists m :: 0 <= m < |s| && m < 8192 && s[m] == 0 && StillHead(s[..m])
  }

  /** The first `m` bytes are a head that ends at its first empty line. */
  ghost predicate HeadEnds(s: seq<u8>, m: nat) {
    && 4 <= m <= |s| && m <= 8192 && 0 !in s[..m] && EmptyLineAt(s, m - 4)
    && forall i: nat :: EmptyLineAt(s, i) ==> m - 4 <= i
  }

  lemma EmptyLineIff(s: seq<u8>, i: nat)
    ensures EmptyLineAt(s, i) <==> BlankAt(s, i)
  {
  }

  lemma NoEmptyLineIff(s: seq<u8>)
    ensures NoEmptyLine(s) <==> NoBlank(s)
  {
    forall i
      ensures BlankAt(s, i) ==> i >= 0 && EmptyLineAt(s, i)
    {
    }
    assert forall i: nat :: EmptyLineAt(s, i) ==> BlankAt(s, i);
  }

  lemma HeadEndsIff(s: seq<u8>, m: nat)
    requires m <= |s|
    ensures HeadEnds(s, m) <==> m <= 8192 && 0 !in s[..m] && FirstBlank(s[..m])
  {
    var h := s[..m];
    if HeadEnds(s, m) {
      assert CrlfAt(h, m - 4) && CrlfAt(h, m - 2);
      forall i | BlankAt(h, i)
        ensures i + 4 == m
      {
        assert EmptyLineAt(s, i);
      }
    }
    if FirstBlank(h) {
      assert m >= 4 && BlankAt(h, m - 4);
      forall i: nat | EmptyLineAt(s, i)
        ensures m - 4 <= i
      {
        if i + 4 <= m {
          assert BlankAt(h, i);
        }
      }
    }
  }

  /** Every stream is in one of the four situations. */
  lemma {:induction false} Situations(s: seq<u8>, m: nat)
    requires m <= |s| && StillHead(s[..m])
    ensures StillHead(s) || HeadTooLong(s) || NulInHead(s) || exists n: nat :: HeadEnds(s, n)
    decreases |s| - m
  {
    if m == |s| {
      assert s[..m] == s;
    } else if m == 8192 || s[m] == 0 {
    } else {
      NoEmptyLineIff(s[..m]);
      NoBlankGrows(s[..m], s[m]);
      assert s[..m] + [s[m]] == s[..m + 1];
      NoEmptyLineIff(s[..m + 1]);
      if NoBlank(s[..m + 1]) {
        Situations(s, m + 1);
      } else {
        HeadEndsIff(s, m + 1);
      }
    }
  }

  lemma {:induction false} HeadIsKept(s: seq<u8>)
    requires StillHead(s)
    ensures Run(INITIAL, s) == Receiving(s)
  {
    if s == [] {
    } else {
      var n := |s| - 1;
      StillHeadPrefix(s, n);
      HeadIsKept(s[..n]);
      assert s == s[..n] + [s[n]];
      RunSplit(INITIAL, s[..n], [s[n]]);
      NoEmptyLineIff(s);
      OneMore(s[..n], s[n]);
    }
  }

  lemma StillHeadPrefix(s: seq<u8>, n: nat)
    requires StillHead(s) && n <= |s|
    ensures StillHead(s[..n])
  {
    forall i: nat
      ensures !EmptyLineAt(s[..n], i)
    {
      assert !EmptyLineAt(s, i);
    }
  }

  lemma OneMore(g: seq<u8>, b: u8)
    requires |g| < 8192 && b != 0 && NoBlank(g + [b])
    ensures Run(Receiving(g), [b]) == Receiving(g + [b])
  {
    var h := g + [b];
    assert !BlankAt(h, |h| - 4);
    assert [b][1..] == [];
  }

  lemma TooLongIsExhausted(s: seq<u8>)
    requires HeadTooLong(s)
    ensures Run(INITIAL, s).result == Exhausted
  {
    HeadIsKept(s[..8192]);
    assert s == s[..8192] + s[8192..];
    RunSplit(INITIAL, s[..8192], s[8192..]);
  }

  lemma NulIsInvalid(s: seq<u8>)
    requires NulInHead(s)
    ensures Run(INITIAL, s).result == Invalid
  {
    var m :| 0 <= m < |s| && m < 8192 && s[m] == 0 && StillHead(s[..m]);
    HeadIsKept(s[..m]);
    assert s == s[..m] + s[m..] && s[m..][0] == 0;
    RunSplit(INITIAL, s[..m], s[m..]);
  }

  lemma HeadIsScanned(s: seq<u8>, m: nat)
    requires HeadEnds(s, m)
    ensures Run(INITIAL, s) == AfterBlock(s[..m], s[m..])
  {
    HeadEndsIff(s, m);
    RunToBlank(s[..m], 0, s[m..]);
    assert s[..m][..0] == [] && s[..m][0..] + s[m..] == s;
  }

  // ---- the body ----

  /** A head that says `n` is followed by `k` bytes. */
  lemma BodyAnswers(h: seq<u8>, rest: seq<u8>)
    ensures var p := ParseHeaders(h, 0);
      var r := AfterBlock(h, rest).result;
      && (r == NeedMore <==> p.verdict == Accepted && |rest| < p.length)
      && (r == CompleteRequest <==> p.verdict == Accepted && |rest| == p.length)
      && (r == Exhausted <==> p.verdict == LengthTooBig)
      && (r == Invalid <==> p.verdict.Rejected? || (p.verdict == Accepted && |rest| > p.length))
  {
    var p := ParseHeaders(h, 0);
    if p.verdict == Accepted && p.length != 0 {
      RunBody(h, [], p.length, rest);
    }
  }

  // ---- a length that is too big ----

  /** The first `m` characters are digits of a number above 5176. */
  predicate ExceedsWith(t: seq<u8>, m: nat) {
    m <= |t| && AllDigits(t[..m]) && Decimal(t[..m]) > 5176
  }

  /** Some leading digits already make a number above 5176. */
  ghost predicate Excessive(t: seq<u8>) {
    exists m: nat :: ExceedsWith(t, m)
  }

  lemma {:induction false} ScanExcessIff(t: seq<u8>)
    ensures ScanDigits(t) == OverLimit <==> Excessive(t)
  {
    if t == [] {
    } else {
      ScanExcessIff(t[..|t| - 1]);
      ScanIsDecimalOf(t[..|t| - 1]);
      ScanIsDecimalOf(t);
      ExcessGrows(t);
      ScanNext(t);
      WholeExceeds(t[..|t| - 1]);
      assert AllDigits(t) ==> AllDigits(t[..|t| - 1]);
    }
  }

  lemma WholeExceeds(t: seq<u8>)
    ensures AllDigits(t) && Decimal(t) > 5176 ==> Excessive(t)
  {
    assert t[..|t|] == t;
    assert AllDigits(t) && Decimal(t) > 5176 ==> ExceedsWith(t, |t|);
  }

  lemma ScanNext(t: seq<u8>)
    requires t != []
    ensures var r := ScanDigits(t[..|t| - 1]);
      ScanDigits(t) == OverLimit <==> r == OverLimit || (r.Length? && AllDigits(t) && !ScanDigits(t).Length?)
  {
    var init, last := t[..|t| - 1], t[|t| - 1];
    ScanIsDecimalOf(init);
    assert AllDigits(t) <==> AllDigits(init) && IsDigit(last) by {
      assert t == init + [last];
    }
  }

  lemma ScanIsDecimalOf(t: seq<u8>)
    ensures ScanDigits(t).Length? <==> AllDigits(t) && Decimal(t) <= 5176
    ensures ScanDigits(t).Length? ==> ScanDigits(t).n == Decimal(t)
  {
    if ScanDigits(t).Length? {
      ScanIsDecimal(t, ScanDigits(t).n);
    }
    if AllDigits(t) {
      ScanIsDecimal(t, Decimal(t));
    }
  }

  lemma ExcessGrows(t: seq<u8>)
    requires t != []
    ensures Excessive(t) <==> Excessive(t[..|t| - 1]) || (AllDigits(t) && Decimal(t) > 5176)
  {
    var n := |t| - 1;
    forall m: nat | m <= n
      ensures ExceedsWith(t, m) <==> ExceedsWith(t[..n], m)
    {
      assert t[..m] == t[..n][..m];
    }
    assert ExceedsWith(t, |t|) <==> AllDigits(t) && Decimal(t) > 5176 by {
      assert t[..|t|] == t;
    }
  }

  /** A well-formed line that neither ends the scan nor counts. */
  predicate Plain(line: seq<u8>) { FieldOk(line) && !IsTransferEncoding(line) && !IsLengthField(line) }

  ghost predicate SaysExcess(line: seq<u8>) {
    FieldOk(line) && IsLengthField(line) && Excessive(Trim(ValueOf(line)))
  }

  /** Line `k` is the first that is not plain, and it is bad. */
  ghost predicate FirstAt(lines: seq<seq<u8>>, plain: seq<u8> -> bool, bad: seq<u8> -> bool, k: nat)
    requires k < |lines|
  {
    bad(lines[k]) && forall i :: 0 <= i < k ==> plain(lines[i])
  }

  ghost predicate SomeFirst(lines: seq<seq<u8>>, plain: seq<u8> -> bool, bad: seq<u8> -> bool) {
    exists k :: 0 <= k < |lines| && FirstAt(lines, plain, bad, k)
  }

  ghost function PlainTest(): seq<u8> -> bool { line => Plain(line) }

  ghost function ExcessTest(): seq<u8> -> bool { line => SaysExcess(line) }

  /** The first Content-Length, after plain lines, has an excessive value. */
  ghost predicate TooBig(fields: seq<seq<u8>>) { SomeFirst(fields, PlainTest(), ExcessTest()) }

  lemma LengthIsNotTransfer(line: seq<u8>)
    requires IsLengthField(line)
    ensures !IsTransferEncoding(line)
  {
  }

  lemma {:induction false} SeenIsNeverTooBig(fields: seq<seq<u8>>, length: nat)
    ensures Fold(fields, true, length, ScanField).verdict != LengthTooBig
  {
    if fields == [] {
    } else {
      SeenIsNeverTooBig(fields[1..], length);
    }
  }

  lemma FirstHead(lines: seq<seq<u8>>, plain: seq<u8> -> bool, bad: seq<u8> -> bool)
    requires lines != []
    ensures SomeFirst(lines, plain, bad) <==>
      bad(lines[0]) || (plain(lines[0]) && SomeFirst(lines[1..], plain, bad))
  {
    var tail := lines[1..];
    forall k | 0 <= k < |tail|
      ensures FirstAt(lines, plain, bad, k + 1) <==> plain(lines[0]) && FirstAt(tail, plain, bad, k)
    {
      assert lines == [lines[0]] + tail;
    }
    assert bad(lines[0]) <==> FirstAt(lines, plain, bad, 0);
    if SomeFirst(lines, plain, bad) {
      var k :| 0 <= k < |lines| && FirstAt(lines, plain, bad, k);
      if k > 0 {
        assert FirstAt(lines, plain, bad, k - 1 + 1);
        assert FirstAt(tail, plain, bad, k - 1);
      }
    }
    if plain(lines[0]) && SomeFirst(tail, plain, bad) {
      var k :| 0 <= k < |tail| && FirstAt(tail, plain, bad, k);
      assert FirstAt(lines, plain, bad, k + 1);
    }
  }

  lemma {:induction false} FoldTooBigIff(fields: seq<seq<u8>>)
    ensures Fold(fields, false, 0, ScanField).verdict == LengthTooBig <==> TooBig(fields)
  {
    if fields == [] {
    } else {
      var line := fields[0];
      FirstHead(fields, PlainTest(), ExcessTest());
      FoldTooBigIff(fields[1..]);
      if IsLengthField(line) {
        LengthIsNotTransfer(line);
        ScanExcessIff(Trim(ValueOf(line)));
        if ParseLength(ValueOf(line)).Length? {
          SeenIsNeverTooBig(fields[1..], ParseLength(ValueOf(line)).n);
        }
      }
    }
  }

  // ---- the answers ----

  /** The lines of a delimited head. */
  ghost predicate HasLines(s: seq<u8>, m: nat, requestLine: seq<u8>, lines: seq<seq<u8>>) {
    && HeadEnds(s, m) && s[..m] == requestLine + [13, 10] + (TextOf(lines) + [13, 10]) && !HasBreak(requestLine)
    && forall i :: 0 <= i < |lines| ==> lines[i] != [] && !HasBreak(lines[i])
  }

  /** A head whose fields say a body of `n` bytes, in the literal grammar. */
  ghost predicate SaysBody(requestLine: seq<u8>, lines: seq<seq<u8>>, n: nat) {
    && requestLine != [] && n <= 5176
    && (forall i :: 0 <= i < |lines| ==> IsLine(lines[i]) && !Named(lines[i], TRANSFER_ENCODING_WORD))
    && BodyLength(lines, n)
  }

  /** The first Content-Length field, after well-formed lines, has a value whose
      leading digits exceed 5176. */
  ghost predicate SaysTooMuch(requestLine: seq<u8>, lines: seq<seq<u8>>) {
    requestLine != [] && exists k :: 0 <= k < |lines| && ExceedsAt(lines, k)
  }

  ghost predicate ExceedsAt(lines: seq<seq<u8>>, k: nat)
    requires k < |lines|
  {
    && Named(lines[k], CONTENT_LENGTH_WORD) && (exists t :: HasValue(lines[k], t) && Excessive(t))
    && forall i :: 0 <= i < k ==>
         IsLine(lines[i]) && !Named(lines[i], TRANSFER_ENCODING_WORD) && !Named(lines[i], CONTENT_LENGTH_WORD)
  }

  lemma ExceedsIff(lines: seq<seq<u8>>, k: nat)
    requires k < |lines|
    ensures ExceedsAt(lines, k) <==> FirstAt(lines, PlainTest(), ExcessTest(), k)
  {
    forall i | 0 <= i < |lines|
      ensures IsLine(lines[i]) <==> FieldOk(lines[i])
      ensures FieldOk(lines[i]) ==>
        && (Named(lines[i], TRANSFER_ENCODING_WORD) <==> IsTransferEncoding(lines[i]))
        && (Named(lines[i], CONTENT_LENGTH_WORD) <==> IsLengthField(lines[i]))
    {
      IsLineIff(lines[i]);
      if FieldOk(lines[i]) {
        LineIff(lines[i]);
      }
    }
    if FieldOk(lines[k]) {
      forall t
        ensures HasValue(lines[k], t) <==> t == Trim(ValueOf(lines[k]))
      {
        HasValueIff(lines[k], t);
      }
    }
    NamedIsLine(lines[k]);
  }

  lemma NamedIsLine(line: seq<u8>)
    ensures Named(line, CONTENT_LENGTH_WORD) ==> IsLine(line)
  {
  }

  /** What the scan of a delimited head says, in the literal grammar. */
  lemma ScanAnswers(s: seq<u8>, m: nat, requestLine: seq<u8>, lines: seq<seq<u8>>, n: nat)
    requires HasLines(s, m, requestLine, lines)
    ensures ParseHeaders(s[..m], 0) == HeaderParse(Accepted, n) <==> SaysBody(requestLine, lines, n)
    ensures ParseHeaders(s[..m], 0).verdict == LengthTooBig <==> SaysTooMuch(requestLine, lines)
  {
    TextIsJoin(lines);
    assert CRLF == [13, 10];
    assert s[..m] == Block(requestLine, lines);
    BreakIff(requestLine);
    forall i | 0 <= i < |lines|
      ensures NoCrlf(lines[i])
    {
      BreakIff(lines[i]);
    }
    ParseBlock(requestLine, lines);
    FoldIff(lines, n);
    LinesIff(lines, n);
    FoldTooBigIff(lines);
    forall k | 0 <= k < |lines|
      ensures ExceedsAt(lines, k) <==> FirstAt(lines, PlainTest(), ExcessTest(), k)
    {
      ExceedsIff(lines, k);
    }
  }

  /** A delimited head has lines. */
  lemma HeadHasLines(s: seq<u8>, m: nat) returns (requestLine: seq<u8>, lines: seq<seq<u8>>)
    requires HeadEnds(s, m)
    ensures HasLines(s, m, requestLine, lines)
  {
    HeadEndsIff(s, m);
    requestLine, lines := SplitBlock(s[..m]);
    TextIsJoin(lines);
    BreakIff(requestLine);
    forall i | 0 <= i < |lines|
      ensures !HasBreak(lines[i])
    {
      BreakIff(lines[i]);
    }
  }

  /** Before the head is complete. */
  lemma HeadAnswers(s: seq<u8>)
    ensures StillHead(s) ==> Feed(INITIAL, s).answer == NeedMore
    ensures HeadTooLong(s) ==> Feed(INITIAL, s).answer == Exhausted
    ensures NulInHead(s) ==> Feed(INITIAL, s).answer == Invalid
    ensures StillHead(s) || HeadTooLong(s) || NulInHead(s) || exists m: nat :: HeadEnds(s, m)
  {
    assert s[..0] == [];
    Situations(s, 0);
    if StillHead(s) { HeadIsKept(s); }
    if HeadTooLong(s) { TooLongIsExhausted(s); }
    if NulInHead(s) { NulIsInvalid(s); }
  }

  /** After a complete head of `m` bytes: more is needed while the body is short, the
      request is complete with its last byte, resources are exhausted by a length
      above the limit, and anything else is invalid. */
  lemma RequestAnswers(s: seq<u8>, m: nat, requestLine: seq<u8>, lines: seq<seq<u8>>)
    requires HasLines(s, m, requestLine, lines)
    ensures var answer := Feed(INITIAL, s).answer;
      && (answer == NeedMore <==> exists n: nat :: SaysBody(requestLine, lines, n) && |s| < m + n)
      && (answer == CompleteRequest <==> SaysBody(requestLine, lines, |s| - m))
      && (answer == Exhausted <==> SaysTooMuch(requestLine, lines))
  {
    HeadIsScanned(s, m);
    BodyAnswers(s[..m], s[m..]);
    forall n: nat
      ensures ParseHeaders(s[..m], 0) == HeaderParse(Accepted, n) <==> SaysBody(requestLine, lines, n)
    {
      ScanAnswers(s, m, requestLine, lines, n);
    }
    ScanAnswers(s, m, requestLine, lines, 0);
    var p := ParseHeaders(s[..m], 0);
    if p.verdict == Accepted {
      assert SaysBody(requestLine, lines, p.length);
    }
  }

  /** A finished request takes no more bytes: it repeats its result when it is given
      none, and answers INVALID otherwise. */
  lemma FinishedAnswers(st: Parser, bytes: seq<u8>)
    requires st.result != NeedMore
    ensures Feed(st, bytes).parser == st
    ensures bytes == [] ==> Feed(st, bytes).answer == st.result
    ensures bytes != [] ==> Feed(st, bytes).answer == Invalid
  {
  }
}
