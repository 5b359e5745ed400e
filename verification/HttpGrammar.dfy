/** The requests of the endpoint in literal bytes, with no reference to how the
    parser scans, compares names, trims or limits. */
module HttpGrammar {
  import opened Bytes
  import opened Decimals
  import opened Http
  import opened HttpFraming
  import opened HttpToken

  // ---- characters ----

  /** A letter or digit, or one of !#$%&'*+-.^_`|~ (section 5.6.2 of RFC 9110). */
  predicate Tchar(c: u8) {
    || 48 <= c <= 57 || 65 <= c <= 90 || 97 <= c <= 122
    || c == 33 || c == 35 || c == 36 || c == 37 || c == 38 || c == 39 || c == 42 || c == 43 || c == 45
    || c == 46 || c == 94 || c == 95 || c == 96 || c == 124 || c == 126
  }

  /** A tab, a space, a visible character or a byte above ASCII. */
  predicate FieldChar(c: u8) { c == 9 || 32 <= c <= 126 || 128 <= c }

  /** Equal, or a letter and its lower case. */
  predicate SameLetter(c: u8, lower: u8) { c == lower || (65 <= c <= 90 && lower == c + 32) }

  /** The name is this lower-case word up to case. */
  predicate Spells(name: seq<u8>, lower: seq<u8>) {
    |name| == |lower| && forall i :: 0 <= i < |name| ==> SameLetter(name[i], lower[i])
  }

  const CONTENT_LENGTH_WORD: seq<u8> := [99, 111, 110, 116, 101, 110, 116, 45, 108, 101, 110, 103, 116, 104]
  const TRANSFER_ENCODING_WORD: seq<u8> :=
    [116, 114, 97, 110, 115, 102, 101, 114, 45, 101, 110, 99, 111, 100, 105, 110, 103]
  const MESHD_TOKEN_WORD: seq<u8> := [120, 45, 109, 101, 115, 104, 100, 45, 116, 111, 107, 101, 110]

  /** Two names are the same up to case exactly if they have one length and each
      pair of bytes is equal or a letter and its other case. */
  lemma SameNameIff(x: seq<u8>, y: seq<u8>)
    ensures SameName(x, y) <==>
      |x| == |y| && forall i :: 0 <= i < |x| ==>
        x[i] == y[i] || (65 <= x[i] <= 90 && y[i] == x[i] + 32) || (65 <= y[i] <= 90 && x[i] == y[i] + 32)
  {
    assert forall c: u8, d: u8 :: Lower(c) == Lower(d) <==>
      c == d || (65 <= c <= 90 && d == c + 32) || (65 <= d <= 90 && c == d + 32);
  }

  /** The constant is the word, up to case. */
  ghost predicate Capitalizes(name: seq<u8>, lower: seq<u8>) {
    && |name| == |lower|
    && (forall i :: 0 <= i < |lower| ==> !(65 <= lower[i] <= 90))
    && forall i :: 0 <= i < |lower| ==> Lower(name[i]) == lower[i]
  }

  lemma SpellsIff(name: seq<u8>, word: seq<u8>, lower: seq<u8>)
    requires Capitalizes(word, lower)
    ensures SameName(name, word) <==> Spells(name, lower)
  {
    if |name| == |word| {
      assert forall i :: 0 <= i < |name| ==> (Lower(name[i]) == Lower(word[i]) <==> SameLetter(name[i], lower[i]));
    }
  }

  lemma ContentLengthBytes()
    ensures CONTENT_LENGTH == [67, 111, 110, 116, 101, 110, 116, 45, 76, 101, 110, 103, 116, 104]
  {
  }

  lemma TransferEncodingBytes()
    ensures TRANSFER_ENCODING ==
      [84, 114, 97, 110, 115, 102, 101, 114, 45, 69, 110, 99, 111, 100, 105, 110, 103]
  {
  }

  lemma TokenBytes()
    ensures TOKEN_NAME == [88, 45, 77, 101, 115, 104, 100, 45, 84, 111, 107, 101, 110]
  {
  }

  lemma ContentLengthWord()
    ensures Capitalizes(CONTENT_LENGTH, CONTENT_LENGTH_WORD)
  {
    ContentLengthBytes();
  }

  lemma TransferEncodingWord()
    ensures Capitalizes(TRANSFER_ENCODING, TRANSFER_ENCODING_WORD)
  {
    TransferEncodingBytes();
  }

  lemma TokenWord()
    ensures Capitalizes(TOKEN_NAME, MESHD_TOKEN_WORD)
  {
    TokenBytes();
  }

  // ---- field lines ----

  /** A field line: a non-empty name of token characters, a colon, a value. */
  ghost predicate IsField(line: seq<u8>, name: seq<u8>, value: seq<u8>) {
    && line == name + [58] + value && name != []
    && (forall i :: 0 <= i < |name| ==> Tchar(name[i]))
    && forall i :: 0 <= i < |value| ==> FieldChar(value[i])
  }

  lemma CharsIff(c: u8)
    ensures Tchar(c) <==> IsTokenChar(c)
    ensures FieldChar(c) <==> IsValueChar(c)
  {
  }

  /** A line splits into name and value in at most one way, the parser's. */
  lemma FieldIs(line: seq<u8>, name: seq<u8>, value: seq<u8>)
    requires IsField(line, name, value)
    ensures FieldOk(line) && NameOf(line) == name && ValueOf(line) == value
  {
    forall c: u8 { CharsIff(c); }
    assert line[|name|] == 58;
    assert forall i :: 0 <= i < |name| ==> line[i] == name[i] && line[i] != 58;
    assert ColonOf(line) == |name|;
    assert line[..|name|] == name && line[|name| + 1..] == value;
    assert forall i :: |name| < i < |line| ==> line[i] == value[i - |name| - 1];
  }

  lemma FieldOkIs(line: seq<u8>)
    requires FieldOk(line)
    ensures IsField(line, NameOf(line), ValueOf(line))
  {
    forall c: u8 { CharsIff(c); }
    var c := ColonOf(line);
    assert line == line[..c] + [line[c]] + line[c + 1..];
  }

  /** Trimming drops spaces and tabs from both ends, and only those. */
  ghost predicate IsTrimmed(s: seq<u8>, t: seq<u8>) {
    exists i, j :: 0 <= i <= j <= |s| && TrimmedAt(s, t, i, j)
  }

  ghost predicate TrimmedAt(s: seq<u8>, t: seq<u8>, i: nat, j: nat)
    requires i <= j <= |s|
  {
    && t == s[i..j]
    && (forall k :: 0 <= k < i ==> s[k] == 32 || s[k] == 9)
    && (forall k :: j <= k < |s| ==> s[k] == 32 || s[k] == 9)
    && (i < j ==> !(s[i] == 32 || s[i] == 9) && !(s[j - 1] == 32 || s[j - 1] == 9))
  }

  lemma {:induction false} TrimLeftAt(s: seq<u8>) returns (i: nat)
    ensures i <= |s| && TrimLeft(s) == s[i..]
    ensures (forall k :: 0 <= k < i ==> s[k] == 32 || s[k] == 9) && (i < |s| ==> !(s[i] == 32 || s[i] == 9))
  {
    if s != [] && IsBlank(s[0]) {
      var j := TrimLeftAt(s[1..]);
      i := j + 1;
    } else {
      i := 0;
    }
  }

  lemma {:induction false} TrimRightAt(s: seq<u8>) returns (j: nat)
    ensures j <= |s| && TrimRight(s) == s[..j]
    ensures (forall k :: j <= k < |s| ==> s[k] == 32 || s[k] == 9) && (0 < j ==> !(s[j - 1] == 32 || s[j - 1] == 9))
  {
    if s != [] && IsBlank(s[|s| - 1]) {
      j := TrimRightAt(s[..|s| - 1]);
      assert s[..|s| - 1][..j] == s[..j];
    } else {
      j := |s|;
    }
  }

  lemma TrimIsTrimmed(s: seq<u8>)
    ensures IsTrimmed(s, Trim(s))
  {
    var i := TrimLeftAt(s);
    var t := s[i..];
    var j := TrimRightAt(t);
    assert t[..j] == s[i..i + j];
    assert forall k :: i + j <= k < |s| ==> s[k] == t[k - i];
    assert j > 0 ==> s[i + j - 1] == t[j - 1] && s[i] == t[0];
    assert TrimmedAt(s, Trim(s), i, i + j);
  }

  /** There is one trimmed value. */
  lemma TrimmedIsTrim(s: seq<u8>, t: seq<u8>)
    requires IsTrimmed(s, t)
    ensures t == Trim(s)
  {
    TrimIsTrimmed(s);
    var i, j :| 0 <= i <= j <= |s| && TrimmedAt(s, t, i, j);
    var i', j' :| 0 <= i' <= j' <= |s| && TrimmedAt(s, Trim(s), i', j');
    TrimmedUnique(s, t, i, j, Trim(s), i', j');
  }

  lemma TrimmedUnique(s: seq<u8>, t: seq<u8>, i: nat, j: nat, t': seq<u8>, i': nat, j': nat)
    requires i <= j <= |s| && i' <= j' <= |s| && TrimmedAt(s, t, i, j) && TrimmedAt(s, t', i', j')
    ensures t == t'
  {
    if i < j {
      assert i' <= i && j <= j';
    }
    if i' < j' {
      assert i <= i' && j' <= j;
    }
  }

  // ---- requests ----

  /** A field that is named like this word. */
  ghost predicate Named(line: seq<u8>, lower: seq<u8>) {
    exists name, value :: IsField(line, name, value) && Spells(name, lower)
  }

  ghost predicate HasValue(line: seq<u8>, t: seq<u8>) {
    exists name, value :: IsField(line, name, value) && IsTrimmed(value, t)
  }

  /** The trimmed value is the decimal numeral of `n`, leading zeros allowed. */
  ghost predicate CountsBytes(line: seq<u8>, n: nat) {
    exists t :: HasValue(line, t) && IsDecimal(t) && Decimal(t) == n
  }

  lemma NamedIff(line: seq<u8>, word: seq<u8>, lower: seq<u8>)
    requires FieldOk(line) && Capitalizes(word, lower)
    ensures Named(line, lower) <==> SameName(NameOf(line), word)
  {
    SpellsIff(NameOf(line), word, lower);
    FieldOkIs(line);
    forall name, value | IsField(line, name, value)
      ensures name == NameOf(line)
    {
      FieldIs(line, name, value);
    }
  }

  lemma HasValueIff(line: seq<u8>, t: seq<u8>)
    requires FieldOk(line)
    ensures HasValue(line, t) <==> t == Trim(ValueOf(line))
  {
    FieldOkIs(line);
    TrimIsTrimmed(ValueOf(line));
    if HasValue(line, t) {
      var name, value :| IsField(line, name, value) && IsTrimmed(value, t);
      FieldIs(line, name, value);
      TrimmedIsTrim(value, t);
    }
  }

  lemma CountsBytesIff(line: seq<u8>, n: nat)
    requires FieldOk(line)
    ensures CountsBytes(line, n) <==> SaysLength(line, n)
  {
    forall t
      ensures HasValue(line, t) <==> t == Trim(ValueOf(line))
    {
      HasValueIff(line, t);
    }
  }

  /** Lines, each ended by CR and LF. */
  function TextOf(lines: seq<seq<u8>>): seq<u8> {
    if lines == [] then [] else lines[0] + [13, 10] + TextOf(lines[1..])
  }

  ghost predicate HasBreak(line: seq<u8>) {
    exists i :: 0 <= i < |line| - 1 && line[i] == 13 && line[i + 1] == 10
  }

  ghost predicate IsLine(line: seq<u8>) { exists name, value :: IsField(line, name, value) }

  /** The fields say how long the body is: the only Content-Length field does, or
      there is none and the body is empty. */
  ghost predicate BodyLength(lines: seq<seq<u8>>, n: nat) {
    || (n == 0 && forall i :: 0 <= i < |lines| ==> !Named(lines[i], CONTENT_LENGTH_WORD))
    || exists k :: 0 <= k < |lines| && OnlyCounter(lines, k) && CountsBytes(lines[k], n)
  }

  ghost predicate OnlyCounter(lines: seq<seq<u8>>, k: nat)
    requires k < |lines|
  {
    && Named(lines[k], CONTENT_LENGTH_WORD)
    && forall i :: 0 <= i < |lines| && i != k ==> !Named(lines[i], CONTENT_LENGTH_WORD)
  }

  /** A request: a request line, field lines, an empty line and a body of the length
      that the fields say, at most 5176; no Transfer-Encoding field; the head is at
      most 8192 bytes and free of NUL. */
  ghost predicate Spelled(s: seq<u8>, requestLine: seq<u8>, lines: seq<seq<u8>>, body: seq<u8>) {
    var head := requestLine + [13, 10] + (TextOf(lines) + [13, 10]);
    && s == head + body && |head| <= 8192 && 0 !in head && |body| <= 5176
    && requestLine != [] && !HasBreak(requestLine)
    && (forall i :: 0 <= i < |lines| ==> IsLine(lines[i]) && !Named(lines[i], TRANSFER_ENCODING_WORD))
    && BodyLength(lines, |body|)
  }

  ghost predicate IsHttpRequest(s: seq<u8>) {
    exists requestLine, lines, body :: Spelled(s, requestLine, lines, body)
  }

  lemma {:induction false} TextIsJoin(lines: seq<seq<u8>>)
    ensures TextOf(lines) == Join(lines)
  {
    if lines == [] {
    } else {
      TextIsJoin(lines[1..]);
    }
  }

  lemma IsLineIff(line: seq<u8>)
    ensures IsLine(line) <==> FieldOk(line)
  {
    if FieldOk(line) {
      FieldOkIs(line);
    }
    forall name, value | IsField(line, name, value)
      ensures FieldOk(line)
    {
      FieldIs(line, name, value);
    }
  }

  lemma LineIff(line: seq<u8>)
    requires FieldOk(line)
    ensures Named(line, TRANSFER_ENCODING_WORD) <==> IsTransferEncoding(line)
    ensures Named(line, CONTENT_LENGTH_WORD) <==> IsLengthField(line)
  {
    TransferEncodingWord();
    ContentLengthWord();
    NamedIff(line, TRANSFER_ENCODING, TRANSFER_ENCODING_WORD);
    NamedIff(line, CONTENT_LENGTH, CONTENT_LENGTH_WORD);
  }

  lemma BodyLengthIff(lines: seq<seq<u8>>, n: nat)
    requires forall i :: 0 <= i < |lines| ==> FieldOk(lines[i])
    ensures BodyLength(lines, n) <==> Declares(lines, n)
  {
    forall i | 0 <= i < |lines|
      ensures Named(lines[i], CONTENT_LENGTH_WORD) <==> IsLengthField(lines[i])
      ensures CountsBytes(lines[i], n) <==> SaysLength(lines[i], n)
    {
      LineIff(lines[i]);
      CountsBytesIff(lines[i], n);
    }
    assert forall k :: 0 <= k < |lines| ==> (OnlyCounter(lines, k) <==> OnlyLength(lines, k));
  }

  lemma LinesIff(lines: seq<seq<u8>>, n: nat)
    ensures GoodFields(lines, n) <==>
      && n <= 5176
      && (forall i :: 0 <= i < |lines| ==> IsLine(lines[i]) && !Named(lines[i], TRANSFER_ENCODING_WORD))
      && BodyLength(lines, n)
  {
    forall i | 0 <= i < |lines|
      ensures IsLine(lines[i]) <==> FieldOk(lines[i])
      ensures FieldOk(lines[i]) ==> (Named(lines[i], TRANSFER_ENCODING_WORD) <==> IsTransferEncoding(lines[i]))
    {
      IsLineIff(lines[i]);
      if FieldOk(lines[i]) {
        LineIff(lines[i]);
      }
    }
    if forall i :: 0 <= i < |lines| ==> FieldOk(lines[i]) {
      BodyLengthIff(lines, n);
    }
  }

  lemma BreakIff(line: seq<u8>)
    ensures !HasBreak(line) <==> NoCrlf(line)
  {
    if HasBreak(line) {
      var i :| 0 <= i < |line| - 1 && line[i] == 13 && line[i + 1] == 10;
      assert CrlfAt(line, i);
    }
    if !HasBreak(line) {
      forall i
        ensures !CrlfAt(line, i)
      {
      }
    }
  }

  lemma SpelledIff(s: seq<u8>, requestLine: seq<u8>, lines: seq<seq<u8>>, body: seq<u8>)
    ensures Spelled(s, requestLine, lines, body) <==> GoodRequest(s, requestLine, lines, body)
  {
    TextIsJoin(lines);
    LinesIff(lines, |body|);
    BreakIff(requestLine);
    assert CRLF == [13, 10];
    assert requestLine + [13, 10] + (TextOf(lines) + [13, 10]) == Block(requestLine, lines);
  }

  /** The parser completes exactly the requests of the literal grammar. */
  lemma CompletesIffSpelled(s: seq<u8>)
    ensures Feed(INITIAL, s).answer == CompleteRequest <==> IsHttpRequest(s)
  {
    CompletesIffRequest(s);
    forall requestLine, lines, body
      ensures Spelled(s, requestLine, lines, body) <==> GoodRequest(s, requestLine, lines, body)
    {
      SpelledIff(s, requestLine, lines, body);
    }
  }

  // ---- the token ----

  /** Exactly one field is named X-Meshd-Token, and its trimmed value is the token. */
  ghost predicate CarriesOnly(lines: seq<seq<u8>>, token: seq<u8>) {
    exists k :: 0 <= k < |lines| && OnlyToken(lines, k) && HasValue(lines[k], token)
  }

  ghost predicate OnlyToken(lines: seq<seq<u8>>, k: nat)
    requires k < |lines|
  {
    && Named(lines[k], MESHD_TOKEN_WORD)
    && forall i :: 0 <= i < |lines| && i != k ==> !Named(lines[i], MESHD_TOKEN_WORD)
  }

  lemma CarriesOnlyIff(lines: seq<seq<u8>>, token: seq<u8>)
    requires forall i :: 0 <= i < |lines| ==> FieldOk(lines[i])
    ensures CarriesOnly(lines, token) <==> Authorizes(lines, token)
  {
    TokenWord();
    forall i | 0 <= i < |lines|
      ensures Named(lines[i], MESHD_TOKEN_WORD) <==> IsTokenField(lines[i])
      ensures HasValue(lines[i], token) <==> CarriesToken(lines[i], token)
    {
      NamedIff(lines[i], TOKEN_NAME, MESHD_TOKEN_WORD);
      HasValueIff(lines[i], token);
    }
    if CarriesOnly(lines, token) {
      var k :| 0 <= k < |lines| && OnlyToken(lines, k) && HasValue(lines[k], token);
      assert IsTokenField(lines[k]) && CarriesToken(lines[k], token);
    }
    if Authorizes(lines, token) {
      var k :| 0 <= k < |lines| && IsTokenField(lines[k]) && CarriesToken(lines[k], token)
               && forall i :: 0 <= i < |lines| && i != k ==> !IsTokenField(lines[i]);
      assert OnlyToken(lines, k);
    }
  }

  /** A completed request is let in exactly if no token is configured, or exactly
      one of its fields is the token field and carries the token. */
  lemma TokenIffCarried(s: seq<u8>, token: seq<u8>)
    returns (requestLine: seq<u8>, lines: seq<seq<u8>>, body: seq<u8>)
    requires Feed(INITIAL, s).answer == CompleteRequest
    ensures Spelled(s, requestLine, lines, body)
    ensures CheckToken(Run(INITIAL, s).header, token) <==> token == [] || CarriesOnly(lines, token)
  {
    if token == [] {
      CompleteIsRequest(s);
      requestLine, lines, body :| GoodRequest(s, requestLine, lines, body);
    } else {
      requestLine, lines, body := TokenAgreesWithParser(s, token);
      CarriesOnlyIff(lines, token);
    }
    SpelledIff(s, requestLine, lines, body);
  }
}
