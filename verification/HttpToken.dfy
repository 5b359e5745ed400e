/** The second pass over an accepted header block: the access token. */
module HttpToken {
  import opened Bytes
  import opened Http
  import opened HttpFraming

  const TOKEN_NAME: seq<u8> := Ascii("X-Meshd-Token")

  predicate IsTokenField(line: seq<u8>) {
    ColonOf(line) < |line| && SameName(NameOf(line), TOKEN_NAME)
  }

  predicate CarriesToken(line: seq<u8>, token: seq<u8>) { Trim(ValueOf(line)) == token }

  /** What one field line means to the token check. */
  datatype Mark = OtherField | WrongToken | RightToken

  function MarkOf(line: seq<u8>, token: seq<u8>): Mark {
    if !IsTokenField(line) then OtherField
    else if CarriesToken(line, token) then RightToken
    else WrongToken
  }

  function Marker(token: seq<u8>): seq<u8> -> Mark { line => MarkOf(line, token) }

  /** The mark after one more line; a second token field spoils the first. */
  function Combine(seen: Mark, m: Mark): Option<Mark> {
    if m == OtherField then Some(seen) else if seen == OtherField then Some(m) else None
  }

  /** `seen` is the mark of the token field met so far; the result is its mark
      at the empty line, or `None` when the check has failed before. */
  function TokenFields(h: seq<u8>, begin: nat, mark: seq<u8> -> Mark, seen: Mark): Option<Mark>
    decreases |h| - begin
  {
    if begin >= |h| then None
    else
      var end := FindCrlf(h, begin);
      if end.None? then None
      else if end.value == begin then Some(seen)
      else
        match Combine(seen, mark(h[begin..end.value]))
        case None => None
        case Some(seen') => TokenFields(h, end.value + 2, mark, seen')
  }

  /** `meshd_check_token` on the header text. */
  function CheckToken(h: seq<u8>, token: seq<u8>): bool {
    if token == [] then true
    else
      var end := FindCrlf(h, 0);
      end.Some? && TokenFields(h, end.value + 2, Marker(token), OtherField) == Some(RightToken)
  }

  // ---- agreement with the first pass ----

  ghost predicate Unmarked(fields: seq<seq<u8>>, mark: seq<u8> -> Mark) {
    forall i :: 0 <= i < |fields| ==> mark(fields[i]) == OtherField
  }

  ghost predicate OnlyRight(fields: seq<seq<u8>>, mark: seq<u8> -> Mark, k: nat)
    requires k < |fields|
  {
    mark(fields[k]) == RightToken && forall i :: 0 <= i < |fields| && i != k ==> mark(fields[i]) == OtherField
  }

  ghost predicate SomeOnlyRight(fields: seq<seq<u8>>, mark: seq<u8> -> Mark) {
    exists k :: 0 <= k < |fields| && OnlyRight(fields, mark, k)
  }

  function TokenFold(fields: seq<seq<u8>>, mark: seq<u8> -> Mark, seen: Mark): Option<Mark> {
    if fields == [] then Some(seen)
    else
      match Combine(seen, mark(fields[0]))
      case None => None
      case Some(seen') => TokenFold(fields[1..], mark, seen')
  }

  lemma {:induction false} TokenFieldsIsFold(h: seq<u8>, begin: nat, fields: seq<seq<u8>>,
                                             mark: seq<u8> -> Mark, seen: Mark)
    requires Segmented(h, begin, fields)
    ensures TokenFields(h, begin, mark, seen) == TokenFold(fields, mark, seen)
    decreases |fields|
  {
    if fields == [] {
    } else {
      var seen' := Combine(seen, mark(fields[0]));
      if seen'.Some? {
        TokenFieldsIsFold(h, begin + |fields[0]| + 2, fields[1..], mark, seen'.value);
      }
    }
  }

  lemma OnlyRightHead(fields: seq<seq<u8>>, mark: seq<u8> -> Mark)
    requires fields != [] && mark(fields[0]) != OtherField
    ensures SomeOnlyRight(fields, mark) <==> mark(fields[0]) == RightToken && Unmarked(fields[1..], mark)
  {
    assert mark(fields[0]) == RightToken && Unmarked(fields[1..], mark) <==> OnlyRight(fields, mark, 0) by {
      assert fields == [fields[0]] + fields[1..];
    }
    assert forall k :: 0 < k < |fields| ==> !OnlyRight(fields, mark, k);
  }

  lemma OnlyRightTail(fields: seq<seq<u8>>, mark: seq<u8> -> Mark)
    requires fields != [] && mark(fields[0]) == OtherField
    ensures SomeOnlyRight(fields, mark) <==> SomeOnlyRight(fields[1..], mark)
  {
    var tail := fields[1..];
    forall k | 0 <= k < |tail|
      ensures OnlyRight(tail, mark, k) <==> OnlyRight(fields, mark, k + 1)
    {
      assert fields == [fields[0]] + tail;
    }
    if SomeOnlyRight(fields, mark) {
      var k :| 0 <= k < |fields| && OnlyRight(fields, mark, k);
      assert OnlyRight(tail, mark, k - 1);
    }
  }

  lemma {:induction false} TokenFoldIs(fields: seq<seq<u8>>, mark: seq<u8> -> Mark, seen: Mark)
    ensures TokenFold(fields, mark, seen) == Some(RightToken) <==>
      if seen == OtherField then SomeOnlyRight(fields, mark) else seen == RightToken && Unmarked(fields, mark)
  {
    if fields == [] {
    } else {
      var head, tail := fields[0], fields[1..];
      assert Unmarked(fields, mark) <==> mark(head) == OtherField && Unmarked(tail, mark) by {
        assert fields == [head] + tail;
      }
      if mark(head) == OtherField {
        OnlyRightTail(fields, mark);
        TokenFoldIs(tail, mark, seen);
      } else if seen == OtherField {
        OnlyRightHead(fields, mark);
        TokenFoldIs(tail, mark, mark(head));
      }
    }
  }

  /** Exactly one token field, and it carries the configured token. */
  ghost predicate Authorizes(fields: seq<seq<u8>>, token: seq<u8>) {
    exists k :: 0 <= k < |fields| && IsTokenField(fields[k]) && CarriesToken(fields[k], token)
                && forall i :: 0 <= i < |fields| && i != k ==> !IsTokenField(fields[i])
  }

  lemma MarkerAuthorizes(fields: seq<seq<u8>>, token: seq<u8>)
    ensures SomeOnlyRight(fields, Marker(token)) <==> Authorizes(fields, token)
  {
    var mark := Marker(token);
    assert forall line :: mark(line) == MarkOf(line, token);
    if SomeOnlyRight(fields, mark) {
      var k :| 0 <= k < |fields| && OnlyRight(fields, mark, k);
      assert IsTokenField(fields[k]) && CarriesToken(fields[k], token);
    }
    if Authorizes(fields, token) {
      var k :| 0 <= k < |fields| && IsTokenField(fields[k]) && CarriesToken(fields[k], token)
               && forall i :: 0 <= i < |fields| && i != k ==> !IsTokenField(fields[i]);
      assert OnlyRight(fields, mark, k);
    }
  }

  lemma TokenOfBlock(requestLine: seq<u8>, fields: seq<seq<u8>>, token: seq<u8>)
    requires NoCrlf(requestLine) && Lines(fields) && token != []
    ensures CheckToken(Block(requestLine, fields), token) <==> Authorizes(fields, token)
  {
    var h := Block(requestLine, fields);
    assert h[0..] == requestLine + CRLF + (Join(fields) + CRLF);
    FirstCrlf(h, 0, requestLine, Join(fields) + CRLF);
    JoinIsSegmented(h, |requestLine| + 2, fields);
    TokenFieldsIsFold(h, |requestLine| + 2, fields, Marker(token), OtherField);
    TokenFoldIs(fields, Marker(token), OtherField);
    MarkerAuthorizes(fields, token);
  }

  /** Two-pass agreement: of a request that the parser completed, the second
      pass sees the same fields; it grants access exactly if one of them, and
      only one, is the token field and its trimmed value is the token. */
  lemma TokenAgreesWithParser(s: seq<u8>, token: seq<u8>)
    returns (requestLine: seq<u8>, fields: seq<seq<u8>>, body: seq<u8>)
    requires Run(INITIAL, s).result == CompleteRequest && token != []
    ensures GoodRequest(s, requestLine, fields, body)
    ensures Run(INITIAL, s).header == Block(requestLine, fields) && Run(INITIAL, s).body == body
    ensures CheckToken(Run(INITIAL, s).header, token) <==> Authorizes(fields, token)
  {
    CompleteIsRequest(s);
    requestLine, fields, body :| GoodRequest(s, requestLine, fields, body);
    RequestCompletes(s, requestLine, fields, body);
    GoodFieldsAreLines(fields);
    TokenOfBlock(requestLine, fields, token);
  }
}
