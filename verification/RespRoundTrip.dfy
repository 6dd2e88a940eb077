/** The parser undoes the printer, on arbitrary payload bytes, and rejects every cut-off command. */
module RespRoundTrip {
  import opened Bytes
  import opened Decimal
  import opened Resp

  function BulkHead(a: Bytes): Bytes
  {
    [DOLLAR] + Itoa(|a|) + CRLF
  }

  lemma BulkIsHeadAndBody(a: Bytes)
    ensures Bulk(a) == BulkHead(a) + a + CRLF
    ensures |BulkHead(a)| == |Itoa(|a|)| + 3 && |Bulk(a)| == |BulkHead(a)| + |a| + 2
  {
  }

  lemma {:induction false} LineAfterDigits(s: Bytes, rest: Bytes)
    requires AllDigits(s)
    ensures FindLine(s + CRLF + rest) == At(|s|)
  {
    var d := s + CRLF + rest;
    if |s| > 0 {
      assert d[0] == s[0] && IsDigit(s[0]);
      assert d[1..] == s[1..] + CRLF + rest;
      LineAfterDigits(s[1..], rest);
    } else {
      assert d[0] == CR && d[1] == LF;
    }
  }

  lemma {:induction false} NoLineInCut(s: Bytes, k: nat)
    requires AllDigits(s) && k < |s| + 2
    ensures FindLine((s + CRLF)[..k]) == NoLine
  {
    var d := (s + CRLF)[..k];
    if k >= 2 {
      assert d[0] == s[0] && IsDigit(s[0]);
      assert d[1..] == (s[1..] + CRLF)[..k - 1];
      NoLineInCut(s[1..], k - 1);
    }
  }

  /** A whole bulk string parses to its payload, whatever follows. */
  lemma ParseBulkWhole(a: Bytes, rest: Bytes, pos: nat)
    requires pos + |Bulk(a)| <= MAX_INT64
    ensures ParseBulk(Bulk(a) + rest, pos) == BulkIs(a, |Bulk(a)|)
  {
    hide Itoa, FindLine;
    var s := Itoa(|a|);
    var d := Bulk(a) + rest;
    BulkIsHeadAndBody(a);
    LengthDigits(|a|);
    assert d[1..] == s + CRLF + (a + CRLF + rest);
    LineAfterDigits(s, a + CRLF + rest);
    assert d[1..1 + |s|] == s;
    AtoiItoa(|a|);
    var start := |s| + 3;
    assert d[start..start + |a|] == a;
    assert d[start + |a|] == CR && d[start + |a| + 1] == LF;
  }

  /** What a cut-off bulk string is rejected with. */
  function BulkCutError(a: Bytes, k: nat): ParseError
  {
    if k == 0 then ExpectedBulk
    else if k < |BulkHead(a)| then NoCRLF
    else if k < |BulkHead(a)| + |a| then NotEnough
    else ExpectedCRLF
  }

  lemma ParseBulkCut(a: Bytes, k: nat, pos: nat)
    requires k < |Bulk(a)| && pos + |Bulk(a)| <= MAX_INT64
    ensures ParseBulk(Bulk(a)[..k], pos) == BulkFails(BulkCutError(a, k))
  {
    hide Itoa, FindLine;
    var s := Itoa(|a|);
    var d := Bulk(a)[..k];
    BulkIsHeadAndBody(a);
    LengthDigits(|a|);
    if 0 < k < |BulkHead(a)| {
      CutInHead(a, k);
      NoLineInCut(s, k - 1);
    } else if k >= |BulkHead(a)| {
      var rest := (a + CRLF)[..k - |BulkHead(a)|];
      CutInBody(a, k, rest);
      LineAfterDigits(s, rest);
      AtoiItoa(|a|);
    }
  }

  lemma LengthDigits(n: nat)
    ensures AllDigits(Itoa(n))
  {
  }

  lemma CutInHead(a: Bytes, k: nat)
    requires 0 < k < |BulkHead(a)|
    ensures k <= |Bulk(a)| && Bulk(a)[..k][0] == DOLLAR && Bulk(a)[..k][1..] == (Itoa(|a|) + CRLF)[..k - 1]
  {
    hide Itoa;
    BulkIsHeadAndBody(a);
  }

  lemma CutInBody(a: Bytes, k: nat, rest: Bytes)
    requires |BulkHead(a)| <= k < |Bulk(a)| && |Bulk(a)| == |BulkHead(a)| + |a| + 2
    requires rest == (a + CRLF)[..k - |BulkHead(a)|]
    ensures var d, s := Bulk(a)[..k], Itoa(|a|);
      && d[0] == DOLLAR && d[1..] == s + CRLF + rest && 1 + |s| <= |d| && d[1..1 + |s|] == s
  {
    hide Itoa;
    BulkIsHeadAndBody(a);
  }

  lemma ParseBulksStep(a: Bytes, b: Bytes, tail: Bytes, pos: nat, n: nat)
    requires n > 0 && ParseBulk(b + tail, pos) == BulkIs(a, |b|)
    ensures ParseBulks(b + tail, pos, n) == Prepend([a], ParseBulks(tail, pos + |b|, n - 1))
  {
    hide ParseBulk;
    assert (b + tail)[|b|..] == tail;
  }

  lemma BulksStep(args: seq<Bytes>)
    ensures |args| == 0 ==> Bulks(args) == []
    ensures |args| > 0 ==> Bulks(args) == Bulk(args[0]) + Bulks(args[1..]) && args == [args[0]] + args[1..]
  {
    hide Bulk;
  }

  lemma {:induction false} ParseBulksWhole(args: seq<Bytes>, rest: Bytes, pos: nat)
    requires pos + |Bulks(args)| <= MAX_INT64
    ensures ParseBulks(Bulks(args) + rest, pos, |args|) == Parsed(args, pos + |Bulks(args)|)
  {
    hide Bulks, Bulk, ParseBulk;
    BulksStep(args);
    if |args| > 0 {
      hide ParseBulks;
      var b, tail := Bulk(args[0]), Bulks(args[1..]) + rest;
      assert Bulks(args) + rest == b + tail;
      ParseBulkWhole(args[0], tail, pos);
      ParseBulksStep(args[0], b, tail, pos, |args|);
      ParseBulksWhole(args[1..], rest, pos + |b|);
    }
  }

  function BulksCutError(args: seq<Bytes>, k: nat): ParseError
    requires k < |Bulks(args)|
  {
    if k < |Bulk(args[0])| then BulkCutError(args[0], k) else BulksCutError(args[1..], k - |Bulk(args[0])|)
  }

  lemma {:induction false} ParseBulksCut(args: seq<Bytes>, k: nat, pos: nat)
    requires k < |Bulks(args)| && pos + |Bulks(args)| <= MAX_INT64
    ensures ParseBulks(Bulks(args)[..k], pos, |args|) == Failed(BulksCutError(args, k))
  {
    hide Bulks, Bulk, ParseBulk, BulkCutError;
    BulksStep(args);
    var b := Bulk(args[0]);
    if k < |b| {
      assert Bulks(args)[..k] == b[..k];
      ParseBulkCut(args[0], k, pos);
    } else {
      hide ParseBulks;
      var tail := Bulks(args[1..])[..k - |b|];
      assert Bulks(args)[..k] == b + tail;
      ParseBulkWhole(args[0], tail, pos);
      ParseBulksStep(args[0], b, tail, pos, |args|);
      ParseBulksCut(args[1..], k - |b|, pos + |b|);
    }
  }

  lemma ParseHead(n: nat, rest: Bytes)
    requires n <= MAX_INT64
    ensures ParseResult(ArrayHead(n) + rest) == ParseBulks(rest, |ArrayHead(n)|, n)
  {
    var s := Itoa(n);
    var d := ArrayHead(n) + rest;
    assert d[1..] == s + CRLF + rest;
    LineAfterDigits(s, rest);
    assert d[1..1 + |s|] == s;
    AtoiItoa(n);
    assert d[|s| + 3..] == rest;
  }

  /** A printed command parses to itself and exactly its own bytes are consumed, whatever follows. */
  lemma ParseEncode(args: seq<Bytes>, rest: Bytes)
    requires |Encode(args)| <= MAX_INT64 && |args| <= MAX_INT64
    ensures ParseResult(Encode(args) + rest) == Parsed(args, |Encode(args)|)
  {
    hide ParseResult, ParseBulks, Bulks, ArrayHead;
    assert Encode(args) + rest == ArrayHead(|args|) + (Bulks(args) + rest);
    ParseHead(|args|, Bulks(args) + rest);
    ParseBulksWhole(args, rest, |ArrayHead(|args|)|);
  }

  /** What a command cut off after `t` bytes is rejected with. */
  function CutError(args: seq<Bytes>, t: nat): ParseError
    requires t < |Encode(args)|
  {
    if t == 0 then ExpectedArray
    else if t < |ArrayHead(|args|)| then NoCRLF
    else BulksCutError(args, t - |ArrayHead(|args|)|)
  }

  /** Every proper prefix of a printed command is rejected, never misparsed and never a panic. */
  lemma ParseCut(args: seq<Bytes>, t: nat)
    requires t < |Encode(args)| <= MAX_INT64 && |args| <= MAX_INT64
    ensures ParseResult(Encode(args)[..t]) == Failed(CutError(args, t))
  {
    var s := Itoa(|args|);
    var d := Encode(args)[..t];
    if 0 < t < |s| + 3 {
      assert d[1..] == (s + CRLF)[..t - 1];
      NoLineInCut(s, t - 1);
    } else if t > 0 {
      hide ParseResult, ParseBulks, Bulks;
      var rest := Bulks(args)[..t - |ArrayHead(|args|)|];
      assert d == ArrayHead(|args|) + rest;
      ParseHead(|args|, rest);
      ParseBulksCut(args, t - |ArrayHead(|args|)|, |ArrayHead(|args|)|);
    }
  }

  /** The printer is injective: two commands never share an encoding, and none starts another's. */
  lemma EncodeInjective(a: seq<Bytes>, b: seq<Bytes>, rest: Bytes)
    requires |Encode(a)| <= MAX_INT64 && |a| <= MAX_INT64 && |Encode(b)| <= MAX_INT64 && |b| <= MAX_INT64
    requires Encode(a) == Encode(b) + rest
    ensures a == b && rest == []
  {
    ParseEncode(a, []);
    ParseEncode(b, rest);
    assert Encode(a) + [] == Encode(a);
  }
}
