/** The wire form of commands: arrays of bulk strings of the Redis serialization protocol, printed
    when a command is propagated or logged and parsed from connections and from the log. */
module Resp {
  import opened Bytes
  import opened Decimal

  const STAR: Byte := 42
  const DOLLAR: Byte := 36
  const CR: Byte := 13
  const LF: Byte := 10
  const CRLF: Bytes := [CR, LF]

  datatype ParseError = ExpectedArray | NoCRLF | BadNumber | ExpectedBulk | NotEnough | ExpectedCRLF

  /** A parsed command and the position after it, an error, or a run-time panic of the parser. */
  datatype Parse = Parsed(args: seq<Bytes>, pos: nat) | Failed(error: ParseError) | Panics

  datatype Line = At(index: nat) | NoLine

  // Printing

  function Bulk(a: Bytes): Bytes
  {
    [DOLLAR] + Itoa(|a|) + CRLF + a + CRLF
  }

  function Bulks(args: seq<Bytes>): Bytes
  {
    if |args| == 0 then [] else Bulk(args[0]) + Bulks(args[1..])
  }

  function ArrayHead(n: nat): Bytes
  {
    [STAR] + Itoa(n) + CRLF
  }

  function Encode(args: seq<Bytes>): Bytes
  {
    ArrayHead(|args|) + Bulks(args)
  }

  lemma {:induction false} BulksSnoc(args: seq<Bytes>, a: Bytes)
    ensures Bulks(args + [a]) == Bulks(args) + Bulk(a)
  {
    if |args| == 0 {
      assert args + [a] == [a];
      assert Bulks([a][1..]) == [];
    } else {
      assert (args + [a])[1..] == args[1..] + [a];
      BulksSnoc(args[1..], a);
    }
  }

  lemma EncodeParts(n: nat, a: Bytes)
    ensures ArrayHead(n) == [STAR] + Itoa(n) + CRLF
    ensures Bulk(a) == [DOLLAR] + Itoa(|a|) + CRLF + a + CRLF && Bulks([a]) == Bulk(a)
  {
    BulksSnoc([], a);
    assert [] + [a] == [a];
  }

  /** What is written to the replicas: the array head, the command and its arguments. */
  method FormatPropagatedCommand(cmd: Bytes, args: seq<Bytes>) returns (sb: Bytes)
    ensures sb == Encode([cmd] + args)
  {
    hide Itoa, Bulks, Bulk, ArrayHead;
    EncodeParts(|args| + 1, cmd);
    sb := [STAR] + Itoa(|args| + 1) + CRLF;
    sb := sb + ([DOLLAR] + Itoa(|cmd|) + CRLF + cmd + CRLF);
    assert [cmd] + args[..0] == [cmd];
    for i := 0 to |args|
      invariant sb == ArrayHead(|args| + 1) + Bulks([cmd] + args[..i])
    {
      EncodeParts(|args| + 1, args[i]);
      sb := sb + ([DOLLAR] + Itoa(|args[i]|) + CRLF + args[i] + CRLF);
      BulksSnoc([cmd] + args[..i], args[i]);
      assert [cmd] + args[..i + 1] == [cmd] + args[..i] + [args[i]];
    }
    assert args[..|args|] == args;
  }

  // Parsing

  /** Where the first line end at or after the start of `d` begins. */
  function FindLine(d: Bytes): (r: Line)
    ensures r.At? ==> r.index + 1 < |d| && d[r.index] == CR && d[r.index + 1] == LF
  {
    if |d| < 2 then NoLine
    else if d[0] == CR && d[1] == LF then At(0)
    else match FindLine(d[1..])
      case NoLine => NoLine
      case At(i) => At(i + 1)
  }

  datatype BulkParse = BulkIs(arg: Bytes, used: nat) | BulkFails(error: ParseError) | BulkPanics

  /** One bulk string at the start of `d`, which begins at `pos` of the whole input. A negative length,
      or one that overflows the end position, panics when the payload is sliced. */
  function ParseBulk(d: Bytes, pos: nat): (r: BulkParse)
    ensures r.BulkIs? ==> 0 < r.used <= |d|
  {
    if |d| == 0 || d[0] != DOLLAR then BulkFails(ExpectedBulk)
    else match FindLine(d[1..])
      case NoLine => BulkFails(NoCRLF)
      case At(i) =>
        match Atoi(d[1..1 + i])
        case NotANumber => BulkFails(BadNumber)
        case Num(strLen) =>
          var start := i + 3;
          if strLen < 0 || pos + start + strLen > MAX_INT64 then BulkPanics
          else if start + strLen > |d| then BulkFails(NotEnough)
          else if start + strLen + 2 > |d| || d[start + strLen] != CR || d[start + strLen + 1] != LF
          then BulkFails(ExpectedCRLF)
          else BulkIs(d[start..start + strLen], start + strLen + 2)
  }

  /** `n` bulk strings at the start of `d`. */
  function ParseBulks(d: Bytes, pos: nat, n: nat): (r: Parse)
    ensures r.Parsed? ==> pos <= r.pos <= pos + |d| && (n > 0 ==> pos < r.pos)
  {
    if n == 0 then Parsed([], pos)
    else match ParseBulk(d, pos)
      case BulkFails(e) => Failed(e)
      case BulkPanics => Panics
      case BulkIs(a, used) =>
        Prepend([a], ParseBulks(d[used..], pos + used, n - 1))
  }

  function ParseResult(data: Bytes): (r: Parse)
    ensures r.Parsed? ==> 0 < r.pos <= |data|
  {
    if |data| == 0 || data[0] != STAR then Failed(ExpectedArray)
    else match FindLine(data[1..])
      case NoLine => Failed(NoCRLF)
      case At(i) =>
        match Atoi(data[1..1 + i])
        case NotANumber => Failed(BadNumber)
        case Num(n) => if n < 0 then Panics else ParseBulks(data[i + 3..], i + 3, n)
  }

  lemma FindLineStep(data: Bytes, i: nat)
    requires i < |data| - 1
    ensures FindLine(data[i..]) ==
      if data[i] == CR && data[i + 1] == LF then At(0)
      else match FindLine(data[i + 1..]) case NoLine => NoLine case At(j) => At(j + 1)
  {
    assert data[i..][1..] == data[i + 1..];
  }

  lemma FindLineShort(data: Bytes)
    ensures forall i {:trigger data[i..]} :: 0 <= i <= |data| && i >= |data| - 1 ==> FindLine(data[i..]) == NoLine
  {
  }

  /** The line from `pos` on and the position behind its end. */
  method ReadLine(data: Bytes, pos: nat) returns (found: bool, line: Bytes, next: nat)
    requires pos <= |data|
    ensures match FindLine(data[pos..])
      case NoLine => !found
      case At(i) => found && line == data[pos..pos + i] && next == pos + i + 2 <= |data|
  {
    FindLineShort(data);
    hide FindLine;
    var i := pos;
    while i < |data| - 1
      invariant pos <= i && (i <= |data| - 1 || i == pos)
      invariant match FindLine(data[i..])
        case NoLine => FindLine(data[pos..]).NoLine?
        case At(j) => FindLine(data[pos..]) == At(i - pos + j)
    {
      FindLineStep(data, i);
      if data[i] == CR && data[i + 1] == LF {
        return true, data[pos..i], i + 2;
      }
      i := i + 1;
    }
    return false, [], 0;
  }

  /** The body of the parser's loop: one bulk string from `pos` on. */
  method ReadBulk(data: Bytes, pos: nat) returns (r: BulkParse)
    requires pos <= |data|
    ensures r == ParseBulk(data[pos..], pos)
  {
    hide FindLine, Atoi;
    if pos >= |data| || data[pos] != DOLLAR {
      return BulkFails(ExpectedBulk);
    }
    ghost var d := data[pos..];
    assert d[1..] == data[pos + 1..];
    var found, lenStr, start := ReadLine(data, pos + 1);
    if !found {
      return BulkFails(NoCRLF);
    }
    assert lenStr == d[1..1 + FindLine(d[1..]).index];
    var size := Atoi(lenStr);
    if size.NotANumber? {
      return BulkFails(BadNumber);
    }
    var strLen := size.value;
    if strLen < 0 || start + strLen > MAX_INT64 {
      return BulkPanics;
    }
    if start + strLen > |data| {
      return BulkFails(NotEnough);
    }
    var arg := data[start..start + strLen];
    var end := start + strLen;
    if end + 2 > |data| || data[end] != CR || data[end + 1] != LF {
      return BulkFails(ExpectedCRLF);
    }
    return BulkIs(arg, end + 2 - pos);
  }

  method ParseCommand(data: Bytes) returns (r: Parse)
    ensures r == ParseResult(data)
  {
    hide ParseBulk, FindLine, Atoi;
    if |data| == 0 || data[0] != STAR {
      return Failed(ExpectedArray);
    }
    var pos: nat := 1;
    var found, numArgs, newPos := ReadLine(data, pos);
    if !found {
      return Failed(NoCRLF);
    }
    pos := newPos;
    assert pos == FindLine(data[1..]).index + 3;
    var count := Atoi(numArgs);
    if count.NotANumber? {
      return Failed(BadNumber);
    }
    var n := count.value;
    if n < 0 {
      return Panics;
    }
    ghost var goal := ParseBulks(data[pos..], pos, n);
    assert ParseResult(data) == goal;
    var args: seq<Bytes> := [];
    for i := 0 to n
      invariant pos <= |data|
      invariant goal == Prepend(args, ParseBulks(data[pos..], pos, n - i))
    {
      var bulk := ReadBulk(data, pos);
      match bulk
      case BulkFails(e) =>
        return Failed(e);
      case BulkPanics =>
        return Panics;
      case BulkIs(arg, used) =>
        assert data[pos..][used..] == data[pos + used..];
        PrependMore(args, arg, ParseBulks(data[pos + used..], pos + used, n - i - 1));
        args, pos := args + [arg], pos + used;
    }
    return Parsed(args, pos);
  }

  function Prepend(args: seq<Bytes>, p: Parse): Parse
  {
    match p
    case Parsed(rest, end) => Parsed(args + rest, end)
    case other => other
  }

  lemma PrependMore(args: seq<Bytes>, a: Bytes, p: Parse)
    ensures Prepend(args, Prepend([a], p)) == Prepend(args + [a], p)
  {
    if p.Parsed? {
      assert args + ([a] + p.args) == args + [a] + p.args;
    }
  }
}
