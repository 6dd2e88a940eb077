/** The language the parser accepts, byte by byte and without reference to the parser: what a command is. */
module RespGrammar {
  import opened Bytes
  import opened Decimal
  import opened Resp
  import opened RespRoundTrip
  import opened InputLoop

  /** A nonempty run of digits, perhaps behind a sign, whose value fits in 64 bits. */
  predicate SpelledBy(s: Bytes, ds: Bytes, n: int)
  {
    && |ds| > 0 && AllDigits(ds) && Int64(n)
    && ((s == ds && n == DigitsValue(ds)) || (s == [43] + ds && n == DigitsValue(ds))
        || (s == [45] + ds && n == -(DigitsValue(ds) as int)))
  }

  ghost predicate Spells(s: Bytes, n: int)
  {
    exists ds :: SpelledBy(s, ds, n)
  }

  /** Atoi reads exactly the texts that spell a number. */
  lemma AtoiIff(s: Bytes, n: int)
    ensures Atoi(s) == Num(n) <==> Spells(s, n)
  {
    if Atoi(s) == Num(n) {
      var ds := if s[0] == 45 || s[0] == 43 then s[1..] else s;
      assert s == [s[0]] + s[1..];
      assert SpelledBy(s, ds, n);
    }
    if ds :| SpelledBy(s, ds, n) {
      assert IsDigit(ds[0]);
      assert s == ds || s[1..] == ds;
    }
  }

  lemma {:induction false} DigitsBefore(ds: Bytes, s: Bytes)
    requires AllDigits(ds) && s != [] && !IsDigit(s[0])
    ensures DigitPrefix(ds + s) == ds
  {
    if |ds| == 0 {
      assert ds + s == s;
    } else {
      assert (ds + s)[1..] == ds[1..] + s;
      DigitsBefore(ds[1..], s);
    }
  }

  lemma RestSpoils(ds: Bytes, s: Bytes)
    requires |ds| > 0 && AllDigits(ds) && s != [] && !IsDigit(s[0])
    requires DigitsValue(ds) < 0x1_0000_0000_0000_0000
    ensures AtoiValue(ds + s) == 0
  {
    DigitsBefore(ds, s);
    hide DigitPrefix, DigitsValue;
    assert (ds + s)[0] == ds[0] && IsDigit(ds[0]) && (ds + s)[|ds|] == s[0];
  }

  /** What an unreadable number counts as: the nearest 64-bit number if it is too large, otherwise 0. */
  lemma AtoiErrors(ds: Bytes, s: Bytes)
    requires |ds| > 0 && AllDigits(ds)
    ensures DigitsValue(ds) > 0x7FFF_FFFF_FFFF_FFFF ==>
      AtoiValue(ds) == 0x7FFF_FFFF_FFFF_FFFF && AtoiValue([43] + ds) == 0x7FFF_FFFF_FFFF_FFFF
    ensures DigitsValue(ds) > 0x8000_0000_0000_0000 ==> AtoiValue([45] + ds) == -0x8000_0000_0000_0000
    ensures s == [] || !(48 <= s[0] <= 57 || s[0] == 43 || s[0] == 45) ==> AtoiValue(s) == 0
    ensures s != [] && !(48 <= s[0] <= 57) && DigitsValue(ds) < 0x1_0000_0000_0000_0000 ==> AtoiValue(ds + s) == 0
  {
    if s != [] && !(48 <= s[0] <= 57) && DigitsValue(ds) < 0x1_0000_0000_0000_0000 {
      RestSpoils(ds, s);
    }
    assert IsDigit(ds[0]);
    assert ([43] + ds)[1..] == ds && ([45] + ds)[1..] == ds;
    if s != [] && !(48 <= s[0] <= 57 || s[0] == 43 || s[0] == 45) {
      assert !AllDigits(s) && DigitPrefix(s) == [];
    }
  }

  lemma SpellingHasNoLineEnd(s: Bytes, n: int)
    requires Spells(s, n)
    ensures forall i :: 0 <= i < |s| ==> s[i] != 13
  {
    var ds :| SpelledBy(s, ds, n);
    forall i | 0 <= i < |s| ensures s[i] != 13 {
      assert s == ds || (i > 0 ==> s[i] == ds[i - 1]);
      assert forall j :: 0 <= j < |ds| ==> IsDigit(ds[j]);
    }
  }

  lemma {:induction false} FirstLineEnd(s: Bytes, rest: Bytes)
    requires forall i :: 0 <= i < |s| ==> s[i] != 13
    ensures FindLine(s + [13, 10] + rest) == At(|s|)
  {
    var d := s + [13, 10] + rest;
    if |s| > 0 {
      assert d[1..] == s[1..] + [13, 10] + rest;
      FirstLineEnd(s[1..], rest);
    }
  }

  /** A line at position `at` that spells `n` and is `i` bytes long. */
  ghost predicate LineSpells(w: Bytes, at: nat, i: nat, n: int)
  {
    at + i + 2 <= |w| && Spells(w[at..at + i], n) && w[at + i] == 13 && w[at + i + 1] == 10
  }

  lemma FoundLine(w: Bytes, i: nat, n: int)
    requires LineSpells(w, 1, i, n)
    ensures FindLine(w[1..]) == At(i) && Atoi(w[1..1 + i]) == Num(n)
  {
    var s := w[1..1 + i];
    AtoiIff(s, n);
    SpellingHasNoLineEnd(s, n);
    assert w[1..] == s + [13, 10] + w[i + 3..];
    FirstLineEnd(s, w[i + 3..]);
  }

  /** A dollar sign, the length on a line, the payload and a line end, and nothing else. */
  ghost predicate BulkWith(w: Bytes, a: Bytes, i: nat)
  {
    && |w| == i + 3 + |a| + 2 && w[0] == 36 && LineSpells(w, 1, i, |a|)
    && w[i + 3..i + 3 + |a|] == a && w[|w| - 2] == 13 && w[|w| - 1] == 10
  }

  ghost predicate IsBulk(w: Bytes, a: Bytes)
  {
    exists i: nat :: BulkWith(w, a, i)
  }

  ghost predicate IsBulks(w: Bytes, args: seq<Bytes>)
    decreases |args|
  {
    if |args| == 0 then w == []
    else exists n: nat :: n <= |w| && IsBulk(w[..n], args[0]) && IsBulks(w[n..], args[1..])
  }

  ghost predicate CommandWith(w: Bytes, args: seq<Bytes>, i: nat)
  {
    i + 3 <= |w| && w[0] == 42 && LineSpells(w, 1, i, |args|) && IsBulks(w[i + 3..], args)
  }

  /** A star, the number of arguments on a line, and the arguments as bulk strings. */
  ghost predicate IsCommand(w: Bytes, args: seq<Bytes>)
  {
    exists i: nat :: CommandWith(w, args, i)
  }

  /** A bulk string is read off exactly where one stands. */
  lemma ParseBulkIff(d: Bytes, pos: nat, a: Bytes, used: nat)
    requires pos + |d| <= MAX_INT64
    ensures ParseBulk(d, pos) == BulkIs(a, used) <==> used <= |d| && IsBulk(d[..used], a)
  {
    if ParseBulk(d, pos) == BulkIs(a, used) {
      BulkRead(d, pos, a, used);
    }
    if used <= |d| && IsBulk(d[..used], a) {
      var i: nat :| BulkWith(d[..used], a, i);
      BulkThere(d, pos, a, used, i);
    }
  }

  lemma BulkRead(d: Bytes, pos: nat, a: Bytes, used: nat)
    requires ParseBulk(d, pos) == BulkIs(a, used)
    ensures used <= |d| && IsBulk(d[..used], a)
  {
    hide Atoi, FindLine;
    var i := FindLine(d[1..]).index;
    var w := d[..used];
    AtoiIff(d[1..1 + i], |a|);
    assert w[1..1 + i] == d[1..1 + i];
    assert w[i + 3..i + 3 + |a|] == d[i + 3..i + 3 + |a|];
    assert BulkWith(w, a, i);
  }

  lemma BulkThere(d: Bytes, pos: nat, a: Bytes, used: nat, i: nat)
    requires pos + |d| <= MAX_INT64 && used <= |d| && BulkWith(d[..used], a, i)
    ensures ParseBulk(d, pos) == BulkIs(a, used)
  {
    hide Atoi, FindLine, Spells;
    var w := d[..used];
    Cut(d, 1, 1 + i, used);
    Cut(d, i + 3, i + 3 + |a|, used);
    assert LineSpells(d, 1, i, |a|);
    FoundLine(d, i, |a|);
    assert d[i + 3 + |a|] == w[|w| - 2] && d[i + 3 + |a| + 1] == w[|w| - 1];
  }

  /** Why a bulk string with a readable length is refused: a negative length or one beyond 64 bits panics, a
      payload that is not all there is too short, and one that is must be followed by a line end. */
  lemma LengthErrors(d: Bytes, pos: nat, i: nat, n: int)
    requires |d| > 0 && d[0] == 36 && LineSpells(d, 1, i, n)
    ensures var end := i + 3 + n;
      ParseBulk(d, pos) ==
        if n < 0 || pos + end > 0x7FFF_FFFF_FFFF_FFFF then BulkPanics
        else if |d| < end then BulkFails(NotEnough)
        else if !(|d| >= end + 2 && d[end] == 13 && d[end + 1] == 10) then BulkFails(ExpectedCRLF)
        else BulkIs(d[end - n..end], end + 2)
  {
    hide Atoi, FindLine, Spells;
    FoundLine(d, i, n);
  }

  lemma {:induction false} BulksRead(d: Bytes, pos: nat, n: nat, args: seq<Bytes>, end: nat)
    requires pos + |d| <= MAX_INT64 && ParseBulks(d, pos, n) == Parsed(args, end)
    ensures |args| == n && pos <= end <= pos + |d| && IsBulks(d[..end - pos], args)
    decreases n
  {
    hide ParseBulk, IsBulk;
    if n > 0 {
      var a, used := args[0], ParseBulk(d, pos).used;
      assert args == [a] + args[1..];
      ParseBulkIff(d, pos, a, used);
      BulksRead(d[used..], pos + used, n - 1, args[1..], end);
      var w := d[..end - pos];
      assert w[..used] == d[..used] && w[used..] == d[used..][..end - pos - used];
    }
  }

  lemma {:induction false} BulksThere(d: Bytes, pos: nat, args: seq<Bytes>, end: nat)
    requires pos <= end <= pos + |d| <= MAX_INT64 && IsBulks(d[..end - pos], args)
    ensures ParseBulks(d, pos, |args|) == Parsed(args, end)
    decreases |args|
  {
    hide ParseBulk, IsBulk;
    if |args| > 0 {
      var w := d[..end - pos];
      var used: nat :| used <= |w| && IsBulk(w[..used], args[0]) && IsBulks(w[used..], args[1..]);
      assert w[..used] == d[..used] && w[used..] == d[used..][..end - pos - used];
      ParseBulkIff(d, pos, args[0], used);
      BulksThere(d[used..], pos + used, args[1..], end);
      assert args == [args[0]] + args[1..];
    }
  }

  /** The parser takes `end` bytes for the command `args` exactly if those bytes are that command. */
  lemma ParseIff(d: Bytes, args: seq<Bytes>, end: nat)
    requires |d| <= MAX_INT64
    ensures ParseResult(d) == Parsed(args, end) <==> end <= |d| && IsCommand(d[..end], args)
  {
    if ParseResult(d) == Parsed(args, end) {
      CommandRead(d, args, end);
    }
    if end <= |d| && IsCommand(d[..end], args) {
      var i: nat :| CommandWith(d[..end], args, i);
      CommandThere(d, args, end, i);
    }
  }

  lemma CommandRead(d: Bytes, args: seq<Bytes>, end: nat)
    requires |d| <= MAX_INT64 && ParseResult(d) == Parsed(args, end)
    ensures end <= |d| && IsCommand(d[..end], args)
  {
    hide Atoi, FindLine, ParseBulks, IsBulks;
    var i, n := FindLine(d[1..]).index, Atoi(d[1..1 + FindLine(d[1..]).index]).value;
    AtoiIff(d[1..1 + i], n);
    BulksRead(d[i + 3..], i + 3, n, args, end);
    var w := d[..end];
    assert w[1..1 + i] == d[1..1 + i] && w[i + 3..] == d[i + 3..][..end - (i + 3)];
    assert CommandWith(w, args, i);
  }

  lemma Cut(d: Bytes, from: nat, to: nat, end: nat)
    requires from <= to <= end <= |d|
    ensures d[..end][from..to] == d[from..to]
  {
  }

  lemma CommandThere(d: Bytes, args: seq<Bytes>, end: nat, i: nat)
    requires |d| <= MAX_INT64 && end <= |d| && CommandWith(d[..end], args, i)
    ensures ParseResult(d) == Parsed(args, end)
  {
    hide Atoi, FindLine, ParseBulks, IsBulks, Spells;
    var w := d[..end];
    Cut(d, 1, 1 + i, end);
    Cut(d, i + 3, end, end);
    assert w[i + 3..] == w[i + 3..end] && d[i + 3..][..end - (i + 3)] == d[i + 3..end];
    assert LineSpells(d, 1, i, |args|);
    FoundLine(d, i, |args|);
    BulksThere(d[i + 3..], i + 3, args, end);
  }

  /** One command after the other, and nothing else. */
  ghost predicate IsStream(w: Bytes, cmds: seq<seq<Bytes>>)
    decreases |cmds|
  {
    if |cmds| == 0 then w == []
    else exists n: nat :: n <= |w| && IsCommand(w[..n], cmds[0]) && IsStream(w[n..], cmds[1..])
  }

  /** Of any input in any chunks, the bytes counted are those of the commands handled, and start it. */
  lemma {:induction false} CountedAreHandled(buf: Bytes, chunks: seq<Bytes>)
    requires |buf| + |Joined(chunks)| <= MAX_INT64
    ensures var r, w := Loop(buf, chunks), buf + Joined(chunks);
      r.bytes <= |w| && IsStream(w[..r.bytes], r.cmds)
    decreases |chunks|, |buf|
  {
    hide ParseResult, IsCommand;
    var w := buf + Joined(chunks);
    if |buf| == 0 {
      if |chunks| > 0 {
        CountedAreHandled(chunks[0], chunks[1..]);
        assert chunks[0] + Joined(chunks[1..]) == w;
      }
    } else {
      match ParseResult(buf)
      case Panics =>
      case Failed(e) =>
        if Retries(e) && |chunks| > 0 {
          assert buf + chunks[0] + Joined(chunks[1..]) == w;
          CountedAreHandled(buf + chunks[0], chunks[1..]);
        }
      case Parsed(args, pos) =>
        if |args| > 0 {
          ParseIff(buf, args, pos);
          CountedAreHandled(buf[pos..], chunks);
          var r := Loop(buf[pos..], chunks);
          var rest := buf[pos..] + Joined(chunks);
          assert w[..pos + r.bytes][..pos] == buf[..pos];
          assert w[..pos + r.bytes][pos..] == rest[..r.bytes];
          assert ([args] + r.cmds)[1..] == r.cmds;
        }
    }
  }

  /** Input that does not start with a star is read on and on, and nothing of it is ever handled. */
  lemma {:induction false} NoStarReadsOn(buf: Bytes, chunks: seq<Bytes>)
    requires |buf| > 0 && buf[0] != 42
    ensures Loop(buf, chunks) == Outcome([], 0, EndOfStream)
    decreases |chunks|
  {
    if |chunks| > 0 {
      NoStarReadsOn(buf + chunks[0], chunks[1..]);
    }
  }

  /** A first line without a number stops the connection. */
  lemma NoCountStops(s: Bytes, rest: Bytes, chunks: seq<Bytes>)
    requires (forall i :: 0 <= i < |s| ==> s[i] != 13) && forall n :: !Spells(s, n)
    ensures Loop([42] + s + [13, 10] + rest, chunks) == Outcome([], 0, ParseStop(BadNumber))
  {
    var buf := [42] + s + [13, 10] + rest;
    assert buf[1..] == s + [13, 10] + rest && buf[1..1 + |s|] == s;
    FirstLineEnd(s, rest);
    if Atoi(s).Num? {
      AtoiIff(s, Atoi(s).value);
    }
  }

  /** What is printed, byte by byte. */
  lemma PrintedForm(args: seq<Bytes>, a: Bytes)
    ensures Encode(args) == [42] + Itoa(|args|) + [13, 10] + Bulks(args)
    ensures Bulks([]) == [] && Bulks(args + [a]) == Bulks(args) + ([36] + Itoa(|a|) + [13, 10] + a + [13, 10])
  {
    BulksSnoc(args, a);
  }

  /** A whole command, byte by byte, in both directions. */
  lemma PingOnWire()
    ensures var ping := [Ascii("PING")];
      Encode(ping) == Ascii("*1\r\n$4\r\nPING\r\n") && ParseResult(Ascii("*1\r\n$4\r\nPING\r\n")) == Parsed(ping, 14)
  {
    hide ParseResult, Ascii, Encode, Itoa;
    var ping := [Ascii("PING")];
    PingBytes();
    PingPrinted();
    assert Encode(ping) + [] == Encode(ping);
    ParseEncode(ping, []);
  }

  lemma PingPrinted()
    ensures Encode([[80, 73, 78, 71]]) == [42, 49, 13, 10, 36, 52, 13, 10, 80, 73, 78, 71, 13, 10]
  {
    assert Itoa(1) == [49] && Itoa(4) == [52];
    hide Itoa;
    PrintedForm([], [80, 73, 78, 71]);
    assert [] + [[80, 73, 78, 71]] == [[80, 73, 78, 71]];
  }

  lemma PingBytes()
    ensures Ascii("*1\r\n$4\r\nPING\r\n") == [42, 49, 13, 10, 36, 52, 13, 10, 80, 73, 78, 71, 13, 10]
    ensures Ascii("PING") == [80, 73, 78, 71]
  {
  }
}
