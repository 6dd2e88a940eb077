/** Stream entry IDs: text of the form ms-seq, its reading, its order, and how XADD chooses one. */
module StreamIds {
  import opened Bytes
  import opened Decimal

  const STAR: Byte := 42
  const ANY: Bytes := [STAR]

  datatype Id = Id(ms: int, sq: int)

  const ZERO_ID := Id(0, 0)

  predicate IdLess(a: Id, b: Id)
  {
    a.ms < b.ms || (a.ms == b.ms && a.sq < b.sq)
  }

  predicate IdAtMost(a: Id, b: Id)
  {
    a == b || IdLess(a, b)
  }

  datatype Conversion = Converted(id: Id) | InvalidId

  function FirstDash(s: Bytes): (n: nat)
    ensures n <= |s|
    ensures n < |s| ==> s[n] == MINUS
    ensures forall i :: 0 <= i < n ==> s[i] != MINUS
  {
    if |s| == 0 || s[0] == MINUS then 0 else 1 + FirstDash(s[1..])
  }

  /** Exactly two parts around one dash: a number, and a number or a star, which reads as -1. */
  function ConvertID(s: Bytes): Conversion
  {
    var n := FirstDash(s);
    if n == |s| || FirstDash(s[n + 1..]) < |s[n + 1..]| then InvalidId
    else
      match Atoi(s[..n])
      case NotANumber => InvalidId
      case Num(ms) =>
        if s[n + 1..] == ANY then Converted(Id(ms, -1))
        else match Atoi(s[n + 1..])
          case NotANumber => InvalidId
          case Num(sq) => Converted(Id(ms, sq))
  }

  /** How IDs are read where errors are ignored: anything unreadable counts as 0-0. */
  function IdOf(s: Bytes): Id
  {
    match ConvertID(s)
    case Converted(id) => id
    case InvalidId => ZERO_ID
  }

  function PrintID(id: Id): Bytes
  {
    Itoa(id.ms) + [MINUS] + Itoa(id.sq)
  }

  predicate InRange(id: Id)
  {
    0 <= id.ms <= MAX_INT64 && 0 <= id.sq <= MAX_INT64
  }

  lemma FirstDashIs(s: Bytes, n: nat)
    requires n <= |s| && (n < |s| ==> s[n] == MINUS) && forall i :: 0 <= i < n ==> s[i] != MINUS
    ensures FirstDash(s) == n
  {
    var f := FirstDash(s);
    assert f < |s| ==> s[f] == MINUS;
    assert n < |s| ==> n >= f;
  }

  lemma DigitsHaveNoDash(n: nat)
    ensures forall i :: 0 <= i < |Digits(n)| ==> Digits(n)[i] != MINUS
  {
    forall i | 0 <= i < |Digits(n)| ensures Digits(n)[i] != MINUS {
      assert IsDigit(Digits(n)[i]);
    }
  }

  /** A printed ID reads back as itself. */
  lemma ConvertPrinted(id: Id)
    requires InRange(id)
    ensures ConvertID(PrintID(id)) == Converted(id)
  {
    var a, b := Itoa(id.ms), Itoa(id.sq);
    var s := PrintID(id);
    DigitsHaveNoDash(id.ms);
    DigitsHaveNoDash(id.sq);
    FirstDashIs(s, |a|);
    FirstDashIs(b, |b|);
    assert s[..|a|] == a && s[|a| + 1..] == b;
    assert IsDigit(Digits(id.sq)[0]);
    AtoiItoa(id.ms);
    AtoiItoa(id.sq);
  }

  /** The text has one dash, with a number before it and a number or a star behind it. */
  predicate SplitBy(s: Bytes, a: Bytes, b: Bytes, id: Id)
  {
    && s == a + Ascii("-") + b && 45 !in a && 45 !in b
    && Atoi(a) == Num(id.ms) && if b == Ascii("*") then id.sq == -1 else Atoi(b) == Num(id.sq)
  }

  /** Exactly such texts are IDs. */
  lemma ConvertIff(s: Bytes, id: Id)
    ensures ConvertID(s) == Converted(id) <==> exists a, b :: SplitBy(s, a, b, id)
  {
    hide Atoi;
    assert Ascii("-") == [45] && Ascii("*") == [42];
    var n := FirstDash(s);
    if ConvertID(s) == Converted(id) {
      var a, b := s[..n], s[n + 1..];
      assert s == a + [45] + b;
      assert 45 !in b by {
        assert FirstDash(b) == |b|;
      }
      assert SplitBy(s, a, b, id);
    }
    if a, b :| SplitBy(s, a, b, id) {
      FirstDashIs(s, |a|);
      FirstDashIs(b, |b|);
      assert s[..|a|] == a && s[|a| + 1..] == b;
    }
  }

  /** ... and printed IDs look like this. */
  lemma PrintedLooksLike()
    ensures PrintID(Id(907, 12)) == Ascii("907-12") && ANY == Ascii("*")
  {
    assert Digits(907) == [57, 48, 55] && Digits(12) == [49, 50];
    assert Ascii("907-12") == [57, 48, 55, 45, 49, 50];
  }

  /** A printed ID with a negative second part has two dashes and does not read back. */
  lemma NegativeSequenceUnreadable(ms: nat, sq: int)
    requires sq < 0
    ensures ConvertID(PrintID(Id(ms, sq))) == InvalidId
  {
    var a, b := Itoa(ms), Itoa(sq);
    var s := PrintID(Id(ms, sq));
    DigitsHaveNoDash(ms);
    FirstDashIs(s, |a|);
    assert s[|a| + 1..] == b && b[0] == MINUS;
    FirstDashIs(b, 0);
  }

  /** Without a dash a number is never negative. */
  lemma DashlessNotNegative(s: Bytes)
    requires forall i :: 0 <= i < |s| ==> s[i] != MINUS
    ensures Atoi(s).Num? ==> 0 <= Atoi(s).value <= MAX_INT64
  {
  }

  lemma ConvertedParts(s: Bytes)
    ensures match ConvertID(s)
      case InvalidId => true
      case Converted(id) => 0 <= id.ms <= MAX_INT64 && -1 <= id.sq <= MAX_INT64
  {
    var n := FirstDash(s);
    if n < |s| {
      DashlessNotNegative(s[..n]);
      var t := s[n + 1..];
      var m := FirstDash(t);
      if m == |t| {
        DashlessNotNegative(t);
      }
    }
  }

  // Choosing an ID

  datatype IdError = InvalidSpecified | NotAboveZero | NotAboveTop

  datatype Resolved = Accepted(id: Bytes) | Rejected(error: IdError)

  function Max(a: int, b: int): int
  {
    if a > b then a else b
  }

  /** The ID that XADD gives an entry after the one called `last`, which is empty for a new stream. */
  function ResolveStreamID(requested: Bytes, last: Bytes, now: int): Resolved
  {
    var top := if last != [] then IdOf(last) else ZERO_ID;
    if requested == ANY then
      var ms := Max(now, top.ms);
      Accepted(PrintID(Id(ms, if ms == top.ms then Increment(top.sq) else 0)))
    else
      match ConvertID(requested)
      case InvalidId => Rejected(InvalidSpecified)
      case Converted(asked) =>
        var sq :=
          if asked.sq != -1 then asked.sq
          else if last != [] && asked.ms == top.ms then Increment(top.sq)
          else if asked.ms == 0 then 1
          else 0;
        var id := Id(asked.ms, sq);
        if id == ZERO_ID then Rejected(NotAboveZero)
        else if last != [] && !IdLess(top, id) then Rejected(NotAboveTop)
        else Accepted(PrintID(id))
  }

  /** A well-formed ID above 0-0, as stored. */
  predicate Canonical(s: Bytes)
  {
    var id := IdOf(s);
    s == PrintID(id) && InRange(id) && IdLess(ZERO_ID, id)
  }

  lemma PrintedCanonical(id: Id)
    requires InRange(id) && IdLess(ZERO_ID, id)
    ensures Canonical(PrintID(id)) && IdOf(PrintID(id)) == id
  {
    ConvertPrinted(id);
  }

  /** The one way an accepted ID is not above its predecessor: the sequence number of a bare star wraps. */
  predicate SequenceWraps(requested: Bytes, last: Bytes, now: int)
  {
    requested == ANY && last != [] && now <= IdOf(last).ms && IdOf(last).sq == MAX_INT64
  }

  /** With any clock, an accepted ID is well formed and above the last one exactly when no sequence
      number wraps. */
  lemma AcceptedIsAbove(requested: Bytes, last: Bytes, now: int)
    requires Int64(now) && (last == [] || Canonical(last))
    ensures var r := ResolveStreamID(requested, last, now);
      r.Accepted? ==>
        (Canonical(r.id) && (last != [] ==> IdLess(IdOf(last), IdOf(r.id))) <==> !SequenceWraps(requested, last, now))
  {
    hide ConvertID, PrintID;
    var top := if last != [] then IdOf(last) else ZERO_ID;
    if requested == ANY {
      var ms := Max(now, top.ms);
      var id := Id(ms, if ms == top.ms then Increment(top.sq) else 0);
      if SequenceWraps(requested, last, now) {
        NegativeSequenceUnreadable(ms, MIN_INT64);
      } else {
        PrintedCanonical(id);
      }
    } else {
      ConvertedParts(requested);
      match ResolveStreamID(requested, last, now)
      case Rejected(_) =>
      case Accepted(_) =>
        var asked := ConvertID(requested).id;
        var sq :=
          if asked.sq != -1 then asked.sq
          else if last != [] && asked.ms == top.ms then Increment(top.sq)
          else if asked.ms == 0 then 1 else 0;
        PrintedCanonical(Id(asked.ms, sq));
    }
  }

  /** A fully specified ID is taken as it is, and exactly when it is above 0-0 and above the last one. */
  lemma ExplicitIdAccepted(id: Id, last: Bytes, now: int)
    requires InRange(id) && (last == [] || Canonical(last))
    ensures ResolveStreamID(PrintID(id), last, now) ==
      if !IdLess(ZERO_ID, id) then Rejected(NotAboveZero)
      else if last != [] && !IdLess(IdOf(last), id) then Rejected(NotAboveTop)
      else Accepted(PrintID(id))
  {
    ConvertPrinted(id);
    assert |PrintID(id)| >= 3;
  }

  /** A bare star takes the least ID above the last one that is not before the clock. */
  lemma ClockedIsLeast(last: Bytes, now: int, other: Id)
    requires Int64(now) && (last == [] || Canonical(last)) && !SequenceWraps(ANY, last, now)
    ensures var r := ResolveStreamID(ANY, last, now);
      && r.Accepted? && Canonical(r.id) && IdOf(r.id).ms >= now && (last != [] ==> IdLess(IdOf(last), IdOf(r.id)))
      && (InRange(other) && IdLess(ZERO_ID, other) && (last != [] ==> IdLess(IdOf(last), other)) && other.ms >= now ==>
            IdAtMost(IdOf(r.id), other))
  {
    hide ConvertID, PrintID;
    var top := if last != [] then IdOf(last) else ZERO_ID;
    var ms := Max(now, top.ms);
    PrintedCanonical(Id(ms, if ms == top.ms then Increment(top.sq) else 0));
  }

  /** A new entry's ID for the milliseconds and a star: it has those milliseconds, and there is one exactly if
      some ID with them is allowed. */
  lemma HalfGivenIff(requested: Bytes, last: Bytes, now: int)
    requires last == [] || Canonical(last)
    requires requested != ANY && ConvertID(requested).Converted? && ConvertID(requested).id.sq == -1
    ensures var r, ms := ResolveStreamID(requested, last, now), ConvertID(requested).id.ms;
      && (r.Accepted? ==> IdOf(r.id).ms == ms)
      && (r.Accepted? <==> exists sq :: Allowed(Id(ms, sq), last))
      && (r.Rejected? ==> r.error == NotAboveTop)
  {
    hide ConvertID, PrintID;
    ConvertedParts(requested);
    var ms, top := ConvertID(requested).id.ms, if last != [] then IdOf(last) else ZERO_ID;
    var sq := if last != [] && ms == top.ms then Increment(top.sq) else if ms == 0 then 1 else 0;
    if ResolveStreamID(requested, last, now).Accepted? {
      PrintedCanonical(Id(ms, sq));
      assert Allowed(Id(ms, sq), last);
    }
  }

  predicate Allowed(id: Id, last: Bytes)
  {
    InRange(id) && IdLess(ZERO_ID, id) && (last != [] ==> IdLess(IdOf(last), id))
  }

  /** A generated ID is the least one its millisecond part allows. */
  lemma GeneratedIsLeast(requested: Bytes, last: Bytes, now: int, other: Id)
    requires Int64(now) && (last == [] || Canonical(last)) && !SequenceWraps(requested, last, now)
    requires requested == ANY || (ConvertID(requested).Converted? && ConvertID(requested).id.sq == -1)
    requires InRange(other) && IdLess(ZERO_ID, other) && (last != [] ==> IdLess(IdOf(last), other))
    ensures var r := ResolveStreamID(requested, last, now);
      r.Accepted? && other.ms == IdOf(r.id).ms ==> IdAtMost(IdOf(r.id), other)
  {
    hide ConvertID, PrintID;
    var top := if last != [] then IdOf(last) else ZERO_ID;
    var r := ResolveStreamID(requested, last, now);
    if requested == ANY {
      var ms := Max(now, top.ms);
      PrintedCanonical(Id(ms, if ms == top.ms then Increment(top.sq) else 0));
    } else {
      ConvertedParts(requested);
      var ms := ConvertID(requested).id.ms;
      if r.Accepted? {
        PrintedCanonical(Id(ms, if last != [] && ms == top.ms then Increment(top.sq) else if ms == 0 then 1 else 0));
      }
    }
  }
}
