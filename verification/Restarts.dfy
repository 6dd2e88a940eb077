/** Restarting again and again: replay logs its commands once more, so each restart runs every logged command
    twice as often as the one before. Which restarts survive that, and what they give back. */
module Restarts {
  import opened Bytes
  import opened Decimal
  import opened Resp
  import opened InputLoop
  import opened ListHandoff
  import opened StreamIds
  import opened Streams
  import opened StreamRuns
  import opened Database
  import opened AppendLog

  // ---------------------------------------------------------------- strings

  datatype Value = Missing | Held(text: Bytes)

  /** A string key's value, leaving its version aside: versions are only compared within a connection. */
  function ValueOf(db: Db, k: Bytes): Value
  {
    if k in db.data then Held(db.data[k].value) else Missing
  }

  /** A SET of the key that is not refused for its time to live. */
  predicate Sets(r: seq<Bytes>, k: Bytes)
  {
    && |r| >= 3 && ToLower(r[0]) == SET && r[1] == k
    && !(|r| > 4 && (ToLower(r[3]) == EX || ToLower(r[3]) == PX) && Atoi(r[4]).NotANumber?)
  }

  predicate Counts(r: seq<Bytes>, k: Bytes)
  {
    |r| >= 2 && ToLower(r[0]) == INCR && r[1] == k
  }

  function CountedUp(v: Value): Value
  {
    match v
    case Missing => Held([49])
    case Held(text) => match Atoi(text) case NotANumber => v case Num(n) => Held(Itoa(Increment(n)))
  }

  function ValueStep(v: Value, r: seq<Bytes>, k: Bytes): Value
  {
    if Sets(r, k) then Held(r[2]) else if Counts(r, k) then CountedUp(v) else v
  }

  function ValueAfter(v: Value, rs: seq<seq<Bytes>>, k: Bytes): Value
  {
    if |rs| == 0 then v else ValueStep(ValueAfter(v, rs[..|rs| - 1], k), rs[|rs| - 1], k)
  }

  lemma ValueMoves(st: State, r: seq<Bytes>, now: int, k: Bytes)
    requires st.alive && Handle(st, r, now).alive
    ensures ValueOf(Handle(st, r, now).db, k) == ValueStep(ValueOf(st.db, k), r, k)
  {
    hide Atoi, Itoa, Encode, Reverse, ResolveStreamID, ToUpper, LogLine;
    var name, args := ToLower(r[0]), r[1..];
    if name == SET {
      assert |args| > 3 ==> args[2] == r[3] && args[3] == r[4];
    }
  }

  lemma {:induction false} ValueAlong(st: State, rs: seq<seq<Bytes>>, clock: nat -> int, k: Bytes)
    requires HandleAll(st, rs, clock).alive
    ensures st.alive && ValueOf(HandleAll(st, rs, clock).db, k) == ValueAfter(ValueOf(st.db, k), rs, k)
  {
    hide Handle, ValueStep;
    if |rs| > 0 {
      var before, r := rs[..|rs| - 1], rs[|rs| - 1];
      DeadStaysDead(HandleAll(st, before, clock), r, clock(|before|));
      ValueAlong(st, before, clock, k);
      ValueMoves(HandleAll(st, before, clock), r, clock(|before|), k);
    }
  }

  lemma {:induction false} ValueConcat(v: Value, a: seq<seq<Bytes>>, b: seq<seq<Bytes>>, k: Bytes)
    ensures ValueAfter(v, a + b, k) == ValueAfter(ValueAfter(v, a, k), b, k)
    decreases |b|
  {
    hide ValueStep;
    if |b| == 0 {
      assert a + b == a;
    } else {
      assert (a + b)[..|a + b| - 1] == a + b[..|b| - 1];
      ValueConcat(v, a, b[..|b| - 1], k);
    }
  }

  predicate SetSomewhere(rs: seq<seq<Bytes>>, k: Bytes)
  {
    exists i :: 0 <= i < |rs| && Sets(rs[i], k)
  }

  function CountOf(rs: seq<seq<Bytes>>, k: Bytes): nat
  {
    if |rs| == 0 then 0 else CountOf(rs[..|rs| - 1], k) + if Counts(rs[|rs| - 1], k) then 1 else 0
  }

  /** A SET makes the value forget what came before the run. */
  lemma {:induction false} SetForgets(v: Value, w: Value, rs: seq<seq<Bytes>>, k: Bytes)
    requires SetSomewhere(rs, k)
    ensures ValueAfter(v, rs, k) == ValueAfter(w, rs, k)
  {
    hide Sets, Counts, CountedUp;
    var before, r := rs[..|rs| - 1], rs[|rs| - 1];
    if !Sets(r, k) {
      var i :| 0 <= i < |rs| && Sets(rs[i], k);
      assert Sets(before[i], k);
      SetForgets(v, w, before, k);
    }
  }

  /** Counting up `m` times. */
  function Up(n: int, m: nat): int
  {
    if m == 0 then n else Increment(Up(n, m - 1))
  }

  lemma {:induction false} UpWraps(n: int, m: nat)
    requires Int64(n)
    ensures Int64(Up(n, m)) && Up(n, m) == (n - MIN_INT64 + m) % TWO_TO_64 + MIN_INT64
  {
    if m > 0 {
      UpWraps(n, m - 1);
      OneMore(n - MIN_INT64 + (m - 1));
    }
  }

  lemma OneMore(n: nat)
    ensures (n + 1) % TWO_TO_64 == if n % TWO_TO_64 == TWO_TO_64 - 1 then 0 else n % TWO_TO_64 + 1
  {
  }

  lemma UpBackIff(m: nat)
    ensures Int64(Up(0, m)) && (Up(Up(0, m), m) == Up(0, m) <==> m % TWO_TO_64 == 0)
  {
    hide Up;
    UpWraps(0, m);
    var once := Up(0, m);
    UpWraps(once, m);
    SameResidue(once - MIN_INT64, m);
  }

  lemma SameResidue(x: nat, m: nat)
    requires x < TWO_TO_64
    ensures (x + m) % TWO_TO_64 == x <==> m % TWO_TO_64 == 0
  {
  }

  /** Without a SET, a run counts a number up. */
  lemma {:induction false} CountsUp(n: int, rs: seq<seq<Bytes>>, k: Bytes)
    requires Int64(n) && !SetSomewhere(rs, k)
    ensures ValueAfter(Held(Itoa(n)), rs, k) == Held(Itoa(Up(n, CountOf(rs, k))))
    ensures ValueAfter(Missing, rs, k) == if CountOf(rs, k) == 0 then Missing else Held(Itoa(Up(0, CountOf(rs, k))))
  {
    hide Sets, Counts, Atoi, Itoa;
    PrintedOne();
    if |rs| > 0 {
      var before, r := rs[..|rs| - 1], rs[|rs| - 1];
      assert !Sets(r, k);
      assert !SetSomewhere(before, k) by {
        forall i | 0 <= i < |before| ensures !Sets(before[i], k) {
          assert before[i] == rs[i];
        }
      }
      CountsUp(n, before, k);
      UpWraps(n, CountOf(before, k));
      UpWraps(0, CountOf(before, k));
      AtoiItoa(Up(n, CountOf(before, k)));
      AtoiItoa(Up(0, CountOf(before, k)));
    }
  }

  lemma PrintedOne()
    ensures Itoa(Increment(0)) == [49]
  {
  }

  /** A run that ends with the same value when it is run again: the key is SET in it, or not counted up,
      not counting full turns of 64 bits. */
  predicate StringComesBack(rs: seq<seq<Bytes>>, k: Bytes)
  {
    SetSomewhere(rs, k) || CountOf(rs, k) % TWO_TO_64 == 0
  }

  lemma StringBackIff(rs: seq<seq<Bytes>>, k: Bytes)
    ensures ValueAfter(ValueAfter(Missing, rs, k), rs, k) == ValueAfter(Missing, rs, k) <==> StringComesBack(rs, k)
  {
    hide ValueAfter, SetSomewhere, Itoa, Up, Atoi;
    if SetSomewhere(rs, k) {
      SetForgets(ValueAfter(Missing, rs, k), Missing, rs, k);
    } else {
      var m := CountOf(rs, k);
      CountsUp(0, rs, k);
      UpBackIff(m);
      if m > 0 {
        UpWraps(Up(0, m), m);
        CountsUp(Up(0, m), rs, k);
        AtoiItoa(Up(0, m));
        AtoiItoa(Up(Up(0, m), m));
      }
    }
  }

  // ---------------------------------------------------------------- streams

  predicate Adds(r: seq<Bytes>, key: Bytes)
  {
    |r| >= 3 && ToLower(r[0]) == XADD && r[1] == key
  }

  function StreamStep(es: seq<Entry>, r: seq<Bytes>, key: Bytes): seq<Entry>
  {
    if !Adds(r, key) then es
    else match ResolveStreamID(r[2], LastID(es), 0)
      case Rejected(_) => es
      case Accepted(id) => es + [Entry(id, Fields(r[3..]))]
  }

  function StreamAfterAll(es: seq<Entry>, rs: seq<seq<Bytes>>, key: Bytes): seq<Entry>
  {
    if |rs| == 0 then es else StreamStep(StreamAfterAll(es, rs[..|rs| - 1], key), rs[|rs| - 1], key)
  }

  /** No bare star: the ID does not depend on the clock. */
  predicate Clockless(r: seq<Bytes>)
  {
    |r| >= 3 && ToLower(r[0]) == XADD ==> r[2] != ANY
  }

  lemma StreamMoves(st: State, r: seq<Bytes>, now: int, key: Bytes)
    requires st.alive && Handle(st, r, now).alive && Clockless(r)
    ensures StreamOf(Handle(st, r, now).db, key) == StreamStep(StreamOf(st.db, key), r, key)
  {
    hide Atoi, Itoa, Encode, Reverse, ConvertID, PrintID, ToUpper, LogLine, IdOf, LastID;
    var name, args := ToLower(r[0]), r[1..];
    if name == XADD {
      assert args[2..] == r[3..];
    }
  }

  lemma {:induction false} StreamAlong(st: State, rs: seq<seq<Bytes>>, clock: nat -> int, key: Bytes)
    requires HandleAll(st, rs, clock).alive && forall i :: 0 <= i < |rs| ==> Clockless(rs[i])
    ensures st.alive && StreamOf(HandleAll(st, rs, clock).db, key) == StreamAfterAll(StreamOf(st.db, key), rs, key)
  {
    hide Handle, StreamStep, Clockless, StreamOf;
    if |rs| > 0 {
      var before, r := rs[..|rs| - 1], rs[|rs| - 1];
      DeadStaysDead(HandleAll(st, before, clock), r, clock(|before|));
      StreamAlong(st, before, clock, key);
      StreamMoves(HandleAll(st, before, clock), r, clock(|before|), key);
    }
  }

  lemma {:induction false} StreamConcat(es: seq<Entry>, a: seq<seq<Bytes>>, b: seq<seq<Bytes>>, key: Bytes)
    ensures StreamAfterAll(es, a + b, key) == StreamAfterAll(StreamAfterAll(es, a, key), b, key)
    decreases |b|
  {
    hide StreamStep;
    if |b| == 0 {
      assert a + b == a;
    } else {
      assert (a + b)[..|a + b| - 1] == a + b[..|b| - 1];
      StreamConcat(es, a, b[..|b| - 1], key);
    }
  }

  /** The last ID of a stream. */
  function TopOf(es: seq<Entry>): Id
  {
    IdOf(LastID(es))
  }

  /** A request whose sequence number the server chooses. */
  predicate HalfGiven(r: seq<Bytes>, key: Bytes)
  {
    Adds(r, key) && ConvertID(r[2]).Converted? && ConvertID(r[2]).id.sq == -1
  }

  /** The stream has gone past what the request asks for. */
  predicate Passed(es: seq<Entry>, r: seq<Bytes>, key: Bytes)
  {
    Adds(r, key) && ConvertID(r[2]).Converted? ==>
      var asked := ConvertID(r[2]).id;
      if asked.sq == -1 then es != [] && asked.ms <= TopOf(es).ms
      else asked == ZERO_ID || (es != [] && IdAtMost(asked, TopOf(es)))
  }

  /** The request is half given, with the milliseconds of the stream's last ID, and a number is left. */
  predicate TakenAgain(es: seq<Entry>, r: seq<Bytes>, key: Bytes)
  {
    HalfGiven(r, key) && es != [] && ConvertID(r[2]).id.ms == TopOf(es).ms && TopOf(es).sq < MAX_INT64
  }

  /** After a request the stream has gone past it, and not back. */
  lemma StepPasses(es: seq<Entry>, r: seq<Bytes>, key: Bytes)
    requires WellFormed(es) && Clockless(r)
    ensures var es' := StreamStep(es, r, key);
      && WellFormed(es') && Passed(es', r, key)
      && (es' == es || (|es'| == |es| + 1 && es' != [] && (es != [] ==> IdLess(TopOf(es), TopOf(es')))))
  {
    hide ConvertID, PrintID, StreamOk, Canonical;
    if Adds(r, key) {
      StreamTopId(es);
      AcceptedIsAbove(r[2], LastID(es), 0);
      ConvertedParts(r[2]);
      match ResolveStreamID(r[2], LastID(es), 0)
      case Rejected(_) =>
        TopCanonical(es);
      case Accepted(id) =>
        var e := Entry(id, Fields(r[3..]));
        StreamGrows(es, e);
        assert LastID(es + [e]) == id;
        AcceptedAsAsked(r[2], LastID(es));
    }
  }

  lemma TopCanonical(es: seq<Entry>)
    requires WellFormed(es)
    ensures es != [] ==> InRange(TopOf(es)) && LastID(es) != []
    ensures es == [] ==> LastID(es) == []
  {
    StreamTopId(es);
    hide IdOf;
  }

  lemma AcceptedAsAsked(requested: Bytes, last: Bytes)
    requires requested != ANY && (last == [] || Canonical(last)) && ResolveStreamID(requested, last, 0).Accepted?
    ensures ConvertID(requested).Converted?
    ensures var asked, id := ConvertID(requested).id, IdOf(ResolveStreamID(requested, last, 0).id);
      id.ms == asked.ms && (asked.sq != -1 ==> id == asked)
  {
    hide ConvertID, PrintID;
    ConvertedParts(requested);
    var top := if last != [] then IdOf(last) else ZERO_ID;
    var asked := ConvertID(requested).id;
    var sq :=
      if asked.sq != -1 then asked.sq
      else if last != [] && asked.ms == top.ms then Increment(top.sq)
      else if asked.ms == 0 then 1 else 0;
    PrintedCanonical(Id(asked.ms, sq));
  }

  /** What the stream has gone past stays behind it. */
  lemma StaysPassed(es: seq<Entry>, es': seq<Entry>, r: seq<Bytes>, key: Bytes)
    requires Passed(es, r, key) && (es' == es || (es' != [] && (es != [] ==> IdLess(TopOf(es), TopOf(es')))))
    ensures Passed(es', r, key)
  {
    hide ConvertID, TopOf;
  }

  lemma {:induction false} AllPassed(rs: seq<seq<Bytes>>, key: Bytes)
    requires forall i :: 0 <= i < |rs| ==> Clockless(rs[i])
    ensures var es := StreamAfterAll([], rs, key);
      WellFormed(es) && forall i :: 0 <= i < |rs| ==> Passed(es, rs[i], key)
  {
    hide Passed, StreamStep, Clockless, WellFormed, TopOf;
    NothingWellFormed();
    if |rs| > 0 {
      var before, r := rs[..|rs| - 1], rs[|rs| - 1];
      AllPassed(before, key);
      var es := StreamAfterAll([], before, key);
      StepPasses(es, r, key);
      forall i | 0 <= i < |rs| ensures Passed(StreamStep(es, r, key), rs[i], key) {
        if i < |before| {
          assert Passed(es, before[i], key);
          StaysPassed(es, StreamStep(es, r, key), rs[i], key);
        }
      }
    }
  }

  lemma NothingWellFormed()
    ensures WellFormed([])
  {
  }

  /** A stream that has gone past a request takes it again exactly if it is half given and meets the top. */
  lemma TakesIff(es: seq<Entry>, r: seq<Bytes>, key: Bytes)
    requires WellFormed(es) && Clockless(r) && Passed(es, r, key)
    ensures StreamStep(es, r, key) != es <==> TakenAgain(es, r, key)
  {
    hide ConvertID, PrintID, StreamOk, Canonical;
    TopCanonical(es);
    if Adds(r, key) {
      ConvertedParts(r[2]);
    }
  }

  lemma StreamOnlyGrows(es: seq<Entry>, r: seq<Bytes>, key: Bytes)
    ensures es <= StreamStep(es, r, key)
  {
    hide ResolveStreamID;
  }

  /** A run over a stream that has gone past all of it. */
  lemma {:induction false} RunAgain(es: seq<Entry>, rs: seq<seq<Bytes>>, key: Bytes)
    requires WellFormed(es) && forall i :: 0 <= i < |rs| ==> Clockless(rs[i]) && Passed(es, rs[i], key)
    ensures es <= StreamAfterAll(es, rs, key)
    ensures StreamAfterAll(es, rs, key) == es <==> forall i :: 0 <= i < |rs| ==> !TakenAgain(es, rs[i], key)
  {
    hide Passed, StreamStep, Clockless, WellFormed, TakenAgain;
    if |rs| > 0 {
      var before, r := rs[..|rs| - 1], rs[|rs| - 1];
      forall i | 0 <= i < |before| ensures before[i] == rs[i] {
      }
      RunAgain(es, before, key);
      StreamOnlyGrows(StreamAfterAll(es, before, key), r, key);
      if StreamAfterAll(es, before, key) == es {
        TakesIff(es, r, key);
      } else {
        var i :| 0 <= i < |before| && TakenAgain(es, before[i], key);
        assert TakenAgain(es, rs[i], key);
      }
    }
  }

  /** No request is half given with the final top's milliseconds, or no number is left there. */
  predicate StreamComesBack(rs: seq<seq<Bytes>>, key: Bytes, es: seq<Entry>)
  {
    forall i :: 0 <= i < |rs| ==> !TakenAgain(es, rs[i], key)
  }

  // ---------------------------------------------------------------- lists

  function ListStep(es: seq<Bytes>, r: seq<Bytes>, key: Bytes): seq<Bytes>
  {
    if |r| < 2 || r[1] != key then es
    else
      var name := ToLower(r[0]);
      if name == RPUSH then es + r[2..]
      else if name == LPUSH then Reverse(r[2..]) + es
      else if name == LPOP then
        var count := if |r| == 2 then 1 else AtoiValue(r[2]);
        if count < 0 then es else es[if count < |es| then count else |es|..]
      else es
  }

  function ListAfter(es: seq<Bytes>, rs: seq<seq<Bytes>>, key: Bytes): seq<Bytes>
  {
    if |rs| == 0 then es else ListStep(ListAfter(es, rs[..|rs| - 1], key), rs[|rs| - 1], key)
  }

  lemma ListMoves(st: State, r: seq<Bytes>, now: int, key: Bytes)
    requires st.alive && Handle(st, r, now).alive
    ensures ListOf(Handle(st, r, now).db, key) == ListStep(ListOf(st.db, key), r, key)
  {
    hide Atoi, AtoiValue, Itoa, Encode, ResolveStreamID, ToUpper, LogLine;
    var name, args := ToLower(r[0]), r[1..];
    if name == RPUSH || name == LPUSH {
      assert args[1..] == r[2..];
    }
  }

  lemma {:induction false} ListAlong(st: State, rs: seq<seq<Bytes>>, clock: nat -> int, key: Bytes)
    requires HandleAll(st, rs, clock).alive
    ensures st.alive && ListOf(HandleAll(st, rs, clock).db, key) == ListAfter(ListOf(st.db, key), rs, key)
  {
    hide Handle, ListStep, ListOf;
    if |rs| > 0 {
      var before, r := rs[..|rs| - 1], rs[|rs| - 1];
      DeadStaysDead(HandleAll(st, before, clock), r, clock(|before|));
      ListAlong(st, before, clock, key);
      ListMoves(HandleAll(st, before, clock), r, clock(|before|), key);
    }
  }

  lemma {:induction false} ListConcat(es: seq<Bytes>, a: seq<seq<Bytes>>, b: seq<seq<Bytes>>, key: Bytes)
    ensures ListAfter(es, a + b, key) == ListAfter(ListAfter(es, a, key), b, key)
    decreases |b|
  {
    hide ListStep;
    if |b| == 0 {
      assert a + b == a;
    } else {
      assert (a + b)[..|a + b| - 1] == a + b[..|b| - 1];
      ListConcat(es, a, b[..|b| - 1], key);
    }
  }

  predicate Pops(r: seq<Bytes>, key: Bytes)
  {
    |r| >= 2 && r[1] == key && ToLower(r[0]) == LPOP
  }

  /** The elements that the request asks for and does not get. */
  function ShortBy(es: seq<Bytes>, r: seq<Bytes>, key: Bytes): nat
  {
    if !Pops(r, key) then 0
    else
      var count := if |r| == 2 then 1 else AtoiValue(r[2]);
      if count > |es| then count - |es| else 0
  }

  /** The elements that the run's pops ask for and do not get, when it starts without the list. */
  function Missed(rs: seq<seq<Bytes>>, key: Bytes): nat
  {
    if |rs| == 0 then 0
    else
      var before := rs[..|rs| - 1];
      Missed(before, key) + ShortBy(ListAfter([], before, key), rs[|rs| - 1], key)
  }

  /** Two lists that are equal or of different length: a request keeps their difference, less what it misses
      of the shorter one. */
  lemma MissedStep(x: seq<Bytes>, y: seq<Bytes>, r: seq<Bytes>, key: Bytes)
    requires |x| >= |y| && (|x| == |y| ==> x == y)
    ensures var x', y', rest := ListStep(x, r, key), ListStep(y, r, key), |x| - |y| - ShortBy(y, r, key);
      |x'| == |y'| + (if rest > 0 then rest else 0) && (rest <= 0 ==> x' == y')
  {
    hide AtoiValue, ToLower;
  }

  /** A run over a list that is already there ends longer than one from nothing by the elements it does not
      pop, and with the same list if it pops them all. */
  lemma {:induction false} MissedAlong(x: seq<Bytes>, rs: seq<seq<Bytes>>, key: Bytes)
    ensures var x', y', rest := ListAfter(x, rs, key), ListAfter([], rs, key), |x| - Missed(rs, key);
      |x'| == |y'| + (if rest > 0 then rest else 0) && (rest <= 0 ==> x' == y')
  {
    hide ListStep, ShortBy;
    if |rs| > 0 {
      var before, r := rs[..|rs| - 1], rs[|rs| - 1];
      MissedAlong(x, before, key);
      MissedStep(ListAfter(x, before, key), ListAfter([], before, key), r, key);
    }
  }

  /** A run that ends with the same list when it is run again: its pops would have taken all of it. */
  predicate ListComesBack(rs: seq<seq<Bytes>>, key: Bytes, es: seq<Bytes>)
  {
    Missed(rs, key) >= |es|
  }

  lemma ListBackIff(rs: seq<seq<Bytes>>, key: Bytes)
    ensures var es := ListAfter([], rs, key); ListAfter(es, rs, key) == es <==> ListComesBack(rs, key, es)
  {
    hide ListAfter, Missed;
    MissedAlong(ListAfter([], rs, key), rs, key);
  }

  // ---------------------------------------------------------------- panics

  /** A negative count, which panics if and only if the list exists. */
  predicate NegativePop(r: seq<Bytes>)
  {
    |r| >= 3 && ToLower(r[0]) == LPOP && AtoiValue(r[2]) < 0
  }

  predicate MakesList(r: seq<Bytes>, key: Bytes)
  {
    |r| >= 2 && r[1] == key && (ToLower(r[0]) == RPUSH || ToLower(r[0]) == LPUSH)
  }

  /** A request survives in a store exactly if it does in an empty one and pops no negative count from a
      list that is there. */
  lemma SurvivesIff(st: State, r: seq<Bytes>, now: int, other: int)
    requires st.alive
    ensures Handle(st, r, now).alive <==> Handle(FRESH, r, other).alive && !(NegativePop(r) && r[1] in st.db.lists)
  {
    hide Atoi, AtoiValue, Itoa, Encode, Reverse, ResolveStreamID, ToUpper, LogLine, Fields;
    if |r| > 0 {
      assert |r[1..]| > 1 ==> r[1..][1] == r[2];
    }
  }

  lemma ListsAfter(st: State, r: seq<Bytes>, now: int)
    requires st.alive && Handle(st, r, now).alive
    ensures forall key :: key in Handle(st, r, now).db.lists <==> key in st.db.lists || MakesList(r, key)
  {
    hide Atoi, AtoiValue, Itoa, Encode, Reverse, ResolveStreamID, ToUpper, LogLine, Fields;
  }

  lemma {:induction false} HandleAllConcat(st: State, a: seq<seq<Bytes>>, b: seq<seq<Bytes>>, clock: nat -> int)
    ensures HandleAll(st, a + b, clock) == HandleAll(HandleAll(st, a, clock), b, (i: nat) => clock(|a| + i))
    decreases |b|
  {
    hide Handle;
    if |b| == 0 {
      assert a + b == a;
    } else {
      assert (a + b)[..|a + b| - 1] == a + b[..|b| - 1];
      HandleAllConcat(st, a, b[..|b| - 1], clock);
    }
  }

  /** What a run that survived tells of its requests. */
  lemma {:induction false} EachSurvived(rs: seq<seq<Bytes>>, clock: nat -> int)
    requires HandleAll(FRESH, rs, clock).alive
    ensures forall r :: r in rs ==> Handle(FRESH, r, 0).alive
    ensures forall r, key :: r in rs && MakesList(r, key) ==> key in HandleAll(FRESH, rs, clock).db.lists
  {
    hide Handle, MakesList;
    if |rs| > 0 {
      var before, r := rs[..|rs| - 1], rs[|rs| - 1];
      var st := HandleAll(FRESH, before, clock);
      DeadStaysDead(st, r, clock(|before|));
      EachSurvived(before, clock);
      SurvivesIff(st, r, clock(|before|), 0);
      ListsAfter(st, r, clock(|before|));
      assert rs == before + [r];
    }
  }

  /** No request pops a negative count from a list that is there in the end. */
  ghost predicate NoNegativePop(rs: seq<seq<Bytes>>, db: Db)
  {
    forall r :: r in rs && NegativePop(r) ==> r[1] !in db.lists
  }

  /** Where all lists that a run makes exist already, it survives exactly without such a request. */
  lemma {:induction false} SurvivesAgainIff(st: State, rs: seq<seq<Bytes>>, clock: nat -> int)
    requires st.alive && forall r :: r in rs ==> Handle(FRESH, r, 0).alive
    requires forall r, key :: r in rs && MakesList(r, key) ==> key in st.db.lists
    ensures var end := HandleAll(st, rs, clock);
      && (end.alive <==> NoNegativePop(rs, st.db))
      && (end.alive ==> end.db.lists.Keys == st.db.lists.Keys)
  {
    hide Handle, MakesList, NegativePop;
    if |rs| > 0 {
      var before, r := rs[..|rs| - 1], rs[|rs| - 1];
      assert rs == before + [r];
      SurvivesAgainIff(st, before, clock);
      var mid := HandleAll(st, before, clock);
      DeadStaysDead(mid, r, clock(|before|));
      if mid.alive {
        SurvivesIff(mid, r, clock(|before|), 0);
        if Handle(mid, r, clock(|before|)).alive {
          ListsAfter(mid, r, clock(|before|));
        }
      }
    }
  }

  lemma {:induction false} DoubledHas(rs: seq<seq<Bytes>>, n: nat)
    ensures forall r :: r in Doubled(rs, n) <==> r in rs
  {
    if n > 0 {
      DoubledHas(rs, n - 1);
    }
  }

  lemma {:induction false} DoubledSurvivesIff(rs: seq<seq<Bytes>>, clock: nat -> int, n: nat)
    requires HandleAll(FRESH, rs, clock).alive
    ensures var live, run := HandleAll(FRESH, rs, clock), HandleAll(FRESH, Doubled(rs, n), clock);
      && (run.alive <==> n == 0 || NoNegativePop(rs, live.db))
      && (run.alive ==> run.db.lists.Keys == live.db.lists.Keys)
  {
    hide HandleAll, Handle, MakesList, NegativePop;
    if n > 0 {
      var half := Doubled(rs, n - 1);
      var once := HandleAll(FRESH, half, clock);
      DoubledSurvivesIff(rs, clock, n - 1);
      DoubledHas(rs, n - 1);
      EachSurvived(rs, clock);
      if once.alive {
        HandleAllConcat(FRESH, half, half, clock);
        SurvivesAgainIff(once, half, (i: nat) => clock(|half| + i));
      } else {
        DeadAll(FRESH, half, half, clock);
      }
    }
  }

  /** Each restart but the first survives if and only if the server was alive and none of the requests pops
      a negative count from a list of the live database. */
  lemma LaterRestartsSurviveIff(rs: seq<seq<Bytes>>, clock: nat -> int, later: nat -> int, n: nat)
    requires Replayable(rs) && Sendable(LogOf(rs)) && n > 0
    ensures var live := HandleAll(FRESH, rs, clock);
      Restarted(live.file, later, n).alive <==> live.alive && NoNegativePop(rs, live.db)
  {
    hide HandleAll, Restart, LogOf, Sendable, Replayable, NegativePop, Restarted;
    RestartsRunDoubled(rs, clock, later, n);
    if HandleAll(FRESH, rs, clock).alive {
      DoubledSurvivesIff(rs, clock, n);
    } else {
      DoubledDies(rs, clock, n);
    }
  }

  lemma {:induction false} DoubledDies(rs: seq<seq<Bytes>>, clock: nat -> int, n: nat)
    requires !HandleAll(FRESH, rs, clock).alive
    ensures !HandleAll(FRESH, Doubled(rs, n), clock).alive
  {
    hide HandleAll;
    if n > 0 {
      DoubledDies(rs, clock, n - 1);
      DeadAll(FRESH, Doubled(rs, n - 1), Doubled(rs, n - 1), clock);
    }
  }

  const MINUS_ONE: Bytes := [45, 49]

  lemma NegativePopSteps(key: Bytes, v: Bytes, now: int, later: int)
    ensures var pop, push := [LPOP, key, MINUS_ONE], [RPUSH, key, v];
      var s1 := Handle(FRESH, pop, now); var s2 := Handle(s1, push, later);
      && NegativePop(pop) && s1.alive && s2.alive && ListOf(s2.db, key) == [v] && key in s2.db.lists
      && ToLower(LPOP) == LPOP && ToLower(RPUSH) == RPUSH && IsLogged(LPOP) && IsLogged(RPUSH)
  {
    hide ToUpper, Encode, Itoa;
    assert ToLower(LPOP) == LPOP && ToLower(RPUSH) == RPUSH;
    PrintedMinusOne();
    AtoiItoa(-1);
    var pop, push := [LPOP, key, MINUS_ONE], [RPUSH, key, v];
    assert pop[1..] == [key, MINUS_ONE] && push[1..] == [key, v] && [key, v][1..] == [v];
  }

  lemma PrintedMinusOne()
    ensures Itoa(-1) == MINUS_ONE
  {
  }

  /** Popping a negative count from a list that is made only later is harmless live and at the first restart;
      no later restart survives it. */
  lemma NegativePopEndsRestarts(key: Bytes, v: Bytes, clock: nat -> int, n: nat)
    requires |Encode([RPUSH, key, v])| <= MAX_INT64 && |Encode([LPOP, key, MINUS_ONE])| <= MAX_INT64
    ensures var live := HandleAll(FRESH, [[LPOP, key, MINUS_ONE], [RPUSH, key, v]], clock);
      && live.alive && ListOf(live.db, key) == [v]
      && (Restarted(live.file, clock, n).alive <==> n == 0)
  {
    hide Handle, Restart, LogOf, Sendable, Replayable, NegativePop, ListOf, ToLower;
    var pop, push := [LPOP, key, MINUS_ONE], [RPUSH, key, v];
    var rs := [pop, push];
    NegativePopSteps(key, v, clock(0), clock(1));
    HandleAllSnoc(FRESH, [], pop, clock);
    HandleAllSnoc(FRESH, [pop], push, clock);
    assert [] + [pop] == [pop] && [pop] + [push] == rs;
    NegativePopLog(key, v);
    RestartRebuilds(rs, clock, clock);
    if n > 0 {
      LaterRestartsSurviveIff(rs, clock, clock, n);
      assert pop in rs && NegativePop(pop) && pop[1] == key;
    }
  }

  lemma NamesLower()
    ensures ToLower(LPOP) == LPOP && ToLower(RPUSH) == RPUSH
  {
  }

  lemma NegativePopLog(key: Bytes, v: Bytes)
    requires |Encode([RPUSH, key, v])| <= MAX_INT64 && |Encode([LPOP, key, MINUS_ONE])| <= MAX_INT64
    ensures var rs := [[LPOP, key, MINUS_ONE], [RPUSH, key, v]]; Replayable(rs) && Sendable(LogOf(rs))
  {
    var pop, push := [LPOP, key, MINUS_ONE], [RPUSH, key, v];
    NamesLower();
    hide Encode, ToUpper, ToLower;
    LogOfSnoc([], pop);
    LogOfSnoc([pop], push);
    assert [] + [pop] == [pop] && [pop] + [push] == [pop, push];
    UpperSameSize(LPOP, key, MINUS_ONE);
    UpperSameSize(RPUSH, key, v);
    assert [ToUpper(LPOP)] + pop[1..] == [ToUpper(LPOP), key, MINUS_ONE];
    assert [ToUpper(RPUSH)] + push[1..] == [ToUpper(RPUSH), key, v];
  }

  // ---------------------------------------------------------------- what comes back

  /** What the store holds under a key, versions aside. */
  datatype Contents = Contents(value: Value, stream: seq<Entry>, list: seq<Bytes>)

  const NOTHING := Contents(Missing, [], [])

  function ContentsOf(db: Db, k: Bytes): Contents
  {
    Contents(ValueOf(db, k), StreamOf(db, k), ListOf(db, k))
  }

  function ContentsAfter(c: Contents, rs: seq<seq<Bytes>>, k: Bytes): Contents
  {
    Contents(ValueAfter(c.value, rs, k), StreamAfterAll(c.stream, rs, k), ListAfter(c.list, rs, k))
  }

  lemma ContentsConcat(c: Contents, a: seq<seq<Bytes>>, b: seq<seq<Bytes>>, k: Bytes)
    ensures ContentsAfter(c, a + b, k) == ContentsAfter(ContentsAfter(c, a, k), b, k)
  {
    hide ValueAfter, StreamAfterAll, ListAfter;
    ValueConcat(c.value, a, b, k);
    StreamConcat(c.stream, a, b, k);
    ListConcat(c.list, a, b, k);
  }

  lemma ContentsAlong(rs: seq<seq<Bytes>>, clock: nat -> int, k: Bytes)
    requires Replayable(rs) && HandleAll(FRESH, rs, clock).alive
    ensures ContentsOf(HandleAll(FRESH, rs, clock).db, k) == ContentsAfter(NOTHING, rs, k)
  {
    hide HandleAll, Replayable, ValueAfter, StreamAfterAll, ListAfter, Clockless;
    ReplayableClockless(rs);
    ValueAlong(FRESH, rs, clock, k);
    StreamAlong(FRESH, rs, clock, k);
    ListAlong(FRESH, rs, clock, k);
  }

  lemma ReplayableClockless(rs: seq<seq<Bytes>>)
    requires Replayable(rs)
    ensures forall i :: 0 <= i < |rs| ==> Clockless(rs[i])
  {
    hide ToLower;
    forall i | 0 <= i < |rs| ensures Clockless(rs[i]) {
      assert rs[i][1..] != [] ==> |rs[i]| >= 3 ==> rs[i][1..][1] == rs[i][2];
    }
  }

  /** What running the requests again gives back of one key: its string if and only if they set it or never
      count it up; its stream if and only if no request would be taken again; its list if and only if its
      pops missed as much as it holds. */
  lemma RunAgainGivesBack(rs: seq<seq<Bytes>>, k: Bytes)
    requires forall i :: 0 <= i < |rs| ==> Clockless(rs[i])
    ensures var c := ContentsAfter(NOTHING, rs, k); var again := ContentsAfter(c, rs, k);
      && (again.value == c.value <==> StringComesBack(rs, k))
      && (again.stream == c.stream <==> StreamComesBack(rs, k, c.stream))
      && (again.list == c.list <==> ListComesBack(rs, k, c.list))
  {
    hide StringComesBack, ListComesBack, ValueAfter, StreamAfterAll, ListAfter, Clockless, WellFormed, Passed,
      TakenAgain;
    StringBackIff(rs, k);
    AllPassed(rs, k);
    RunAgain(StreamAfterAll([], rs, k), rs, k);
    ListBackIff(rs, k);
  }

  /** ... which is what the second restart gives back, as long as it survives. */
  lemma SecondRestartGivesBack(rs: seq<seq<Bytes>>, clock: nat -> int, later: nat -> int, k: Bytes)
    requires Replayable(rs) && Sendable(LogOf(rs)) && HandleAll(FRESH, rs, clock).alive
    requires NoNegativePop(rs, HandleAll(FRESH, rs, clock).db)
    ensures var live := HandleAll(FRESH, rs, clock);
      var again := Restart(Restart(live.file, later).file, later);
      && again.alive
      && (ValueOf(again.db, k) == ValueOf(live.db, k) <==> StringComesBack(rs, k))
      && (StreamOf(again.db, k) == StreamOf(live.db, k) <==> StreamComesBack(rs, k, StreamOf(live.db, k)))
      && (ListOf(again.db, k) == ListOf(live.db, k) <==> ListComesBack(rs, k, ListOf(live.db, k)))
  {
    hide HandleAll, Restart, LogOf, Sendable, StringComesBack, StreamComesBack, ListComesBack, ValueAfter,
      StreamAfterAll, ListAfter, Replayable, Clockless, NoNegativePop, ValueOf, StreamOf, ListOf;
    SecondRestart(rs, clock, later);
    DoubledSurvivesIff(rs, clock, 1);
    assert Doubled(rs, 1) == Doubled(rs, 0) + Doubled(rs, 0);
    DoubledFacts(rs, 1);
    ContentsAlong(rs, clock, k);
    ContentsAlong(rs + rs, clock, k);
    ContentsConcat(NOTHING, rs, rs, k);
    ReplayableClockless(rs);
    RunAgainGivesBack(rs, k);
  }

  /** The same values, streams and lists under every key. */
  ghost predicate SameContents(a: Db, b: Db)
  {
    forall k :: ContentsOf(a, k) == ContentsOf(b, k)
  }

  /** What makes the second restart give back all that a key holds. */
  ghost predicate KeyComesBack(rs: seq<seq<Bytes>>, live: Db, k: Bytes)
  {
    StringComesBack(rs, k) && StreamComesBack(rs, k, StreamOf(live, k)) && ListComesBack(rs, k, ListOf(live, k))
  }

  ghost predicate ComesBack(rs: seq<seq<Bytes>>, live: Db)
  {
    forall k :: KeyComesBack(rs, live, k)
  }

  /** The second restart survives with the whole database, versions aside, if and only if the server was
      alive, nothing pops a negative count from a list of its database, and every key comes back. */
  lemma SecondRestartIff(rs: seq<seq<Bytes>>, clock: nat -> int, later: nat -> int)
    requires Replayable(rs) && Sendable(LogOf(rs))
    ensures var live := HandleAll(FRESH, rs, clock);
      var again := Restart(Restart(live.file, later).file, later);
      again.alive && SameContents(again.db, live.db) <==>
      live.alive && NoNegativePop(rs, live.db) && ComesBack(rs, live.db)
  {
    hide HandleAll, Restart, LogOf, Sendable, StringComesBack, StreamComesBack, ListComesBack, ValueOf, ListOf,
      StreamOf, Replayable, NoNegativePop;
    var live := HandleAll(FRESH, rs, clock);
    var again := Restart(Restart(live.file, later).file, later);
    TwiceRestarted(live.file, later);
    LaterRestartsSurviveIff(rs, clock, later, 1);
    if live.alive && NoNegativePop(rs, live.db) {
      forall k ensures ContentsOf(again.db, k) == ContentsOf(live.db, k) <==> KeyComesBack(rs, live.db, k) {
        SecondRestartGivesBack(rs, clock, later, k);
      }
    }
  }

  lemma TwiceRestarted(file: Bytes, later: nat -> int)
    ensures Restarted(file, later, 1) == Restart(Restart(file, later).file, later)
  {
    hide Restart;
    assert Restarted(file, later, 1) == Restart(Restarted(file, later, 0).file, later);
  }

  /** What comes back once comes back however often the requests are run. */
  lemma {:induction false} DoubledGivesBack(rs: seq<seq<Bytes>>, n: nat, k: Bytes)
    requires var c := ContentsAfter(NOTHING, rs, k); ContentsAfter(c, rs, k) == c
    ensures var c := ContentsAfter(NOTHING, rs, k);
      ContentsAfter(NOTHING, Doubled(rs, n), k) == c && ContentsAfter(c, Doubled(rs, n), k) == c
  {
    hide ContentsAfter;
    if n > 0 {
      var half := Doubled(rs, n - 1);
      DoubledGivesBack(rs, n - 1, k);
      ContentsConcat(NOTHING, half, half, k);
      ContentsConcat(ContentsAfter(NOTHING, rs, k), half, half, k);
    }
  }

  /** The second restart decides for all: every restart survives with the whole database under the same
      condition, and under no other. */
  lemma EveryRestartIff(rs: seq<seq<Bytes>>, clock: nat -> int, later: nat -> int)
    requires Replayable(rs) && Sendable(LogOf(rs))
    ensures var live := HandleAll(FRESH, rs, clock);
      (forall n :: var s := Restarted(live.file, later, n); s.alive && SameContents(s.db, live.db)) <==>
      live.alive && NoNegativePop(rs, live.db) && ComesBack(rs, live.db)
  {
    hide HandleAll, Restart, LogOf, Sendable, Replayable, NoNegativePop, ContentsOf, Restarted, ComesBack;
    var live := HandleAll(FRESH, rs, clock);
    SecondRestartIff(rs, clock, later);
    TwiceRestarted(live.file, later);
    if live.alive && NoNegativePop(rs, live.db) && ComesBack(rs, live.db) {
      forall n: nat ensures var s := Restarted(live.file, later, n); s.alive && SameContents(s.db, live.db) {
        RestartGivesBack(rs, clock, later, n);
      }
    }
  }

  lemma RestartGivesBack(rs: seq<seq<Bytes>>, clock: nat -> int, later: nat -> int, n: nat)
    requires Replayable(rs) && Sendable(LogOf(rs)) && HandleAll(FRESH, rs, clock).alive
    requires NoNegativePop(rs, HandleAll(FRESH, rs, clock).db) && ComesBack(rs, HandleAll(FRESH, rs, clock).db)
    ensures var live, s := HandleAll(FRESH, rs, clock), Restarted(HandleAll(FRESH, rs, clock).file, later, n);
      s.alive && SameContents(s.db, live.db)
  {
    hide HandleAll, Restart, LogOf, Sendable, Replayable, NoNegativePop, Restarted, Clockless, ContentsAfter,
      StringComesBack, StreamComesBack, ListComesBack;
    var live, s := HandleAll(FRESH, rs, clock), Restarted(HandleAll(FRESH, rs, clock).file, later, n);
    RestartsRunDoubled(rs, clock, later, n);
    DoubledSurvivesIff(rs, clock, n);
    DoubledFacts(rs, n);
    ReplayableClockless(rs);
    forall k ensures ContentsOf(s.db, k) == ContentsOf(live.db, k) {
      assert KeyComesBack(rs, live.db, k);
      ContentsAlong(rs, clock, k);
      ContentsAlong(Doubled(rs, n), clock, k);
      RunAgainGivesBack(rs, k);
      DoubledGivesBack(rs, n, k);
    }
  }

  /** A value pushed once stands in its list twice after two restarts. */
  lemma ListGrowsByRestarting(key: Bytes, v: Bytes, clock: nat -> int)
    requires |Encode([RPUSH, key, v])| <= MAX_INT64
    ensures var live := HandleAll(FRESH, [[RPUSH, key, v]], clock);
      && ListOf(live.db, key) == [v]
      && ListOf(Restart(Restart(live.file, clock).file, clock).db, key) == [v, v]
  {
    var rs := [[RPUSH, key, v]];
    PushTwice(key, v, clock);
    SendablePush(key, v);
    SecondRestart(rs, clock, clock);
  }

  lemma PushTwice(key: Bytes, v: Bytes, clock: nat -> int)
    ensures var rs := [[RPUSH, key, v]];
      && Replayable(rs) && HandleAll(FRESH, rs + rs, clock).alive
      && ListOf(HandleAll(FRESH, rs, clock).db, key) == [v]
      && ListOf(HandleAll(FRESH, rs + rs, clock).db, key) == [v, v]
  {
    hide ToUpper, Encode;
    var r := [RPUSH, key, v];
    assert ToLower(RPUSH) == RPUSH;
    assert r[1..] == [key, v] && [key, v][1..] == [v];
    var s1 := Handle(FRESH, r, clock(0));
    assert s1.alive && ListOf(s1.db, key) == [v];
    var s2 := Handle(s1, r, clock(1));
    assert s2.alive && ListOf(s2.db, key) == [v] + [v];
    HandleAllSnoc(FRESH, [], r, clock);
    HandleAllSnoc(FRESH, [r], r, clock);
    assert [] + [r] == [r];
  }

  lemma SendablePush(key: Bytes, v: Bytes)
    requires |Encode([RPUSH, key, v])| <= MAX_INT64
    ensures var rs := [[RPUSH, key, v]]; Sendable(LogOf(rs + rs))
  {
    var r := [RPUSH, key, v];
    var up := [ToUpper(ToLower(RPUSH))] + r[1..];
    assert ToLower(RPUSH) == RPUSH && IsLogged(RPUSH);
    hide Encode, ToUpper;
    LogOfSnoc([], r);
    LogOfSnoc([r], r);
    assert [] + [r] == [r];
    UpperSameSize(RPUSH, key, v);
    assert up == [ToUpper(RPUSH), key, v];
  }

  lemma UpperSameSize(name: Bytes, a: Bytes, b: Bytes)
    ensures |Encode([ToUpper(name), a, b])| == |Encode([name, a, b])|
  {
    hide ToUpper, Itoa;
    BulksThree(ToUpper(name), a, b);
    BulksThree(name, a, b);
    EncodeParts(3, ToUpper(name));
    EncodeParts(3, name);
  }

  lemma BulksThree(a: Bytes, b: Bytes, c: Bytes)
    ensures |Bulks([a, b, c])| == |Bulk(a)| + |Bulk(b)| + |Bulk(c)|
  {
    hide Bulk;
    BulksSnoc([], a);
    BulksSnoc([a], b);
    BulksSnoc([a, b], c);
    assert [] + [a] == [a] && [a] + [b] == [a, b] && [a, b] + [c] == [a, b, c];
  }
}
