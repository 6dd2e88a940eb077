/** The append-only log: every modifying command is written out before it runs, and a restart runs the
    log again. */
module AppendLog {
  import opened Bytes
  import opened Decimal
  import opened Resp
  import opened RespRoundTrip
  import opened InputLoop
  import opened Database

  /** The store, the log file and whether the server still runs. */
  datatype State = State(db: Db, file: Bytes, alive: bool)

  const FRESH := State(EMPTY, [], true)

  function LogLine(name: Bytes, args: seq<Bytes>): Bytes
  {
    Encode([ToUpper(name)] + args)
  }

  /** One request through the dispatcher. Commands that are not logged leave this store alone. */
  function Handle(st: State, request: seq<Bytes>, now: int): State
  {
    if !st.alive then st
    else if |request| == 0 then st.(alive := false)
    else
      var name, args := ToLower(request[0]), request[1..];
      if !IsLogged(name) then st
      else
        var logged := st.(file := st.file + LogLine(name, args));
        match Run(st.db, name, args, now)
        case Ran(db) => logged.(db := db)
        case Panicked => logged.(alive := false)
  }

  function HandleAll(st: State, requests: seq<seq<Bytes>>, clock: nat -> int): State
  {
    if |requests| == 0 then st
    else Handle(HandleAll(st, requests[..|requests| - 1], clock), requests[|requests| - 1], clock(|requests| - 1))
  }

  /** Runs whatever parses at the start of `buf`, then the rest, until the buffer is empty or does not parse. */
  function ReplayFrom(st: State, buf: Bytes, clock: nat -> int, n: nat): State
    decreases |buf|
  {
    if |buf| == 0 || !st.alive then st
    else match ParseResult(buf)
      case Failed(_) => st
      case Panics => st.(alive := false)
      case Parsed(request, pos) => ReplayFrom(Handle(st, request, clock(n)), buf[pos..], clock, n + 1)
  }

  /** What a restart makes of a log file: the file is read once, and replaying logs again behind it. */
  function Restart(file: Bytes, clock: nat -> int): State
  {
    ReplayFrom(State(EMPTY, file, true), file, clock, 0)
  }

  /** A request is logged in capitals, its arguments as they are, whatever becomes of it. */
  lemma LoggedAs(st: State, request: seq<Bytes>, now: int)
    requires st.alive && |request| > 0
    ensures ToLower(request[0]) == Ascii("set") ==>
      Handle(st, request, now).file == st.file + Encode([Ascii("SET")] + request[1..])
    ensures ToLower(request[0]) == Ascii("lpop") ==>
      Handle(st, request, now).file == st.file + Encode([Ascii("LPOP")] + request[1..])
    ensures !IsLogged(ToLower(request[0])) ==> Handle(st, request, now) == st
  {
    hide Encode, Run;
    CommandNames();
    Capitals();
    hide ToLower, ToUpper, Ascii;
  }

  lemma Capitals()
    ensures ToUpper(Ascii("set")) == Ascii("SET") && ToUpper(Ascii("lpop")) == Ascii("LPOP")
  {
  }

  class Handler {
    var db: Db
    var file: Bytes
    var aofBuffer: seq<Bytes>
    var alive: bool

    ghost function View(): State
      reads this
    {
      State(db, file, alive)
    }

    constructor (file: Bytes)
      ensures View() == State(EMPTY, file, true) && aofBuffer == []
    {
      db, this.file, aofBuffer, alive := EMPTY, file, [], true;
    }

    method FlushWriteCmdsToAOF()
      modifies `file, `aofBuffer
      ensures file == old(file) + Joined(old(aofBuffer)) && aofBuffer == []
    {
      for i := 0 to |aofBuffer|
        invariant aofBuffer == old(aofBuffer) && file == old(file) + Joined(aofBuffer[..i])
      {
        file := file + aofBuffer[i];
        JoinedSnoc(aofBuffer[..i], aofBuffer[i]);
        assert aofBuffer[..i + 1] == aofBuffer[..i] + [aofBuffer[i]];
      }
      assert aofBuffer[..|aofBuffer|] == aofBuffer;
      aofBuffer := [];
    }

    method HandleModifyingCmd(cmd: Bytes, args: seq<Bytes>)
      requires aofBuffer == []
      modifies `file, `aofBuffer
      ensures file == old(file) + LogLine(cmd, args) && aofBuffer == []
    {
      var aofLine := FormatPropagatedCommand(ToUpper(cmd), args);
      aofBuffer := aofBuffer + [aofLine];
      FlushWriteCmdsToAOF();
      assert Joined([aofLine]) == aofLine + Joined([]);
    }

    method HandleCommands(request: seq<Bytes>, now: int)
      requires aofBuffer == []
      modifies this
      ensures View() == Handle(old(View()), request, now) && aofBuffer == []
    {
      if !alive {
        return;
      }
      if |request| == 0 {
        alive := false;
        return;
      }
      var name, args := ToLower(request[0]), request[1..];
      if !IsLogged(name) {
        return;
      }
      HandleModifyingCmd(name, args);
      var r := Run(db, name, args, now);
      match r
      case Ran(after) => db := after;
      case Panicked => alive := false;
    }

    /** Reads the whole file, then runs one parsed command after the other. */
    method RebuildState(clock: nat -> int)
      requires aofBuffer == []
      modifies this
      ensures View() == ReplayFrom(old(View()), old(file), clock, 0)
    {
      var buf := file;
      var n := 0;
      while |buf| > 0 && alive
        invariant aofBuffer == []
        invariant ReplayFrom(View(), buf, clock, n) == ReplayFrom(old(View()), old(file), clock, 0)
        decreases |buf|
      {
        var parsed := ParseCommand(buf);
        match parsed
        case Failed(_) =>
          return;
        case Panics =>
          alive := false;
          return;
        case Parsed(request, pos) =>
          HandleCommands(request, clock(n));
          buf := buf[pos..];
          n := n + 1;
      }
    }
  }

  lemma {:induction false} JoinedSnoc(chunks: seq<Bytes>, c: Bytes)
    ensures Joined(chunks + [c]) == Joined(chunks) + c
  {
    if |chunks| == 0 {
      assert chunks + [c] == [c] && [c][1..] == [];
      assert Joined([c]) == c + Joined([]);
    } else {
      assert (chunks + [c])[1..] == chunks[1..] + [c];
      JoinedSnoc(chunks[1..], c);
    }
  }

  // The log as a stream of commands

  /** The logged form of the requests that are logged. */
  function LogOf(requests: seq<seq<Bytes>>): seq<seq<Bytes>>
  {
    if |requests| == 0 then []
    else
      var before, request := LogOf(requests[..|requests| - 1]), requests[|requests| - 1];
      if |request| > 0 && IsLogged(ToLower(request[0]))
      then before + [[ToUpper(ToLower(request[0]))] + request[1..]]
      else before
  }

  /** Requests a live server gets: named, and their outcome fixed by the store alone. */
  ghost predicate Replayable(requests: seq<seq<Bytes>>)
  {
    forall i :: 0 <= i < |requests| ==> |requests[i]| > 0 && Deterministic(ToLower(requests[i][0]), requests[i][1..])
  }

  lemma {:induction false} WireSnoc(cmds: seq<seq<Bytes>>, c: seq<Bytes>)
    ensures Wire(cmds + [c]) == Wire(cmds) + Encode(c)
  {
    if |cmds| == 0 {
      assert cmds + [c] == [c] && [c][1..] == [];
      assert Wire([c]) == Encode(c) + Wire([]);
    } else {
      assert (cmds + [c])[1..] == cmds[1..] + [c];
      WireSnoc(cmds[1..], c);
    }
  }

  /** A logged request and its logged form do the same to the store and append the same line. */
  lemma LoggedFormRunsAlike(st: State, st': State, request: seq<Bytes>, now: int, later: int)
    requires |request| > 0 && IsLogged(ToLower(request[0])) && Deterministic(ToLower(request[0]), request[1..])
    requires st.db == st'.db && st.alive && st'.alive
    ensures var again := [ToUpper(ToLower(request[0]))] + request[1..];
      && Handle(st', again, later).db == Handle(st, request, now).db
      && Handle(st', again, later).alive == Handle(st, request, now).alive
      && Handle(st', again, later).file == st'.file + Encode(again)
      && Handle(st, request, now).file == st.file + Encode(again)
  {
    var name := ToLower(request[0]);
    var again := [ToUpper(name)] + request[1..];
    NameSurvives(name);
    assert again[1..] == request[1..];
    ClockDoesNotMatter(st.db, name, request[1..], now, later);
  }

  lemma HandleAllSnoc(st: State, requests: seq<seq<Bytes>>, request: seq<Bytes>, clock: nat -> int)
    ensures HandleAll(st, [], clock) == st
    ensures HandleAll(st, requests + [request], clock) ==
      Handle(HandleAll(st, requests, clock), request, clock(|requests|))
  {
    assert (requests + [request])[..|requests|] == requests;
  }

  lemma DeadStaysDead(st: State, request: seq<Bytes>, now: int)
    ensures !st.alive ==> Handle(st, request, now) == st
    ensures |request| > 0 && !IsLogged(ToLower(request[0])) ==> Handle(st, request, now) == st
  {
  }

  lemma LogOfSnoc(requests: seq<seq<Bytes>>, request: seq<Bytes>)
    ensures LogOf([]) == []
    ensures LogOf(requests + [request]) ==
      if |request| > 0 && IsLogged(ToLower(request[0]))
      then LogOf(requests) + [[ToUpper(ToLower(request[0]))] + request[1..]]
      else LogOf(requests)
  {
    assert (requests + [request])[..|requests|] == requests;
  }

  lemma ReplayableSnoc(requests: seq<seq<Bytes>>, request: seq<Bytes>)
    requires Replayable(requests + [request])
    ensures Replayable(requests) && |request| > 0 && Deterministic(ToLower(request[0]), request[1..])
  {
    hide Deterministic, ToLower;
    var all := requests + [request];
    assert all[|requests|] == request;
    forall i | 0 <= i < |requests| ensures requests[i] == all[i] {
    }
  }

  /** One more logged request: the log and the store rebuilt from it both follow, even into a panic. */
  lemma LoggedStep(live: State, log: seq<seq<Bytes>>, request: seq<Bytes>, again: seq<Bytes>, file: Bytes,
                   now: int, later: int)
    requires |request| > 0 && IsLogged(ToLower(request[0])) && Deterministic(ToLower(request[0]), request[1..])
    requires again == [ToUpper(ToLower(request[0]))] + request[1..]
    requires live.alive && live.file == Wire(log)
    ensures var next := Handle(live, request, now);
      && next.file == Wire(log + [again])
      && Handle(State(live.db, file + Wire(log), true), again, later) == State(next.db, file + next.file, next.alive)
  {
    hide Handle, IsLogged, ToLower, ToUpper, Encode, Deterministic, Wire;
    var wire, line := Wire(log), Encode(again);
    LoggedFormRunsAlike(live, State(live.db, file + wire, true), request, now, later);
    WireSnoc(log, again);
    AddedInTheMiddle(file, wire, line);
  }

  lemma AddedInTheMiddle(a: Bytes, b: Bytes, c: Bytes)
    ensures a + b + c == a + (b + c)
  {
  }

  /** The log file is the stream of the logged requests, up to one that panics, and those requests alone
      rebuild the store, or panic at the same place. */
  lemma {:induction false} LogRebuilds(requests: seq<seq<Bytes>>, clock: nat -> int, later: nat -> int, file: Bytes)
    requires Replayable(requests)
    ensures var live, log := HandleAll(FRESH, requests, clock), LogOf(requests);
      && live.file <= Wire(log) && (live.alive ==> live.file == Wire(log))
      && HandleAll(State(EMPTY, file, true), log, later) == State(live.db, file + live.file, live.alive)
  {
    hide HandleAll, Handle, LogOf, IsLogged, ToLower, ToUpper, Encode, Deterministic, Replayable, Wire;
    HandleAllSnoc(FRESH, [], [], clock);
    HandleAllSnoc(State(EMPTY, file, true), [], [], later);
    LogOfSnoc([], []);
    NothingOnWire();
    if |requests| == 0 {
      assert requests == [];
    } else {
      var before, request := requests[..|requests| - 1], requests[|requests| - 1];
      assert requests == before + [request];
      ReplayableSnoc(before, request);
      HandleAllSnoc(FRESH, before, request, clock);
      LogOfSnoc(before, request);
      var live, log := HandleAll(FRESH, before, clock), LogOf(before);
      DeadStaysDead(live, request, clock(|before|));
      LogRebuilds(before, clock, later, file);
      if IsLogged(ToLower(request[0])) {
        var again := [ToUpper(ToLower(request[0]))] + request[1..];
        WireSnoc(log, again);
        HandleAllSnoc(State(EMPTY, file, true), log, again, later);
        DeadStaysDead(HandleAll(State(EMPTY, file, true), log, later), again, later(|log|));
        if live.alive {
          LoggedStep(live, log, request, again, file, clock(|before|), later(|log|));
        }
      }
    }
  }

  lemma NothingOnWire()
    ensures Wire([]) == []
  {
  }

  /** The requests that are served, a panicking one included: the log file is the stream of these. */
  lemma {:induction false} Served(requests: seq<seq<Bytes>>, clock: nat -> int) returns (n: nat)
    requires Replayable(requests)
    ensures n <= |requests| && HandleAll(FRESH, requests[..n], clock) == HandleAll(FRESH, requests, clock)
    ensures HandleAll(FRESH, requests, clock).file == Wire(LogOf(requests[..n]))
  {
    hide HandleAll, Handle, LogOf, IsLogged, ToLower, ToUpper, Encode, Deterministic, Replayable, Wire;
    n := |requests|;
    assert requests[..n] == requests;
    LogRebuilds(requests, clock, clock, []);
    if !HandleAll(FRESH, requests, clock).alive {
      HandleAllSnoc(FRESH, [], [], clock);
      assert |requests| == 0 ==> requests == [];
      var before, request := requests[..|requests| - 1], requests[|requests| - 1];
      assert requests == before + [request];
      ReplayableSnoc(before, request);
      HandleAllSnoc(FRESH, before, request, clock);
      var live := HandleAll(FRESH, before, clock);
      DeadStaysDead(live, request, clock(|before|));
      if live.alive {
        LogRebuilds(before, clock, clock, []);
        LogOfSnoc(before, request);
        LoggedStep(live, LogOf(before), request, [ToUpper(ToLower(request[0]))] + request[1..], [], clock(|before|), 0);
      } else {
        n := Served(before, clock);
        assert requests[..n] == before[..n];
      }
    }
  }

  lemma ReplayStep(st: State, cmd: seq<Bytes>, rest: Bytes, clock: nat -> int, n: nat)
    requires st.alive && |Encode(cmd)| <= MAX_INT64 && |cmd| <= MAX_INT64
    ensures ReplayFrom(st, Encode(cmd) + rest, clock, n) == ReplayFrom(Handle(st, cmd, clock(n)), rest, clock, n + 1)
  {
    hide Handle, ParseResult, Encode;
    ParseEncode(cmd, rest);
    EncodeNonEmpty(cmd);
    assert (Encode(cmd) + rest)[|Encode(cmd)|..] == rest;
  }

  lemma ReplayEnd(st: State, clock: nat -> int, n: nat)
    ensures ReplayFrom(st, [], clock, n) == st
  {
  }

  lemma WireStep(cmds: seq<seq<Bytes>>)
    requires Sendable(cmds)
    ensures |cmds| == 0 ==> Wire(cmds) == []
    ensures |cmds| > 0 ==>
      && Wire(cmds) == Encode(cmds[0]) + Wire(cmds[1..]) && Sendable(cmds[1..])
      && |Encode(cmds[0])| <= MAX_INT64 && |cmds[0]| <= MAX_INT64
  {
    hide Encode;
  }

  /** Replaying a stream of commands handles exactly them, then goes on with what follows. */
  lemma {:induction false} ReplayOfWire(st: State, cmds: seq<seq<Bytes>>, done: seq<seq<Bytes>>, rest: Bytes,
                                        clock: nat -> int)
    requires Sendable(cmds)
    ensures ReplayFrom(HandleAll(st, done, clock), Wire(cmds) + rest, clock, |done|) ==
      ReplayFrom(HandleAll(st, done + cmds, clock), rest, clock, |done + cmds|)
    decreases |cmds|
  {
    hide HandleAll, Handle, Encode, ReplayFrom, Wire, Sendable;
    WireStep(cmds);
    if |cmds| == 0 {
      assert done + cmds == done && Wire(cmds) + rest == rest;
    } else {
      var next := done + [cmds[0]];
      assert done + cmds == next + cmds[1..];
      HandleAllSnoc(st, done, cmds[0], clock);
      ReplayOfWire(st, cmds[1..], next, rest, clock);
      assert Wire(cmds) + rest == Encode(cmds[0]) + (Wire(cmds[1..]) + rest);
      if HandleAll(st, done, clock).alive {
        ReplayStep(HandleAll(st, done, clock), cmds[0], Wire(cmds[1..]) + rest, clock, |done|);
      } else {
        DeadStaysDead(HandleAll(st, done, clock), cmds[0], clock(|done|));
        DeadReplays(HandleAll(st, done, clock), Wire(cmds) + rest, clock, |done|);
        DeadReplays(HandleAll(st, next, clock), Wire(cmds[1..]) + rest, clock, |next|);
      }
    }
  }

  lemma DeadReplays(st: State, buf: Bytes, clock: nat -> int, n: nat)
    ensures !st.alive || buf == [] ==> ReplayFrom(st, buf, clock, n) == st
  {
  }

  /** A restart comes to exactly the store that the requests left, whatever the clocks, and panics if and
      only if they did, since a request is logged before it runs. What it replays it logs once more. */
  lemma RestartRebuilds(requests: seq<seq<Bytes>>, clock: nat -> int, later: nat -> int)
    requires Replayable(requests) && Sendable(LogOf(requests))
    ensures var live := HandleAll(FRESH, requests, clock);
      Restart(live.file, later) == State(live.db, live.file + live.file, live.alive)
  {
    hide HandleAll, LogOf, Sendable, Replayable, Restart;
    var live := HandleAll(FRESH, requests, clock);
    RestartOf(requests, [], clock, later);
    assert live.file + [] == live.file;
  }

  /** ... and behind a request that panics the file does not matter. */
  lemma RestartOf(requests: seq<seq<Bytes>>, behind: Bytes, clock: nat -> int, later: nat -> int)
    requires Replayable(requests) && Sendable(LogOf(requests))
    requires behind == [] || !HandleAll(FRESH, requests, clock).alive
    ensures var live := HandleAll(FRESH, requests, clock);
      Restart(live.file + behind, later) == State(live.db, live.file + behind + live.file, live.alive)
  {
    hide HandleAll, Handle, LogOf, Sendable, Wire, ReplayFrom, Deterministic, ToLower;
    var live := HandleAll(FRESH, requests, clock);
    var n := Served(requests, clock);
    var served, file := requests[..n], live.file + behind;
    var log, st := LogOf(served), State(EMPTY, file, true);
    assert requests == served + requests[n..];
    LogOfConcat(served, requests[n..]);
    SendablePart(log, LogOf(requests[n..]));
    LogRebuilds(served, clock, later, file);
    HandleAllSnoc(st, [], [], later);
    assert [] + log == log;
    ReplayOfWire(st, log, [], behind, later);
    DeadReplays(HandleAll(st, log, later), behind, later, |log|);
  }

  lemma {:induction false} WireConcat(a: seq<seq<Bytes>>, b: seq<seq<Bytes>>)
    ensures Wire(a + b) == Wire(a) + Wire(b)
  {
    if |a| == 0 {
      assert a + b == b;
    } else {
      assert (a + b)[1..] == a[1..] + b;
      WireConcat(a[1..], b);
    }
  }

  lemma {:induction false} LogOfConcat(a: seq<seq<Bytes>>, b: seq<seq<Bytes>>)
    ensures LogOf(a + b) == LogOf(a) + LogOf(b)
    decreases |b|
  {
    if |b| == 0 {
      assert a + b == a;
    } else {
      assert (a + b)[..|a + b| - 1] == a + b[..|b| - 1];
      LogOfConcat(a, b[..|b| - 1]);
    }
  }

  lemma SendablePart(a: seq<seq<Bytes>>, b: seq<seq<Bytes>>)
    requires Sendable(a + b)
    ensures Sendable(a)
  {
    hide Encode;
    forall i | 0 <= i < |a| ensures a[i] == (a + b)[i] {
    }
  }

  lemma SendableBoth(a: seq<seq<Bytes>>, b: seq<seq<Bytes>>)
    requires Sendable(a) && Sendable(b)
    ensures Sendable(a + b)
  {
    hide Encode;
  }

  /** The state after `n + 1` restarts: each replays the file that the one before left. */
  function Restarted(file: Bytes, later: nat -> int, n: nat): State
  {
    if n == 0 then Restart(file, later) else Restart(Restarted(file, later, n - 1).file, later)
  }

  /** The requests `2 ^ n` times over. */
  function Doubled(requests: seq<seq<Bytes>>, n: nat): seq<seq<Bytes>>
  {
    if n == 0 then requests else Doubled(requests, n - 1) + Doubled(requests, n - 1)
  }

  lemma {:induction false} DoubledFacts(requests: seq<seq<Bytes>>, n: nat)
    requires Replayable(requests) && Sendable(LogOf(requests))
    ensures Replayable(Doubled(requests, n)) && Sendable(LogOf(Doubled(requests, n)))
  {
    hide Deterministic, LogOf, Sendable, ToLower;
    if n > 0 {
      var half := Doubled(requests, n - 1);
      DoubledFacts(requests, n - 1);
      LogOfConcat(half, half);
      SendableBoth(LogOf(half), LogOf(half));
    }
  }

  lemma {:induction false} DeadAll(st: State, a: seq<seq<Bytes>>, b: seq<seq<Bytes>>, clock: nat -> int)
    requires !HandleAll(st, a, clock).alive
    ensures HandleAll(st, a + b, clock) == HandleAll(st, a, clock)
    decreases |b|
  {
    hide Handle;
    if |b| == 0 {
      assert a + b == a;
    } else {
      var before := a + b[..|b| - 1];
      assert (a + b)[..|a + b| - 1] == before;
      DeadAll(st, a, b[..|b| - 1], clock);
      DeadStaysDead(HandleAll(st, a, clock), b[|b| - 1], clock(|before|));
    }
  }

  /** After a run the file is its log, and after running it once more the log starts with that run's. */
  lemma FileDoubles(requests: seq<seq<Bytes>>, clock: nat -> int)
    requires Replayable(requests)
    ensures var once, twice := HandleAll(FRESH, requests, clock), HandleAll(FRESH, requests + requests, clock);
      if once.alive then twice.file <= once.file + once.file && (twice.alive ==> twice.file == once.file + once.file)
      else twice == once
  {
    hide HandleAll, LogOf, Wire, Deterministic, ToLower;
    var once := HandleAll(FRESH, requests, clock);
    if once.alive {
      LogRebuilds(requests, clock, clock, []);
      LogRebuilds(requests + requests, clock, clock, []);
      LogOfConcat(requests, requests);
      WireConcat(LogOf(requests), LogOf(requests));
    } else {
      DeadAll(FRESH, requests, requests, clock);
    }
  }

  /** Every restart runs the requests twice as often as the one before: after `n + 1` of them the store is that
      of the requests run `2 ^ n` times over, and the server lives if and only if it survives those. */
  lemma RestartsRunDoubled(requests: seq<seq<Bytes>>, clock: nat -> int, later: nat -> int, n: nat)
    requires Replayable(requests) && Sendable(LogOf(requests))
    ensures var live, run := HandleAll(FRESH, requests, clock), HandleAll(FRESH, Doubled(requests, n), clock);
      var s := Restarted(live.file, later, n);
      s.db == run.db && s.alive == run.alive
  {
    hide HandleAll, LogOf, Sendable, Replayable, Restart;
    var behind := BehindRun(requests, clock, later, n);
  }

  /** The file a restart reads is the log of the doubled requests, with something behind it after a panic. */
  lemma {:induction false} BehindRun(requests: seq<seq<Bytes>>, clock: nat -> int, later: nat -> int, n: nat)
    returns (behind: Bytes)
    requires Replayable(requests) && Sendable(LogOf(requests))
    ensures var live, run := HandleAll(FRESH, requests, clock), HandleAll(FRESH, Doubled(requests, n), clock);
      && (behind == [] || !run.alive)
      && Restarted(live.file, later, n) == State(run.db, run.file + behind + run.file, run.alive)
  {
    hide HandleAll, LogOf, Sendable, Replayable, Restart;
    var live := HandleAll(FRESH, requests, clock);
    behind := [];
    if n == 0 {
      RestartRebuilds(requests, clock, later);
      assert live.file + [] == live.file;
    } else {
      var half, all := Doubled(requests, n - 1), Doubled(requests, n);
      var once, twice := HandleAll(FRESH, half, clock), HandleAll(FRESH, all, clock);
      var b := BehindRun(requests, clock, later, n - 1);
      DoubledFacts(requests, n);
      DoubledFacts(requests, n - 1);
      FileDoubles(half, clock);
      var file := once.file + b + once.file;
      if once.alive {
        assert file == once.file + once.file;
        behind := file[|twice.file|..];
      } else {
        behind := b + once.file;
      }
      assert file == twice.file + behind;
      RestartOf(all, behind, clock, later);
    }
  }

  /** The second restart comes to the store of the requests run twice over, which need not be the one it left. */
  lemma SecondRestart(requests: seq<seq<Bytes>>, clock: nat -> int, later: nat -> int)
    requires Replayable(requests) && Sendable(LogOf(requests))
    ensures var live, twice := HandleAll(FRESH, requests, clock), HandleAll(FRESH, requests + requests, clock);
      var again := Restart(Restart(live.file, later).file, later);
      again.db == twice.db && again.alive == twice.alive
  {
    hide HandleAll, LogOf, Sendable, Replayable, Restart;
    var live := HandleAll(FRESH, requests, clock);
    RestartsRunDoubled(requests, clock, later, 1);
    assert Doubled(requests, 1) == Doubled(requests, 0) + Doubled(requests, 0);
    assert Restarted(live.file, later, 1) == Restart(Restarted(live.file, later, 0).file, later);
  }

  function Counter(key: Bytes, value: int, version: nat): Db
  {
    Db(map[key := Cell(Itoa(value), version)], map[], map[])
  }

  /** One INCR and two restarts: the counter reads 2. */
  lemma CounterGrowsByRestarting(key: Bytes, clock: nat -> int)
    requires |Encode([INCR, key])| <= MAX_INT64
    ensures var live := HandleAll(FRESH, [[INCR, key]], clock);
      && live.db == Counter(key, 1, 1)
      && Restart(live.file, clock).db == Counter(key, 1, 1)
      && Restart(Restart(live.file, clock).file, clock).db == Counter(key, 2, 2)
  {
    hide Handle, LogOf, Sendable, Replayable, Restart;
    var r := [INCR, key];
    HandleAllSnoc(FRESH, [], r, clock);
    HandleAllSnoc(FRESH, [r], r, clock);
    assert [] + [r] == [r];
    CounterSteps(key, clock(0), clock(1));
    CounterLog(key);
    SecondRestart([r], clock, clock);
    RestartRebuilds([r], clock, clock);
  }

  lemma CounterLog(key: Bytes)
    requires |Encode([INCR, key])| <= MAX_INT64
    ensures var r := [INCR, key];
      Replayable([r]) && Sendable(LogOf([r])) && Sendable(LogOf([r] + [r]))
  {
    hide Encode;
    var r := [INCR, key];
    assert ToLower(INCR) == INCR && r[1..] == [key];
    LogOfSnoc([], r);
    LogOfSnoc([r], r);
    assert [] + [r] == [r];
    UpperSameLength(key);
    var l := [ToUpper(INCR), key];
    assert r[0] == INCR && IsLogged(INCR) && [ToUpper(INCR)] + [key] == l;
    assert LogOf([r]) == [l] && LogOf([r] + [r]) == [l] + [l];
    assert |Encode(l)| <= MAX_INT64;
    assert Replayable([r]);
  }

  lemma UpperSameLength(key: Bytes)
    ensures |Encode([ToUpper(INCR), key])| == |Encode([INCR, key])|
  {
    BulksStepTwo(ToUpper(INCR), key);
    BulksStepTwo(INCR, key);
  }

  lemma BulksStepTwo(a: Bytes, b: Bytes)
    ensures |Bulks([a, b])| == |Bulk(a)| + |Bulk(b)|
  {
    BulksSnoc([a], b);
    BulksSnoc([], a);
    assert [a] + [b] == [a, b] && [] + [a] == [a];
  }

  lemma CounterSteps(key: Bytes, now: int, later: int)
    ensures var s1 := Handle(FRESH, [INCR, key], now);
      s1.alive && s1.db == Counter(key, 1, 1) && Handle(s1, [INCR, key], later).alive &&
        Handle(s1, [INCR, key], later).db == Counter(key, 2, 2)
  {
    var r := [INCR, key];
    assert ToLower(INCR) == INCR && r[1..] == [key];
    AtoiItoa(1);
    assert Itoa(1) == [49];
  }
}
