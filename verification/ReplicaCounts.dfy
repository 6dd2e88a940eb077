/** When WAIT counts a replica: what the requests already sent to it can do before the next WAIT. */
module ReplicaCounts {
  import opened Bytes
  import opened Decimal
  import opened Resp
  import Database
  import opened Replication

  /** The shortest propagated command that the master survives, a bare "incr", takes 14 bytes. */
  const SHORTEST: seq<Bytes> := [Database.INCR]
  const SHORTEST_SIZE: nat := 14

  lemma SmallestWrite(cmd: seq<Bytes>)
    requires IsWrite(cmd)
    ensures Size(cmd) >= SHORTEST_SIZE && cmd != GETACK_COMMAND
  {
    hide Itoa;
    SomeDigits(|cmd|);
    EncodeParts(|cmd|, cmd[0]);
    LeastBulk(cmd[0]);
    assert Bulks(cmd) == Bulk(cmd[0]) + Bulks(cmd[1..]);
    if |cmd| > 1 {
      LeastBulk(cmd[1]);
      assert Bulks(cmd[1..]) == Bulk(cmd[1]) + Bulks(cmd[1..][1..]);
    }
  }

  lemma SomeDigits(n: nat)
    ensures |Itoa(n)| >= 1
  {
  }

  lemma LeastBulk(a: Bytes)
    ensures |Bulk(a)| >= |a| + 6
  {
    hide Itoa;
    SomeDigits(|a|);
  }

  lemma ShortestSize()
    ensures IsWrite(SHORTEST) && Size(SHORTEST) == SHORTEST_SIZE
  {
    BulksSnoc([], SHORTEST[0]);
    assert [] + SHORTEST == SHORTEST && [] + [SHORTEST[0]] == SHORTEST;
    BulkSize(SHORTEST[0]);
    assert |Itoa(1)| == 1;
  }

  // What the requests in flight and the acknowledgements say

  /** The bytes of writes behind the last GETACK of a link; all of them when it holds none. */
  function Behind(link: seq<seq<Bytes>>): nat
  {
    if |link| == 0 then 0
    else if GETACK_COMMAND in link[1..] then Behind(link[1..])
    else if link[0] == GETACK_COMMAND then WriteBytes(link[1..])
    else WriteBytes(link)
  }

  predicate LinkOk(link: seq<seq<Bytes>>)
  {
    forall i :: 0 <= i < |link| ==> link[i] == GETACK_COMMAND || IsWrite(link[i])
  }

  /** `asks` are the requests on the link, each with the write bytes before it, `writes` of which are consumed. */
  predicate Pending(link: seq<seq<Bytes>>, asks: seq<nat>, writes: nat)
  {
    if |link| == 0 then asks == []
    else if link[0] == GETACK_COMMAND then asks != [] && asks[0] == writes && Pending(link[1..], asks[1..], writes)
    else Pending(link[1..], asks, writes + Size(link[0]))
  }

  predicate Rising(asks: seq<nat>)
  {
    forall i, j :: 0 <= i < j < |asks| ==> asks[i] <= asks[j]
  }

  function Latest(r: Replica): Ack
  {
    if r.acks == [] then r.noted else r.acks[|r.acks| - 1]
  }

  /** The write bytes sent before the last request. */
  function LastAsk(r: Replica): nat
  {
    if r.asks == [] then 0 else r.asks[|r.asks| - 1]
  }

  /** An acknowledgement answers one of the consumed requests: it was given when exactly the writes before
      that request were consumed. */
  predicate Answers(a: Ack, r: Replica)
  {
    a == NO_ACK || (a.getAcks < r.getAcks <= |r.asks| && a.writes == r.asks[a.getAcks])
  }

  ghost predicate AskOk(r: Replica)
  {
    && LinkOk(r.link) && Rising(r.asks)
    && r.getAcks <= |r.asks| && Pending(r.link, r.asks[r.getAcks..], r.writes)
    && LastAsk(r) <= r.writes + WriteBytes(r.link)
    && (r.getAcks == |r.asks| > 0 ==> Latest(r).getAcks == |r.asks| - 1 && Latest(r).writes == LastAsk(r))
    && Answers(r.noted, r)
    && forall i :: 0 <= i < |r.acks| ==> Answers(r.acks[i], r)
  }

  ghost predicate Asked(s: Sys)
  {
    Inv(s) && forall id :: id in s.replicas ==> AskOk(s.replicas[id])
  }

  lemma {:induction false} LinkSnoc(link: seq<seq<Bytes>>, cmd: seq<Bytes>)
    ensures Behind(link + [cmd]) == if cmd == GETACK_COMMAND then 0 else Behind(link) + Size(cmd)
  {
    hide Size;
    if |link| == 0 {
      assert link + [cmd] == [cmd] && [cmd][1..] == [];
    } else {
      assert (link + [cmd])[1..] == link[1..] + [cmd];
      LinkSnoc(link[1..], cmd);
      WriteBytesSnoc(link, cmd);
      WriteBytesSnoc(link[1..], cmd);
    }
  }

  lemma {:induction false} LinkFacts(link: seq<seq<Bytes>>)
    ensures Behind(link) <= WriteBytes(link)
    ensures GETACK_COMMAND !in link ==> Behind(link) == WriteBytes(link)
  {
    hide Size;
    if |link| > 0 {
      LinkFacts(link[1..]);
    }
  }

  lemma LinkHead(link: seq<seq<Bytes>>)
    requires link != []
    ensures WriteBytes(link) == (if link[0] == GETACK_COMMAND then 0 else Size(link[0])) + WriteBytes(link[1..])
    ensures GETACK_COMMAND in link ==> Behind(link[1..]) == Behind(link)
  {
    hide Size;
    LinkFacts(link[1..]);
  }

  lemma {:induction false} PendingSnoc(link: seq<seq<Bytes>>, asks: seq<nat>, writes: nat, cmd: seq<Bytes>)
    requires Pending(link, asks, writes)
    ensures Pending(link + [cmd], if cmd == GETACK_COMMAND then asks + [writes + WriteBytes(link)] else asks, writes)
  {
    hide Size;
    if |link| == 0 {
      assert link + [cmd] == [cmd] && [cmd][1..] == [];
      assert asks + [writes] == [writes] && [writes][1..] == [];
    } else {
      assert (link + [cmd])[0] == link[0] && (link + [cmd])[1..] == link[1..] + [cmd];
      if link[0] == GETACK_COMMAND {
        PendingSnoc(link[1..], asks[1..], writes, cmd);
        var all := asks + [writes + WriteBytes(link)];
        assert all[1..] == asks[1..] + [writes + WriteBytes(link)] && all[0] == asks[0];
      } else {
        PendingSnoc(link[1..], asks, writes + Size(link[0]), cmd);
      }
    }
  }

  /** Behind the last request on the link are the writes sent since. */
  lemma {:induction false} PendingFacts(link: seq<seq<Bytes>>, asks: seq<nat>, writes: nat)
    requires Pending(link, asks, writes)
    ensures asks != [] <==> GETACK_COMMAND in link
    ensures asks != [] ==> asks[|asks| - 1] + Behind(link) == writes + WriteBytes(link)
    ensures forall i :: 0 <= i < |asks| ==> asks[i] >= writes
  {
    hide Size;
    if |link| > 0 {
      LinkFacts(link[1..]);
      if link[0] == GETACK_COMMAND {
        PendingFacts(link[1..], asks[1..], writes);
      } else {
        PendingFacts(link[1..], asks, writes + Size(link[0]));
      }
    }
  }

  lemma SameAsks(r: Replica, link: seq<seq<Bytes>>)
    ensures var r' := r.(link := link);
      LastAsk(r') == LastAsk(r) && Latest(r') == Latest(r) && forall a :: Answers(a, r') == Answers(a, r)
  {
  }

  lemma WriteAsks(r: Replica, cmd: seq<Bytes>)
    requires AskOk(r) && IsWrite(cmd)
    ensures AskOk(r.(link := r.link + [cmd]))
  {
    hide Size, WriteBytes, Pending, IsWrite, Rising, Answers, LastAsk, Latest;
    SmallestWrite(cmd);
    PendingSnoc(r.link, r.asks[r.getAcks..], r.writes, cmd);
    WriteBytesSnoc(r.link, cmd);
    SameAsks(r, r.link + [cmd]);
  }

  lemma AskAsks(r: Replica, globalOffset: nat)
    requires AskOk(r) && r.joinedAt + r.writes + WriteBytes(r.link) == globalOffset
    ensures AskOk(r.(link := r.link + [GETACK_COMMAND], asks := r.asks + [globalOffset - r.joinedAt]))
  {
    hide Size, WriteBytes, Pending, IsWrite;
    var sent := r.writes + WriteBytes(r.link);
    PendingSnoc(r.link, r.asks[r.getAcks..], r.writes, GETACK_COMMAND);
    WriteBytesSnoc(r.link, GETACK_COMMAND);
    assert (r.asks + [sent])[r.getAcks..] == r.asks[r.getAcks..] + [sent];
  }

  lemma ConsumeAsks(r: Replica)
    requires AskOk(r) && r.link != []
    ensures AskOk(Consumed(r))
  {
    hide Size, IsWrite;
    LinkHead(r.link);
    var pending := r.asks[r.getAcks..];
    if r.link[0] == GETACK_COMMAND {
      assert pending[1..] == r.asks[r.getAcks + 1..];
    }
  }

  lemma AskedKept(s: Sys, step: Step)
    requires Asked(s) && Enabled(s, step)
    ensures Asked(After(s, step))
  {
    hide Size, AskOk, ReplicaOk, IsWrite;
    StepKeeps(s, step);
    match step
    case Join(id) => JoinAsks(s.globalOffset);
    case Write(cmd) =>
      forall id | id in s.replicas ensures AskOk(After(s, step).replicas[id]) {
        WriteAsks(s.replicas[id], cmd);
      }
    case SendGetAck(id) =>
      Placed(s, id);
      AskAsks(s.replicas[id], s.globalOffset);
    case Consume(id) => ConsumeAsks(s.replicas[id]);
    case OwnClient(id, n) => OtherAsks(s.replicas[id], n);
    case NoteAck(id) => NoteAsks(s.replicas[id]);
  }

  lemma Placed(s: Sys, id: Bytes)
    requires Inv(s) && id in s.replicas
    ensures var r := s.replicas[id]; r.joinedAt + r.writes + WriteBytes(r.link) == s.globalOffset
    ensures var r := s.replicas[id]; AckOk(r.noted, r) && r.offset == r.writes + GETACK_SIZE * r.getAcks + r.others
  {
    assert ReplicaOk(s.replicas[id], s.globalOffset);
  }

  lemma JoinAsks(joinedAt: nat)
    ensures AskOk(Replica([], 0, [], NO_ACK, joinedAt, 0, 0, 0, []))
  {
  }

  lemma OtherAsks(r: Replica, n: nat)
    requires AskOk(r)
    ensures AskOk(r.(offset := r.offset + n, others := r.others + n))
  {
    hide Size, WriteBytes, Pending, IsWrite;
  }

  lemma NoteAsks(r: Replica)
    requires AskOk(r) && r.acks != []
    ensures AskOk(r.(noted := r.acks[0], acks := r.acks[1..]))
  {
    hide Size, WriteBytes, Pending, IsWrite;
  }

  lemma {:induction false} AskedAlongRun(s: Sys, steps: seq<Step>)
    requires Asked(s) && Runs(s, steps)
    ensures Asked(Final(s, steps))
    decreases |steps|
  {
    hide Asked, Enabled, After;
    if |steps| > 0 {
      AskedKept(s, steps[0]);
      AskedAlongRun(After(s, steps[0]), steps[1..]);
    }
  }

  // What can still happen before the next WAIT

  /** No further request to the replica, and nothing from clients of its own. */
  predicate Quiet(steps: seq<Step>, id: Bytes)
  {
    forall i :: 0 <= i < |steps| ==> steps[i] != SendGetAck(id) && !(steps[i].OwnClient? && steps[i].id == id)
  }

  /** A WAIT that starts now counts the replica. */
  predicate CountedNow(s: Sys, id: Bytes)
  {
    id in s.replicas && Counted(s.replicas[id], s.globalOffset)
  }

  /** ... although writes are still in flight to it. */
  predicate CountedLacking(s: Sys, id: Bytes)
  {
    CountedNow(s, id) && WriteBytes(s.replicas[id].link) > 0
  }

  /** The bytes of writes since the last request to the replica, or since it joined. */
  function SinceAsk(s: Sys, id: Bytes): int
    requires id in s.replicas
  {
    s.globalOffset - s.replicas[id].joinedAt - LastAsk(s.replicas[id])
  }

  /** What the requests before the last one add to an acknowledgement. */
  function Surplus(r: Replica): int
  {
    GETACK_SIZE * (|r.asks| - 1)
  }

  lemma QuietStep(s: Sys, step: Step, id: Bytes)
    requires Asked(s) && Enabled(s, step) && id in s.replicas && Quiet([step], id)
    ensures var t := After(s, step);
      && id in t.replicas && t.globalOffset >= s.globalOffset
      && var r, r' := s.replicas[id], t.replicas[id];
         && r'.asks == r.asks && r'.joinedAt == r.joinedAt
         && r'.others == r.others && r'.writes >= r.writes
  {
    hide Size, Asked;
    assert [step][0] == step;
  }

  lemma {:induction false} QuietRun(s: Sys, steps: seq<Step>, id: Bytes)
    requires Asked(s) && Runs(s, steps) && id in s.replicas && Quiet(steps, id)
    ensures var t := Final(s, steps);
      && Asked(t) && id in t.replicas && t.globalOffset >= s.globalOffset
      && var r, r' := s.replicas[id], t.replicas[id];
         && r'.asks == r.asks && r'.joinedAt == r.joinedAt
         && r'.others == r.others && r'.writes >= r.writes
    decreases |steps|
  {
    hide Asked, Enabled, After;
    if |steps| > 0 {
      assert Quiet([steps[0]], id) && Quiet(steps[1..], id);
      QuietStep(s, steps[0], id);
      AskedKept(s, steps[0]);
      QuietRun(After(s, steps[0]), steps[1..], id);
    }
  }

  lemma {:induction false} InFlight(link: seq<seq<Bytes>>)
    requires LinkOk(link) && WriteBytes(link) > 0
    ensures WriteBytes(link) >= SHORTEST_SIZE
  {
    hide Size, IsWrite;
    if link[0] == GETACK_COMMAND {
      InFlight(link[1..]);
    } else {
      SmallestWrite(link[0]);
    }
  }

  /** How far an acknowledgement can reach. */
  lemma AckReach(s: Sys, id: Bytes)
    requires Asked(s) && id in s.replicas && s.replicas[id].others == 0
    ensures var r := s.replicas[id];
      && (r.asks == [] ==> r.noted.offset == 0)
      && (r.asks != [] ==> r.noted.offset <= LastAsk(r) + Surplus(r) && r.noted.offset <= r.writes + Surplus(r))
      && r.joinedAt + r.writes + WriteBytes(r.link) == s.globalOffset && LastAsk(r) <= s.globalOffset - r.joinedAt
      && LinkOk(r.link)
      && (Behind(r.link) == 0 && SinceAsk(s, id) > 0 ==> WriteBytes(r.link) == 0)
  {
    hide Size, WriteBytes, Behind, Pending, IsWrite;
    var r := s.replicas[id];
    Placed(s, id);
    LinkFacts(r.link);
    PendingFacts(r.link, r.asks[r.getAcks..], r.writes);
  }

  /** Consuming up to the last request and noting every acknowledgement. */
  lemma {:induction false} Settle(s: Sys, id: Bytes) returns (steps: seq<Step>)
    requires Asked(s) && id in s.replicas
    ensures Runs(s, steps) && Quiet(steps, id)
    ensures var t := Final(s, steps);
      && Asked(t) && id in t.replicas && t.globalOffset == s.globalOffset
      && GETACK_COMMAND !in t.replicas[id].link && t.replicas[id].acks == []
      && Behind(t.replicas[id].link) == Behind(s.replicas[id].link)
    decreases |s.replicas[id].link|, |s.replicas[id].acks|
  {
    hide Asked, Size, Behind;
    var r := s.replicas[id];
    steps := [];
    if GETACK_COMMAND in r.link || r.acks != [] {
      var step := if GETACK_COMMAND in r.link then Consume(id) else NoteAck(id);
      if GETACK_COMMAND in r.link {
        LinkHead(r.link);
      }
      AskedKept(s, step);
      var rest := Settle(After(s, step), id);
      RunsCons(s, step, rest);
      steps := [step] + rest;
    }
  }

  lemma SettledAck(s: Sys, id: Bytes)
    requires Asked(s) && id in s.replicas && s.replicas[id].others == 0 && s.replicas[id].asks != []
    requires GETACK_COMMAND !in s.replicas[id].link && s.replicas[id].acks == []
    ensures var r := s.replicas[id];
      r.noted.offset == LastAsk(r) + Surplus(r) && WriteBytes(r.link) == Behind(r.link)
  {
    hide Size, WriteBytes, Behind, Pending, IsWrite;
    var r := s.replicas[id];
    Placed(s, id);
    LinkFacts(r.link);
    PendingFacts(r.link, r.asks[r.getAcks..], r.writes);
  }

  /** The 37 bytes of each request but the last make up for the writes before the replica joined and for
      those since it was last asked. */
  predicate Overcounts(s: Sys, id: Bytes, more: nat)
    requires id in s.replicas
  {
    var r := s.replicas[id]; r.asks != [] && Surplus(r) >= r.joinedAt + SinceAsk(s, id) + more
  }

  /** ... and for one more write, unless some write behind the last request is in flight already. */
  predicate OvercountsLacking(s: Sys, id: Bytes)
    requires id in s.replicas
  {
    Overcounts(s, id, if Behind(s.replicas[id].link) > 0 then 0 else SHORTEST_SIZE)
  }

  /** Without further requests to it, the next WAIT can come to count the replica exactly when its earlier
      requests overcount it that far. */
  lemma CountedIff(s: Sys, id: Bytes)
    requires Asked(s) && id in s.replicas && s.replicas[id].others == 0 && s.globalOffset > 0
    ensures (exists steps :: Runs(s, steps) && Quiet(steps, id) && CountedNow(Final(s, steps), id)) <==>
      Overcounts(s, id, 0)
  {
    hide Asked, Runs, Final, Quiet, WriteBytes, Behind;
    if steps :| Runs(s, steps) && Quiet(steps, id) && CountedNow(Final(s, steps), id) {
      QuietRun(s, steps, id);
      AckReach(Final(s, steps), id);
    }
    if Overcounts(s, id, 0) {
      var steps := Settle(s, id);
      QuietRun(s, steps, id);
      SettledAck(Final(s, steps), id);
      assert CountedNow(Final(s, steps), id);
    }
  }

  /** ... and can come to count it with writes still in flight to it exactly when they overcount it for these too. */
  lemma CountedLackingIff(s: Sys, id: Bytes)
    requires Asked(s) && id in s.replicas && s.replicas[id].others == 0 && s.globalOffset > 0
    ensures (exists steps :: Runs(s, steps) && Quiet(steps, id) && CountedLacking(Final(s, steps), id)) <==>
      OvercountsLacking(s, id)
  {
    hide Asked, Runs, Final, Quiet, WriteBytes, Behind;
    if steps :| Runs(s, steps) && Quiet(steps, id) && CountedLacking(Final(s, steps), id) {
      QuietRun(s, steps, id);
      AckReach(s, id);
      AckReach(Final(s, steps), id);
      InFlight(Final(s, steps).replicas[id].link);
    }
    if OvercountsLacking(s, id) {
      var steps := CountedLackingRun(s, id);
    }
  }

  lemma CountedLackingRun(s: Sys, id: Bytes) returns (steps: seq<Step>)
    requires Asked(s) && id in s.replicas && s.replicas[id].others == 0 && s.globalOffset > 0
    requires OvercountsLacking(s, id)
    ensures Runs(s, steps) && Quiet(steps, id) && CountedLacking(Final(s, steps), id)
  {
    hide Asked, Runs, Final, Quiet, WriteBytes, Behind;
    steps := Settle(s, id);
    QuietRun(s, steps, id);
    var t := Final(s, steps);
    SettledAck(t, id);
    if Behind(s.replicas[id].link) == 0 {
      var more := OneMoreWrite(t, id);
      QuietConcat(s, steps, more, id);
      steps := steps + more;
    }
  }

  lemma OneMoreWrite(t: Sys, id: Bytes) returns (more: seq<Step>)
    requires id in t.replicas
    ensures Runs(t, more) && Quiet(more, id)
    ensures var u := Final(t, more);
      && id in u.replicas && u.globalOffset == t.globalOffset + SHORTEST_SIZE
      && u.replicas[id].noted == t.replicas[id].noted && WriteBytes(u.replicas[id].link) > 0
  {
    ShortestSize();
    hide Size;
    WriteBytesSnoc(t.replicas[id].link, SHORTEST);
    RunsCons(t, Write(SHORTEST), []);
    more := [Write(SHORTEST)] + [];
  }

  lemma QuietConcat(s: Sys, a: seq<Step>, b: seq<Step>, id: Bytes)
    requires Runs(s, a) && Runs(Final(s, a), b) && Quiet(a, id) && Quiet(b, id)
    ensures Runs(s, a + b) && Final(s, a + b) == Final(Final(s, a), b) && Quiet(a + b, id)
  {
    RunsConcat(s, a, b);
  }

  // The whole life of a WAIT

  /** A WAIT's target is the offset at its start. It then asks the replica once, and counts it from there on. */
  datatype Wait = Wait(before: seq<Step>, asking: seq<Step>, after: seq<Step>)

  predicate WaitRuns(s: Sys, w: Wait, id: Bytes)
  {
    && Runs(s, w.before) && Quiet(w.before, id)
    && var t := Final(s, w.before);
       && t.globalOffset > 0 && id in t.replicas
       && Runs(t, w.asking) && Quiet(w.asking, id)
       && var u := Final(t, w.asking);
          && Enabled(u, SendGetAck(id))
          && Runs(After(u, SendGetAck(id)), w.after) && Quiet(w.after, id)
  }

  /** At the end of this life the WAIT counts the replica although it has not consumed all up to the target. */
  predicate WaitMiscounts(s: Sys, w: Wait, id: Bytes)
    requires WaitRuns(s, w, id)
  {
    var t := Final(s, w.before);
    var end := Final(After(Final(t, w.asking), SendGetAck(id)), w.after);
    && id in end.replicas && Counted(end.replicas[id], t.globalOffset)
    && end.replicas[id].joinedAt + end.replicas[id].writes < t.globalOffset
  }

  /** While writes before a request are missing, only the requests before that one can have been answered. */
  lemma UnansweredFrom(s: Sys, id: Bytes, i: nat)
    requires Asked(s) && id in s.replicas && s.replicas[id].others == 0
    requires i < |s.replicas[id].asks| && s.replicas[id].writes < s.replicas[id].asks[i]
    ensures var r := s.replicas[id];
      && r.noted.offset <= r.writes + (if i > 0 then GETACK_SIZE * (i - 1) else 0)
      && (i > 0 ==> r.noted.offset <= r.asks[i - 1] + GETACK_SIZE * (i - 1))
  {
    hide Size, WriteBytes, Pending, IsWrite, LinkOk;
    Placed(s, id);
  }

  /** A WAIT that does not find the replica overcounted when it starts never miscounts it. */
  lemma WaitSafe(t: Sys, asking: seq<Step>, after: seq<Step>, id: Bytes)
    requires Asked(t) && id in t.replicas && t.replicas[id].others == 0 && t.globalOffset > 0
    requires !OvercountsLacking(t, id) && WaitRuns(t, Wait([], asking, after), id)
    ensures !WaitMiscounts(t, Wait([], asking, after), id)
  {
    hide Asked, Quiet, WriteBytes, Behind;
    assert Final(t, []) == t;
    var u := Final(t, asking);
    var v := After(u, SendGetAck(id));
    var end := Final(v, after);
    hide Runs, Final;
    QuietRun(t, asking, id);
    AskedKept(u, SendGetAck(id));
    AckReach(t, id);
    AckReach(u, id);
    QuietRun(v, after, id);
    var r, e := t.replicas[id], end.replicas[id];
    assert e.asks == r.asks + [u.globalOffset - r.joinedAt];
    if Counted(e, t.globalOffset) && e.joinedAt + e.writes < t.globalOffset {
      UnansweredFrom(end, id, |r.asks|);
      if r.asks != [] && e.writes < LastAsk(r) {
        UnansweredFrom(end, id, |r.asks| - 1);
      }
    }
  }

  /** The next WAIT to ask the replica, whenever it starts and however long it lasts, is safe from
      miscounting it exactly when the earlier requests do not overcount it now. */
  lemma NextWaitSafeIff(s: Sys, id: Bytes)
    requires Asked(s) && id in s.replicas && s.replicas[id].others == 0 && s.globalOffset > 0
    ensures (forall w :: WaitRuns(s, w, id) ==> !WaitMiscounts(s, w, id)) <==> !OvercountsLacking(s, id)
  {
    hide Asked, Quiet, WriteBytes, Behind, Runs, Final;
    if OvercountsLacking(s, id) {
      var steps := CountedLackingRun(s, id);
      WaitAtOnce(s, steps, id);
    } else {
      forall w | WaitRuns(s, w, id) ensures !WaitMiscounts(s, w, id) {
        var t := Final(s, w.before);
        QuietRun(s, w.before, id);
        AckReach(s, id);
        AckReach(t, id);
        BehindSince(t, id);
        NothingRun(t, id);
        WaitSafe(t, w.asking, w.after, id);
      }
    }
  }

  /** What is in flight behind the last request was sent since. */
  lemma BehindSince(s: Sys, id: Bytes)
    requires Asked(s) && id in s.replicas
    ensures var behind := Behind(s.replicas[id].link);
      behind <= SinceAsk(s, id) && (behind > 0 ==> behind >= SHORTEST_SIZE && WriteBytes(s.replicas[id].link) >= behind)
  {
    hide Size, WriteBytes, Behind, Pending, IsWrite;
    var r := s.replicas[id];
    Placed(s, id);
    LinkFacts(r.link);
    PendingFacts(r.link, r.asks[r.getAcks..], r.writes);
    if Behind(r.link) > 0 {
      InFlightBehind(r.link);
    }
  }

  lemma {:induction false} InFlightBehind(link: seq<seq<Bytes>>)
    requires LinkOk(link) && Behind(link) > 0
    ensures Behind(link) >= SHORTEST_SIZE
  {
    hide Size, IsWrite;
    if GETACK_COMMAND in link[1..] {
      InFlightBehind(link[1..]);
    } else if link[0] == GETACK_COMMAND {
      InFlight(link[1..]);
    } else {
      InFlight(link);
    }
  }

  lemma NothingRun(t: Sys, id: Bytes)
    ensures Runs(t, []) && Final(t, []) == t && Quiet([], id)
  {
  }

  lemma WaitAtOnce(s: Sys, steps: seq<Step>, id: Bytes)
    requires Asked(s) && Runs(s, steps) && Quiet(steps, id) && CountedLacking(Final(s, steps), id) && s.globalOffset > 0
    requires id in s.replicas
    ensures var w := Wait(steps, [], []); WaitRuns(s, w, id) && WaitMiscounts(s, w, id)
  {
    hide Asked, WriteBytes, Runs, Final, Quiet;
    var t := Final(s, steps);
    QuietRun(s, steps, id);
    PlacedAsked(t, id);
    NothingRun(t, id);
    NothingRun(After(t, SendGetAck(id)), id);
  }

  lemma PlacedAsked(s: Sys, id: Bytes)
    requires Asked(s) && id in s.replicas
    ensures var r := s.replicas[id]; r.joinedAt + r.writes + WriteBytes(r.link) == s.globalOffset
  {
    Placed(s, id);
  }

  /** Asked at most once before it, a replica is never miscounted by a WAIT. */
  lemma SafeUpToFirstRequest(s: Sys, w: Wait, id: Bytes)
    requires Asked(s) && id in s.replicas && s.replicas[id].others == 0 && s.globalOffset > 0
    requires |s.replicas[id].asks| <= 1
    requires WaitRuns(s, w, id)
    ensures !WaitMiscounts(s, w, id)
  {
    hide WriteBytes, Behind, WaitRuns, WaitMiscounts;
    AckReach(s, id);
    BehindSince(s, id);
    NextWaitSafeIff(s, id);
  }

  /** A replica that joined after the first write is not counted by the first WAIT it sees, however long
      that WAIT lasts and whatever it has consumed. */
  lemma LateJoinerNotCounted(s: Sys, steps: seq<Step>, id: Bytes)
    requires Asked(s) && id in s.replicas && s.replicas[id].others == 0
    requires |s.replicas[id].asks| <= 1 && s.replicas[id].joinedAt > 0
    requires Runs(s, steps) && Quiet(steps, id)
    ensures !CountedNow(Final(s, steps), id)
    ensures id in Final(s, steps).replicas && !Counted(Final(s, steps).replicas[id], s.globalOffset)
  {
    hide Asked, Runs, Final, Quiet, WriteBytes, Behind;
    AckReach(s, id);
    QuietRun(s, steps, id);
    AckReach(Final(s, steps), id);
  }

  /** All of this holds in every state the system reaches. */
  lemma AskedFromStart(steps: seq<Step>)
    requires Runs(INIT, steps)
    ensures Asked(Final(INIT, steps))
  {
    assert Asked(INIT);
    AskedAlongRun(INIT, steps);
  }
}
