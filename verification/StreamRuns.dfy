/** Whole runs over one stream: what additions under any clock leave, and what a client that reads on
    from the last ID it received gets to see. */
module StreamRuns {
  import opened Bytes
  import opened Decimal
  import opened StreamIds
  import opened Streams

  /** An XADD with the clock it meets, or a read from the last ID received. */
  datatype Action = AddEntry(requested: Bytes, values: map<Bytes, Bytes>, now: int) | ReadOn

  function Appended(es: seq<Entry>, a: Action): seq<Entry>
  {
    match a
    case ReadOn => es
    case AddEntry(requested, values, now) =>
      match ResolveStreamID(requested, LastID(es), now)
      case Rejected(_) => es
      case Accepted(id) => es + [Entry(id, values)]
  }

  function StreamAfter(actions: seq<Action>): seq<Entry>
  {
    if |actions| == 0 then [] else Appended(StreamAfter(actions[..|actions| - 1]), actions[|actions| - 1])
  }

  predicate Wraps(es: seq<Entry>, a: Action)
  {
    a.AddEntry? && SequenceWraps(a.requested, LastID(es), a.now)
  }

  /** No addition of the run meets the wrap of a sequence number. */
  predicate NeverWraps(actions: seq<Action>)
  {
    |actions| == 0 ||
      (NeverWraps(actions[..|actions| - 1]) && !Wraps(StreamAfter(actions[..|actions| - 1]), actions[|actions| - 1]))
  }

  ghost predicate Clocks64(actions: seq<Action>)
  {
    forall i :: 0 <= i < |actions| && actions[i].AddEntry? ==> Int64(actions[i].now)
  }

  ghost predicate WellFormed(es: seq<Entry>)
  {
    es == [] || StreamOk(es)
  }

  lemma AppendedWellFormed(es: seq<Entry>, a: Action)
    requires WellFormed(es) && (a.AddEntry? ==> Int64(a.now))
    ensures WellFormed(Appended(es, a)) <==> !Wraps(es, a)
  {
    hide ResolveStreamID, SequenceWraps, Canonical, StreamOk, IdOf;
    StreamTopId(es);
    match a
    case ReadOn =>
    case AddEntry(requested, values, now) =>
      AcceptedIsAbove(requested, LastID(es), now);
      match ResolveStreamID(requested, LastID(es), now)
      case Accepted(id) =>
        StreamGrows(es, Entry(id, values));
      case Rejected(_) =>
        WrapsIsAccepted(requested, LastID(es), now);
  }

  lemma StreamTopId(es: seq<Entry>)
    ensures StreamOk(es) ==> es != [] && Canonical(LastID(es)) && LastID(es) != []
    ensures es == [] ==> LastID(es) == []
  {
    hide IdOf, InRange;
  }

  lemma WrapsIsAccepted(requested: Bytes, last: Bytes, now: int)
    ensures SequenceWraps(requested, last, now) ==> ResolveStreamID(requested, last, now).Accepted?
  {
  }

  /** An ill-formed stream never becomes well formed again. */
  lemma IllFormedStays(es: seq<Entry>, a: Action)
    ensures !WellFormed(es) ==> !WellFormed(Appended(es, a))
  {
    hide Canonical, IdOf, ResolveStreamID;
    var r := Appended(es, a);
    assert forall i {:trigger es[i]} :: 0 <= i < |es| ==> r[i] == es[i];
  }

  /** After any run under any clock, the stored IDs are well formed, above 0-0 and strictly increasing
      exactly when no sequence number wrapped on the way. */
  lemma {:induction false} RunWellFormed(actions: seq<Action>)
    requires Clocks64(actions)
    ensures WellFormed(StreamAfter(actions)) <==> NeverWraps(actions)
  {
    if |actions| > 0 {
      var before, a := actions[..|actions| - 1], actions[|actions| - 1];
      RunWellFormed(before);
      if WellFormed(StreamAfter(before)) {
        AppendedWellFormed(StreamAfter(before), a);
      } else {
        IllFormedStays(StreamAfter(before), a);
      }
    }
  }

  /** The wrap can be reached: the greatest sequence number of a millisecond, then a bare star at or before
      that millisecond, and the stream is no longer in order. */
  lemma WrapReached(ms: nat, values: map<Bytes, Bytes>, now: int)
    requires 0 < ms <= MAX_INT64 && Int64(now) && now <= ms
    ensures var run := [AddEntry(PrintID(Id(ms, MAX_INT64)), values, now), AddEntry(ANY, values, now)];
      Clocks64(run) && !NeverWraps(run) && !WellFormed(StreamAfter(run))
  {
    var last := Id(ms, MAX_INT64);
    var first, second := AddEntry(PrintID(last), values, now), AddEntry(ANY, values, now);
    LastOfMillisecond(first, last, values, now);
    var run := [first, second];
    assert run[..1] == [first];
    assert Wraps(StreamAfter([first]), run[1]);
    RunWellFormed(run);
  }

  lemma LastOfMillisecond(first: Action, last: Id, values: map<Bytes, Bytes>, now: int)
    requires 0 < last.ms <= MAX_INT64 && last.sq == MAX_INT64 && Int64(now)
    requires first == AddEntry(PrintID(last), values, now)
    ensures StreamAfter([first]) == [Entry(PrintID(last), values)]
    ensures ConvertID(PrintID(last)) == Converted(last)
  {
    ConvertPrinted(last);
    ExplicitIdAccepted(last, [], now);
    assert [first][..0] == [];
    assert StreamAfter([]) == [];
  }

  /** Everything a client has received that starts at `cursor` and reads on from the last ID received. */
  function Received(cursor: Bytes, actions: seq<Action>): seq<Entry>
  {
    if |actions| == 0 then []
    else
      var before := actions[..|actions| - 1];
      var got := Received(cursor, before);
      match actions[|actions| - 1]
      case AddEntry(_, _, _) => got
      case ReadOn => got + After(StreamAfter(before), IdOf(CursorAfter(cursor, got)))
  }

  function CursorAfter(cursor: Bytes, got: seq<Entry>): Bytes
  {
    if |got| == 0 then cursor else got[|got| - 1].id
  }

  /** The entries not above a cursor form a prefix of a well-formed stream. */
  lemma AfterSplits(es: seq<Entry>, cursor: Id) returns (n: nat)
    requires WellFormed(es)
    ensures n <= |es| && After(es, cursor) == es[n..]
    ensures forall i :: 0 <= i < |es| ==> (IdAtMost(IdOf(es[i].id), cursor) <==> i < n)
  {
    hide IdOf, Canonical;
    n := 0;
    while n < |es| && IdAtMost(IdOf(es[n].id), cursor)
      invariant n <= |es| && forall i :: 0 <= i < n ==> IdAtMost(IdOf(es[i].id), cursor)
    {
      n := n + 1;
    }
    forall i | n <= i < |es| ensures !IdAtMost(IdOf(es[i].id), cursor) {
      assert n < i ==> IdLess(IdOf(es[n].id), IdOf(es[i].id));
    }
    AfterIsSuffix(es, cursor, n);
  }

  /** Reading on from the last ID received delivers the rest and nothing twice. */
  lemma ReadOnDeliversRest(es: seq<Entry>, cursor: Bytes, got: seq<Entry>)
    requires WellFormed(es) && got <= After(es, IdOf(cursor))
    ensures got + After(es, IdOf(CursorAfter(cursor, got))) == After(es, IdOf(cursor))
  {
    hide IdOf, Canonical, After;
    var n := AfterSplits(es, IdOf(cursor));
    if |got| > 0 {
      var m := AfterSplits(es, IdOf(got[|got| - 1].id));
      var last := n + |got| - 1;
      assert es[last] == got[|got| - 1];
      assert last < m;
      assert last + 1 < |es| ==> IdLess(IdOf(es[last].id), IdOf(es[last + 1].id));
    }
  }

  /** Appending puts the new entry at the end of everything still to be read. */
  lemma AfterGrows(es: seq<Entry>, a: Action, cursor: Id)
    ensures After(es, cursor) <= After(Appended(es, a), cursor)
  {
    match a
    case ReadOn =>
    case AddEntry(requested, values, now) =>
      match ResolveStreamID(requested, LastID(es), now)
      case Rejected(_) =>
      case Accepted(id) => AfterPrefix(es, [Entry(id, values)], cursor);
  }

  lemma {:induction false} AfterPrefix(es: seq<Entry>, more: seq<Entry>, cursor: Id)
    ensures After(es, cursor) <= After(es + more, cursor)
  {
    if |es| > 0 {
      assert (es + more)[1..] == es[1..] + more;
      AfterPrefix(es[1..], more, cursor);
    }
  }

  lemma {:induction false} ReceivedIsPrefix(cursor: Bytes, actions: seq<Action>)
    requires Clocks64(actions) && NeverWraps(actions)
    ensures Received(cursor, actions) <= After(StreamAfter(actions), IdOf(cursor))
    ensures |actions| > 0 && actions[|actions| - 1].ReadOn? ==>
      Received(cursor, actions) == After(StreamAfter(actions), IdOf(cursor))
  {
    if |actions| > 0 {
      hide After, IdOf, Appended;
      var before, a := actions[..|actions| - 1], actions[|actions| - 1];
      ReceivedIsPrefix(cursor, before);
      RunWellFormed(before);
      match a
      case AddEntry(_, _, _) =>
        AfterGrows(StreamAfter(before), a, IdOf(cursor));
      case ReadOn =>
        ReadOnDeliversRest(StreamAfter(before), cursor, Received(cursor, before));
        ReadLeaves(StreamAfter(before));
    }
  }

  lemma ReadLeaves(es: seq<Entry>)
    ensures Appended(es, ReadOn) == es
  {
  }

  /** However additions and reads interleave: what the client has received plus what its next read
      returns is exactly the stream above its starting point, each entry once and in order. */
  lemma EveryEntryExactlyOnce(cursor: Bytes, actions: seq<Action>)
    requires Clocks64(actions) && NeverWraps(actions)
    ensures var es, got := StreamAfter(actions), Received(cursor, actions);
      got + After(es, IdOf(CursorAfter(cursor, got))) == After(es, IdOf(cursor))
  {
    ReceivedIsPrefix(cursor, actions);
    RunWellFormed(actions);
    ReadOnDeliversRest(StreamAfter(actions), cursor, Received(cursor, actions));
  }
}
