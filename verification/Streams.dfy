/** The stream commands: appending, range queries by binary search, and reading on from a cursor. */
module Streams {
  import opened Bytes
  import opened Decimal
  import opened StreamIds
  import opened WaiterLine
  import BlockedReads

  datatype Entry = Entry(id: Bytes, values: map<Bytes, Bytes>)

  /** Ids well formed, above 0-0 and strictly increasing; a stored stream has at least one entry. */
  ghost predicate StreamOk(es: seq<Entry>)
  {
    && |es| > 0
    && (forall i :: 0 <= i < |es| ==> Canonical(es[i].id))
    && (forall i, j :: 0 <= i < j < |es| ==> IdLess(IdOf(es[i].id), IdOf(es[j].id)))
  }

  function LastID(es: seq<Entry>): Bytes
  {
    if |es| == 0 then [] else es[|es| - 1].id
  }

  lemma StreamGrows(es: seq<Entry>, e: Entry)
    requires es == [] || StreamOk(es)
    ensures StreamOk(es + [e]) <==> Canonical(e.id) && (es != [] ==> IdLess(IdOf(LastID(es)), IdOf(e.id)))
  {
    if Canonical(e.id) && (es != [] ==> IdLess(IdOf(LastID(es)), IdOf(e.id))) {
      StreamGrowsBack(es, e);
    }
    if StreamOk(es + [e]) {
      StreamGrewRight(es, e);
    }
  }

  lemma StreamGrewRight(es: seq<Entry>, e: Entry)
    requires StreamOk(es + [e])
    ensures Canonical(e.id) && (es != [] ==> IdLess(IdOf(LastID(es)), IdOf(e.id)))
  {
    hide Canonical, IdOf, IdLess;
    var r := es + [e];
    assert r[|es|] == e && Canonical(r[|es|].id);
    assert es != [] ==> r[|es| - 1] == es[|es| - 1];
  }

  lemma StreamGrowsBack(es: seq<Entry>, e: Entry)
    requires es == [] || StreamOk(es)
    requires Canonical(e.id) && (es != [] ==> IdLess(IdOf(LastID(es)), IdOf(e.id)))
    ensures StreamOk(es + [e])
  {
    hide Canonical, IdOf;
  }

  /** The entries with lo <= ID <= hi, in order. */
  function Between(es: seq<Entry>, lo: Id, hi: Id): seq<Entry>
  {
    if |es| == 0 then []
    else
      var id := IdOf(es[0].id);
      (if IdAtMost(lo, id) && IdAtMost(id, hi) then [es[0]] else []) + Between(es[1..], lo, hi)
  }

  /** The entries above a cursor, in order. */
  function After(es: seq<Entry>, cursor: Id): seq<Entry>
  {
    if |es| == 0 then []
    else (if IdLess(cursor, IdOf(es[0].id)) then [es[0]] else []) + After(es[1..], cursor)
  }

  lemma {:induction false} BetweenIsSlice(es: seq<Entry>, lo: Id, hi: Id, a: nat, b: nat)
    requires a <= |es| && b <= |es|
    requires forall i :: 0 <= i < |es| ==> (IdLess(IdOf(es[i].id), lo) <==> i < a)
    requires forall i :: 0 <= i < |es| ==> (IdAtMost(IdOf(es[i].id), hi) <==> i < b)
    ensures Between(es, lo, hi) == if a <= b then es[a..b] else []
  {
    if |es| > 0 {
      var t := es[1..];
      var a', b' := if a > 0 then a - 1 else 0, if b > 0 then b - 1 else 0;
      NotLessIsAtMost(IdOf(es[0].id), lo);
      hide IdOf, IdLess, IdAtMost;
      forall i | 0 <= i < |t|
        ensures IdLess(IdOf(t[i].id), lo) <==> i < a'
        ensures IdAtMost(IdOf(t[i].id), hi) <==> i < b'
      {
        assert t[i] == es[i + 1];
      }
      SliceOfTail(es, a, b);
      BetweenIsSlice(t, lo, hi, a', b');
    }
  }

  lemma NotLessIsAtMost(a: Id, b: Id)
    ensures IdAtMost(b, a) <==> !IdLess(a, b)
  {
  }

  lemma SliceOfTail(es: seq<Entry>, a: nat, b: nat)
    requires 0 < |es| && a <= |es| && b <= |es|
    ensures var t := es[1..];
      var a', b' := if a > 0 then a - 1 else 0, if b > 0 then b - 1 else 0;
      (if a <= b then es[a..b] else []) == (if a == 0 < b then [es[0]] else []) + (if a' <= b' then t[a'..b'] else [])
  {
  }

  lemma {:induction false} AfterIsSuffix(es: seq<Entry>, cursor: Id, a: nat)
    requires a <= |es|
    requires forall i :: 0 <= i < |es| ==> (IdAtMost(IdOf(es[i].id), cursor) <==> i < a)
    ensures After(es, cursor) == es[a..]
  {
    if |es| > 0 {
      var t := es[1..];
      assert forall i :: 0 <= i < |t| ==> t[i] == es[i + 1];
      AfterIsSuffix(t, cursor, if a > 0 then a - 1 else 0);
    }
  }

  /** A range query's entries, no stream under the key, or the panic of a negative capacity. */
  datatype RangeResult = Found(entries: seq<Entry>) | NoStream | Panics

  datatype ReadEntry = ReadEntry(streamKey: Bytes, values: seq<Entry>)

  const DASH_ID: Bytes := [MINUS]
  const PLUS_ID: Bytes := [PLUS]
  const DOLLAR_ID: Bytes := [36]

  /** Where a range starts: a dash stands for the least possible ID. */
  function RangeStart(startID: Bytes): Id
  {
    if startID == DASH_ID then Id(0, 1) else IdOf(startID)
  }

  /** Where a range ends: a plus stands for the stream's last ID. */
  function RangeEnd(endID: Bytes, es: seq<Entry>): Id
  {
    if endID == PLUS_ID then IdOf(LastID(es)) else IdOf(endID)
  }

  ghost predicate SomeStrictlyBetween(es: seq<Entry>, a: Id, b: Id)
  {
    exists i :: 0 <= i < |es| && IdLess(a, IdOf(es[i].id)) && IdLess(IdOf(es[i].id), b)
  }

  /** The two signs stand for bounds that leave nothing out. */
  lemma SignsCoverAll(es: seq<Entry>)
    requires StreamOk(es)
    ensures forall i :: 0 <= i < |es| ==>
      IdAtMost(RangeStart(Ascii("-")), IdOf(es[i].id)) && IdAtMost(IdOf(es[i].id), RangeEnd(Ascii("+"), es))
    ensures Between(es, RangeStart(Ascii("-")), RangeEnd(Ascii("+"), es)) == es
    ensures !SomeStrictlyBetween(es, RangeEnd(Ascii("+"), es), RangeStart(Ascii("-")))
  {
    hide ConvertID, PrintID, Between;
    assert Ascii("-") == DASH_ID && Ascii("+") == PLUS_ID;
    var lo, hi := RangeStart(Ascii("-")), RangeEnd(Ascii("+"), es);
    assert lo == Id(0, 1) && hi == IdOf(es[|es| - 1].id);
    forall i | 0 <= i < |es| ensures IdAtMost(lo, IdOf(es[i].id)) && IdAtMost(IdOf(es[i].id), hi) {
      assert Canonical(es[i].id);
    }
    hide IdOf, Canonical, StreamOk;
    BetweenIsSlice(es, lo, hi, 0, |es|);
  }

  class StreamStore {
    var streams: map<Bytes, seq<Entry>>
    /** The channels waiting on each key, longest waiting first. */
    var blockingClients: map<Bytes, seq<nat>>

    ghost predicate Valid()
      reads `streams
    {
      forall k :: k in streams ==> StreamOk(streams[k])
    }

    constructor ()
      ensures Valid() && streams == map[] && blockingClients == map[]
    {
      streams, blockingClients := map[], map[];
    }

    ghost function EntriesOf(key: Bytes): seq<Entry>
      reads `streams
    {
      if key in streams then streams[key] else []
    }

    ghost function WaitersOn(key: Bytes): seq<nat>
      reads this
    {
      if key in blockingClients then blockingClients[key] else []
    }

    /** The locked part of XADD: the entry is appended and the key's waiters are taken over, to be
        notified after the lock is released. `now` is the clock. */
    method XAdd(streamKey: Bytes, id: Bytes, values: map<Bytes, Bytes>, now: int)
      returns (r: Resolved, waiters: seq<nat>)
      modifies this
      requires Int64(now)
      ensures r == ResolveStreamID(id, LastID(old(EntriesOf(streamKey))), now)
      ensures r.Rejected? ==> unchanged(this) && waiters == []
      ensures r.Accepted? ==>
        && streams == old(streams)[streamKey := old(EntriesOf(streamKey)) + [Entry(r.id, values)]]
        && waiters == old(WaitersOn(streamKey)) && blockingClients == old(blockingClients)[streamKey := []]
      ensures old(Valid()) && r.Accepted? ==> (Valid() <==> !SequenceWraps(id, LastID(old(EntriesOf(streamKey))), now))
    {
      hide ResolveStreamID, SequenceWraps, Canonical, StreamOk, IdOf;
      var stream := if streamKey in streams then streams[streamKey] else [];
      var lastID := if |stream| > 0 then stream[|stream| - 1].id else [];
      r := ResolveStreamID(id, lastID, now);
      waiters := [];
      if r.Rejected? {
        return;
      }
      var entry := Entry(r.id, values);
      ghost var wasValid := Valid();
      if wasValid {
        StreamTop(stream);
        AcceptedIsAbove(id, lastID, now);
        StreamGrows(stream, entry);
      }
      streams := streams[streamKey := stream + [entry]];
      waiters := if streamKey in blockingClients then blockingClients[streamKey] else [];
      blockingClients := blockingClients[streamKey := []];
      if wasValid {
        forall k | k in streams && k != streamKey ensures StreamOk(streams[k]) {
          assert k in old(streams) && streams[k] == old(streams)[k];
        }
        assert streamKey in streams && streams[streamKey] == stream + [entry];
      }
    }

    lemma StreamTop(es: seq<Entry>)
      ensures StreamOk(es) ==> es != [] && Canonical(LastID(es)) && LastID(es) != []
    {
      hide IdOf, InRange;
    }

    /** Binary search by ID: the first entry not below the target, and whether it has the target's ID. */
    method BinarySearch(entries: seq<Entry>, target: Bytes) returns (index: nat, found: bool)
      requires StreamOk(entries)
      ensures index <= |entries|
      ensures forall i :: 0 <= i < |entries| ==> (IdLess(IdOf(entries[i].id), IdOf(target)) <==> i < index)
      ensures found <==> index < |entries| && IdOf(entries[index].id) == IdOf(target)
    {
      hide Canonical, IdOf;
      var i, j := 0, |entries|;
      while i < j
        invariant 0 <= i <= j <= |entries|
        invariant forall k :: 0 <= k < i ==> IdLess(IdOf(entries[k].id), IdOf(target))
        invariant forall k :: j <= k < |entries| ==> !IdLess(IdOf(entries[k].id), IdOf(target))
      {
        var h := (i + j) / 2;
        if IdLess(IdOf(entries[h].id), IdOf(target)) {
          i := h + 1;
        } else {
          j := h;
        }
      }
      index := i;
      found := i < |entries| && IdOf(entries[i].id) == IdOf(target);
    }

    /** Exactly the entries from start to end; a panic exactly when an entry lies strictly between an
        end and a start that are the wrong way round. */
    method XRange(streamKey: Bytes, startID: Bytes, endID: Bytes) returns (r: RangeResult)
      requires Valid()
      ensures streamKey !in streams ==> r == NoStream
      ensures streamKey in streams ==>
        var es := streams[streamKey];
        var lo, hi := RangeStart(startID), RangeEnd(endID, es);
        if SomeStrictlyBetween(es, hi, lo) then r == Panics else r == Found(Between(es, lo, hi))
    {
      if streamKey !in streams {
        return NoStream;
      }
      hide Canonical, Between, ConvertID, PrintID, IdOf, StreamOk, SomeStrictlyBetween;
      var es := streams[streamKey];
      StreamTop(es);
      PrintedCanonical(Id(0, 1));
      var start, end := startID, endID;
      if startID == DASH_ID {
        start := PrintID(Id(0, 1));
      }
      if endID == PLUS_ID {
        end := es[|es| - 1].id;
      }
      var a, b := IndexRange(es, start, end);
      if a > b {
        return Panics;
      }
      var out := CopyEntries(es, a, b);
      return Found(out);
    }

    /** The copying loop of the queries. */
    method CopyEntries(es: seq<Entry>, a: nat, b: nat) returns (out: seq<Entry>)
      requires a <= b <= |es|
      ensures out == es[a..b]
    {
      out := [];
      for i := a to b
        invariant out == es[a..i]
      {
        out := out + [es[i]];
      }
    }

    /** The bounds of a range query, as positions in the stream. */
    method IndexRange(es: seq<Entry>, start: Bytes, end: Bytes) returns (a: nat, b: nat)
      requires StreamOk(es)
      ensures a <= |es| && b <= |es|
      ensures a <= b ==> es[a..b] == Between(es, IdOf(start), IdOf(end))
      ensures a > b <==> SomeStrictlyBetween(es, IdOf(end), IdOf(start))
    {
      hide IdOf, Canonical, Between;
      var found;
      a, found := BinarySearch(es, start);
      b, found := BinarySearch(es, end);
      ghost var index := b;
      if found {
        b := b + 1;
      }
      AtMostPrefix(es, IdOf(end), index, found, b);
      BetweenIsSlice(es, IdOf(start), IdOf(end), a, b);
      BetweenNone(es, IdOf(start), IdOf(end), a, b);
    }

    lemma BetweenNone(es: seq<Entry>, lo: Id, hi: Id, a: nat, b: nat)
      requires a <= |es| && b <= |es|
      requires forall i :: 0 <= i < |es| ==> (IdLess(IdOf(es[i].id), lo) <==> i < a)
      requires forall i :: 0 <= i < |es| ==> (IdAtMost(IdOf(es[i].id), hi) <==> i < b)
      ensures a > b <==> SomeStrictlyBetween(es, hi, lo)
    {
      hide IdOf;
      if a > b {
        assert !IdAtMost(IdOf(es[b].id), hi) && IdLess(IdOf(es[b].id), lo);
      }
    }

    lemma AtMostPrefix(es: seq<Entry>, hi: Id, index: nat, found: bool, b: nat)
      requires StreamOk(es) && index <= |es| && b == (if found then index + 1 else index)
      requires forall i :: 0 <= i < |es| ==> (IdLess(IdOf(es[i].id), hi) <==> i < index)
      requires found <==> index < |es| && IdOf(es[index].id) == hi
      ensures b <= |es| && forall i :: 0 <= i < |es| ==> (IdAtMost(IdOf(es[i].id), hi) <==> i < b)
    {
      hide IdOf, Canonical;
      forall i | 0 <= i < |es| ensures IdAtMost(IdOf(es[i].id), hi) <==> i < b {
        if index < i {
          assert IdLess(IdOf(es[index].id), IdOf(es[i].id));
        }
      }
    }

    /** `$` stands for the stream's last ID, 0-0 without a stream. */
    ghost function StartID(key: Bytes, entryID: Bytes): Bytes
      reads `streams
    {
      if entryID != DOLLAR_ID then entryID
      else if EntriesOf(key) != [] then LastID(EntriesOf(key))
      else PrintID(ZERO_ID)
    }

    method ResolveStartIDs(streamKeys: seq<Bytes>, entryIDs: seq<Bytes>) returns (startIDs: seq<Bytes>)
      requires |streamKeys| == |entryIDs|
      ensures |startIDs| == |entryIDs|
      ensures forall i :: 0 <= i < |startIDs| ==> startIDs[i] == StartID(streamKeys[i], entryIDs[i])
    {
      startIDs := [];
      for i := 0 to |streamKeys|
        invariant |startIDs| == i
        invariant forall j :: 0 <= j < i ==> startIDs[j] == StartID(streamKeys[j], entryIDs[j])
      {
        var key := streamKeys[i];
        if entryIDs[i] == DOLLAR_ID {
          if key in streams && |streams[key]| > 0 {
            startIDs := startIDs + [streams[key][|streams[key]| - 1].id];
          } else {
            startIDs := startIDs + [PrintID(ZERO_ID)];
          }
        } else {
          startIDs := startIDs + [entryIDs[i]];
        }
      }
    }

    /** What a read has to deliver: for each key with entries above its cursor, those entries. */
    ghost function Unread(streamKeys: seq<Bytes>, startIDs: seq<Bytes>): seq<ReadEntry>
      requires |streamKeys| == |startIDs|
      reads `streams
    {
      if |streamKeys| == 0 then []
      else
        var n := |streamKeys| - 1;
        var news := After(EntriesOf(streamKeys[n]), IdOf(startIDs[n]));
        Unread(streamKeys[..n], startIDs[..n]) + if news == [] then [] else [ReadEntry(streamKeys[n], news)]
    }

    method CollectEntries(streamKeys: seq<Bytes>, startIDs: seq<Bytes>) returns (out: seq<ReadEntry>)
      requires Valid() && |streamKeys| == |startIDs|
      ensures out == Unread(streamKeys, startIDs)
    {
      hide IdOf, Canonical, After, Unread, StreamOk;
      NothingUnread();
      out := [];
      for i := 0 to |streamKeys|
        invariant out == Unread(streamKeys[..i], startIDs[..i])
      {
        var key := streamKeys[i];
        UnreadStep(streamKeys, startIDs, i);
        if key !in streams {
          NothingAfterNothing(IdOf(startIDs[i]));
          continue;
        }
        var es := streams[key];
        var startIndex, found := BinarySearch(es, startIDs[i]);
        ghost var index := startIndex;
        if found {
          startIndex := startIndex + 1;
        }
        AtMostPrefix(es, IdOf(startIDs[i]), index, found, startIndex);
        AfterIsSuffix(es, IdOf(startIDs[i]), startIndex);
        if startIndex >= |es| {
          assert es[startIndex..] == [];
          continue;
        }
        var values := CopyEntries(es, startIndex, |es|);
        assert values == es[startIndex..] && values != [];
        out := out + [ReadEntry(key, values)];
      }
      assert streamKeys[..|streamKeys|] == streamKeys && startIDs[..|streamKeys|] == startIDs;
    }

    lemma NothingAfterNothing(cursor: Id)
      ensures After([], cursor) == []
    {
    }

    lemma NothingUnread()
      ensures Unread([], []) == []
    {
    }

    /** The streams come in the order in which the read names them. */
    lemma {:induction false} UnreadInOrder(a: seq<Bytes>, ids: seq<Bytes>, b: seq<Bytes>, more: seq<Bytes>)
      requires |a| == |ids| && |b| == |more|
      ensures Unread(a + b, ids + more) == Unread(a, ids) + Unread(b, more)
      decreases |b|
    {
      hide IdOf, After;
      if |b| == 0 {
        assert a + b == a && ids + more == ids;
      } else {
        var n := |b| - 1;
        assert (a + b)[..|a| + n] == a + b[..n] && (ids + more)[..|a| + n] == ids + more[..n];
        UnreadInOrder(a, ids, b[..n], more[..n]);
      }
    }

    lemma UnreadOfOne(key: Bytes, id: Bytes)
      ensures var news := After(EntriesOf(key), IdOf(id));
        Unread([key], [id]) == if news == [] then [] else [ReadEntry(key, news)]
    {
      assert [key][..0] == [] && [id][..0] == [];
      hide IdOf, After;
    }

    lemma UnreadStep(streamKeys: seq<Bytes>, startIDs: seq<Bytes>, i: nat)
      requires |streamKeys| == |startIDs| && i < |streamKeys|
      ensures var news := After(EntriesOf(streamKeys[i]), IdOf(startIDs[i]));
        Unread(streamKeys[..i + 1], startIDs[..i + 1]) ==
          Unread(streamKeys[..i], startIDs[..i]) + if news == [] then [] else [ReadEntry(streamKeys[i], news)]
    {
      var ks, ids := streamKeys[..i + 1], startIDs[..i + 1];
      assert ks[..i] == streamKeys[..i] && ids[..i] == startIDs[..i];
    }

    /** Blocking: the channel joins the waiters of every stream the read names. */
    method RegisterWaiter(streamKeys: seq<Bytes>, ch: nat)
      modifies `blockingClients
      ensures blockingClients == BlockedReads.RegisterOn(old(blockingClients), streamKeys, ch)
    {
      for i := 0 to |streamKeys|
        invariant blockingClients == BlockedReads.RegisterOn(old(blockingClients), streamKeys[..i], ch)
      {
        var key := streamKeys[i];
        var clients := if key in blockingClients then blockingClients[key] else [];
        blockingClients := blockingClients[key := clients + [ch]];
        assert streamKeys[..i + 1][..i] == streamKeys[..i];
      }
      assert streamKeys[..|streamKeys|] == streamKeys;
    }

    /** Leaving: the channel's first place among each key's waiters, once per mention of the key. */
    method RemoveWaiterFromKeys(streamKeys: seq<Bytes>, ch: nat)
      modifies `blockingClients
      ensures forall k ::
        WaitersOn(k) == BlockedReads.WaitersOf(BlockedReads.LeaveAll(old(blockingClients), streamKeys, ch), k)
    {
      hide BlockedReads.LeaveAll;
      ghost var left := blockingClients;
      LeaveStep(blockingClients, streamKeys, 0, ch);
      for i := 0 to |streamKeys|
        invariant left == BlockedReads.LeaveAll(old(blockingClients), streamKeys[..i], ch)
        invariant forall k :: BlockedReads.WaitersOf(blockingClients, k) == BlockedReads.WaitersOf(left, k)
      {
        var key := streamKeys[i];
        var clients := if key in blockingClients then blockingClients[key] else [];
        assert clients == BlockedReads.WaitersOf(left, key);
        LeaveStep(old(blockingClients), streamKeys, i, ch);
        var found, rest := CutOut(clients, ch);
        SameAfter(blockingClients, left, key, rest, left[key := rest]);
        left := left[key := rest];
        if found {
          blockingClients := blockingClients[key := rest];
        }
      }
      assert streamKeys[..|streamKeys|] == streamKeys;
      assert forall k :: WaitersOn(k) == BlockedReads.WaitersOf(blockingClients, k);
    }

    /** Two tables with the same waiters keep them when one key's are replaced in both. */
    lemma SameAfter(a: map<Bytes, seq<nat>>, b: map<Bytes, seq<nat>>, key: Bytes, rest: seq<nat>,
                    b': map<Bytes, seq<nat>>)
      requires forall k :: BlockedReads.WaitersOf(a, k) == BlockedReads.WaitersOf(b, k)
      requires b' == b[key := rest]
      ensures forall k :: BlockedReads.WaitersOf(b', k) == if k == key then rest else BlockedReads.WaitersOf(a, k)
    {
      forall k ensures BlockedReads.WaitersOf(b', k) == if k == key then rest else BlockedReads.WaitersOf(a, k) {
        assert BlockedReads.WaitersOf(a, k) == BlockedReads.WaitersOf(b, k);
      }
    }

    lemma LeaveStep(waiters: map<Bytes, seq<nat>>, keys: seq<Bytes>, i: nat, ch: nat)
      requires i <= |keys|
      ensures BlockedReads.LeaveAll(waiters, keys[..0], ch) == waiters
      ensures i < |keys| ==>
        var before := BlockedReads.LeaveAll(waiters, keys[..i], ch);
        BlockedReads.LeaveAll(waiters, keys[..i + 1], ch) ==
          before[keys[i] := RemoveFirst(BlockedReads.WaitersOf(before, keys[i]), ch)]
    {
      if i < |keys| {
        assert keys[..i + 1][..i] == keys[..i];
      }
    }

    /** The scan for a channel's first place. */
    method CutOut(clients: seq<nat>, ch: nat) returns (found: bool, rest: seq<nat>)
      ensures rest == RemoveFirst(clients, ch) && (found <==> ch in clients) && (!found ==> rest == clients)
    {
      hide RemoveFirst;
      for j := 0 to |clients|
        invariant forall i :: 0 <= i < j ==> clients[i] != ch
      {
        if clients[j] == ch {
          RemoveFirstAt(clients, ch, j);
          return true, clients[..j] + clients[j + 1..];
        }
      }
      RemoveFirstAt(clients, ch, |clients|);
      return false, clients;
    }
  }

  /** One entry between a reversed pair of bounds is enough for the panic. */
  method ReversedRangePanics(key: Bytes, values: map<Bytes, Bytes>) returns (store: StreamStore, r: RangeResult)
    ensures r == Panics
  {
    hide Canonical, ResolveStreamID, ConvertID, PrintID;
    store := new StreamStore();
    var lo, mid, hi := PrintID(Id(1, 0)), PrintID(Id(5, 0)), PrintID(Id(9, 0));
    PrintedBounds();
    var _, _ := store.XAdd(key, mid, values, 0);
    r := store.XRange(key, hi, lo);
  }

  lemma PrintedBounds()
    ensures var lo, mid, hi := PrintID(Id(1, 0)), PrintID(Id(5, 0)), PrintID(Id(9, 0));
      && ResolveStreamID(mid, [], 0) == Accepted(mid) && !SequenceWraps(mid, [], 0)
      && forall values :: SomeStrictlyBetween([Entry(mid, values)], RangeEnd(lo, [Entry(mid, values)]), RangeStart(hi))
  {
    var lo, mid, hi := PrintID(Id(1, 0)), PrintID(Id(5, 0)), PrintID(Id(9, 0));
    ConvertPrinted(Id(1, 0));
    ConvertPrinted(Id(5, 0));
    ConvertPrinted(Id(9, 0));
    ExplicitIdAccepted(Id(5, 0), [], 0);
    LongerThanOne(Id(1, 0));
    LongerThanOne(Id(9, 0));
    forall values: map<Bytes, Bytes>
      ensures SomeStrictlyBetween([Entry(mid, values)], RangeEnd(lo, [Entry(mid, values)]), RangeStart(hi))
    {
      assert [Entry(mid, values)][0].id == mid;
    }
  }

  lemma LongerThanOne(id: Id)
    ensures |PrintID(id)| >= 3
  {
  }
}
