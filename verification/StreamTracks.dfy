/** The stream store's locked regions are the steps of the interleaving of reads and additions. */
module StreamTracks {
  import opened Bytes
  import opened Decimal
  import opened StreamIds
  import opened Streams
  import opened WaiterLine
  import B = BlockedReads

  function Ids(es: seq<Entry>): (ids: seq<Id>)
    ensures |ids| == |es| && forall i :: 0 <= i < |es| ==> ids[i] == IdOf(es[i].id)
  {
    seq(|es|, i requires 0 <= i < |es| => IdOf(es[i].id))
  }

  function EntriesIn(streams: map<Bytes, seq<Entry>>, key: Bytes): seq<Entry>
  {
    if key in streams then streams[key] else []
  }

  /** The same IDs under every key, and the same waiters. */
  ghost predicate Tracks(streams: map<Bytes, seq<Entry>>, waiters: map<Bytes, seq<nat>>, s: B.Sys)
  {
    forall key :: B.IdsOf(s, key) == Ids(EntriesIn(streams, key)) &&
      B.WaitersOf(waiters, key) == B.WaitersOf(s.waiters, key)
  }

  function CursorsOf(startIDs: seq<Bytes>): (cursors: seq<Id>)
    ensures |cursors| == |startIDs| && forall i :: 0 <= i < |startIDs| ==> cursors[i] == IdOf(startIDs[i])
  {
    seq(|startIDs|, i requires 0 <= i < |startIDs| => IdOf(startIDs[i]))
  }

  lemma StartTracks()
    ensures Tracks(map[], map[], B.INIT)
  {
  }

  lemma SomeAfter(es: seq<Entry>, cursor: Id)
    ensures After(es, cursor) != [] <==> exists i :: 0 <= i < |Ids(es)| && IdLess(cursor, Ids(es)[i])
  {
    hide IdOf, IdLess;
    if |es| > 0 {
      SomeAfter(es[1..], cursor);
      if After(es, cursor) != [] {
        if IdLess(cursor, IdOf(es[0].id)) {
          assert IdLess(cursor, Ids(es)[0]);
        } else {
          var i :| 0 <= i < |Ids(es[1..])| && IdLess(cursor, Ids(es[1..])[i]);
          assert Ids(es)[i + 1] == Ids(es[1..])[i];
        }
      }
      if i :| 0 <= i < |Ids(es)| && IdLess(cursor, Ids(es)[i]) {
        if i > 0 {
          assert Ids(es[1..])[i - 1] == Ids(es)[i];
        }
      }
    }
  }

  /** What a read collects is nothing exactly if no cursor has an ID above it. */
  lemma {:induction false} UnreadIff(store: StreamStore, keys: seq<Bytes>, startIDs: seq<Bytes>, s: B.Sys)
    requires |keys| == |startIDs| && Tracks(store.streams, store.blockingClients, s)
    ensures store.Unread(keys, startIDs) != [] <==> B.SomethingNew(s, keys, CursorsOf(startIDs))
  {
    hide IdOf, After, IdLess, B.Above, B.SomethingNew, Tracks;
    if |keys| > 0 {
      var n, cursors := |keys| - 1, CursorsOf(startIDs);
      assert CursorsOf(startIDs[..n]) == cursors[..n];
      UnreadIff(store, keys[..n], startIDs[..n], s);
      NewsOfKey(store, keys[n], cursors[n], s);
      NewsSnoc(s, keys, cursors);
    } else {
      NoNews(s, keys, CursorsOf(startIDs));
    }
  }

  lemma NoNews(s: B.Sys, keys: seq<Bytes>, cursors: seq<Id>)
    requires |keys| == |cursors| == 0
    ensures !B.SomethingNew(s, keys, cursors)
  {
  }

  lemma NewsSnoc(s: B.Sys, keys: seq<Bytes>, cursors: seq<Id>)
    requires |keys| == |cursors| > 0
    ensures var n := |keys| - 1;
      B.SomethingNew(s, keys, cursors) <==>
        B.SomethingNew(s, keys[..n], cursors[..n]) || B.Above(s, keys[n], cursors[n])
  {
    hide B.Above;
    var n := |keys| - 1;
    if i :| 0 <= i < n && B.Above(s, keys[..n][i], cursors[..n][i]) {
      assert B.Above(s, keys[i], cursors[i]);
    }
    if i :| 0 <= i < |keys| && B.Above(s, keys[i], cursors[i]) {
      assert i < n ==> B.Above(s, keys[..n][i], cursors[..n][i]);
    }
  }

  lemma NewsOfKey(store: StreamStore, key: Bytes, cursor: Id, s: B.Sys)
    requires Tracks(store.streams, store.blockingClients, s)
    ensures After(store.EntriesOf(key), cursor) != [] <==> B.Above(s, key, cursor)
  {
    assert store.EntriesOf(key) == EntriesIn(store.streams, key);
    SomeAfter(store.EntriesOf(key), cursor);
  }

  lemma {:induction false} RegisterOnSame(a: map<Bytes, seq<nat>>, b: map<Bytes, seq<nat>>, keys: seq<Bytes>, c: nat)
    requires forall k :: B.WaitersOf(a, k) == B.WaitersOf(b, k)
    ensures forall k :: B.WaitersOf(B.RegisterOn(a, keys, c), k) == B.WaitersOf(B.RegisterOn(b, keys, c), k)
  {
    if |keys| > 0 {
      var before, key := keys[..|keys| - 1], keys[|keys| - 1];
      RegisterOnSame(a, b, before, c);
      forall k ensures B.WaitersOf(B.RegisterOn(a, keys, c), k) == B.WaitersOf(B.RegisterOn(b, keys, c), k) {
        assert B.WaitersOf(B.RegisterOn(a, before, c), k) == B.WaitersOf(B.RegisterOn(b, before, c), k);
        assert B.WaitersOf(B.RegisterOn(a, before, c), key) == B.WaitersOf(B.RegisterOn(b, before, c), key);
      }
    }
  }

  lemma {:induction false} LeaveAllSame(a: map<Bytes, seq<nat>>, b: map<Bytes, seq<nat>>, keys: seq<Bytes>, c: nat)
    requires forall k :: B.WaitersOf(a, k) == B.WaitersOf(b, k)
    ensures forall k :: B.WaitersOf(B.LeaveAll(a, keys, c), k) == B.WaitersOf(B.LeaveAll(b, keys, c), k)
  {
    if |keys| > 0 {
      var before, key := keys[..|keys| - 1], keys[|keys| - 1];
      LeaveAllSame(a, b, before, c);
      forall k ensures B.WaitersOf(B.LeaveAll(a, keys, c), k) == B.WaitersOf(B.LeaveAll(b, keys, c), k) {
        assert B.WaitersOf(B.LeaveAll(a, before, c), k) == B.WaitersOf(B.LeaveAll(b, before, c), k);
        assert B.WaitersOf(B.LeaveAll(a, before, c), key) == B.WaitersOf(B.LeaveAll(b, before, c), key);
      }
    }
  }

  /** XADD under the lock is the step that adds its ID, and hands on the waiters that the step takes over. */
  method AddEntry(store: StreamStore, key: Bytes, id: Bytes, values: map<Bytes, Bytes>, now: int, ghost s: B.Sys)
    returns (r: Resolved, waiters: seq<nat>)
    requires store.Valid() && Int64(now) && Tracks(store.streams, store.blockingClients, s)
    requires !SequenceWraps(id, LastID(store.EntriesOf(key)), now)
    modifies store
    ensures store.Valid()
    ensures r.Rejected? ==> Tracks(store.streams, store.blockingClients, s) && waiters == []
    ensures r.Accepted? ==>
      var step := B.Add(key, IdOf(r.id));
      && B.Enabled(s, step) && Tracks(store.streams, store.blockingClients, B.After(s, step))
      && B.After(s, step).sending == s.sending + multiset(waiters)
  {
    hide ResolveStreamID, SequenceWraps, Canonical, StreamOk, IdOf, IdLess;
    ghost var es := store.EntriesOf(key);
    r, waiters := store.XAdd(key, id, values, now);
    if r.Accepted? {
      assert key in store.streams && store.streams[key] == es + [Entry(r.id, values)];
      AddTracks(old(store.streams), old(store.blockingClients), s, key, es, Entry(r.id, values));
    }
  }

  lemma AddTracks(streams: map<Bytes, seq<Entry>>, waiters: map<Bytes, seq<nat>>, s: B.Sys, key: Bytes,
                  es: seq<Entry>, e: Entry)
    requires Tracks(streams, waiters, s) && es == EntriesIn(streams, key) && StreamOk(es + [e])
    ensures B.Enabled(s, B.Add(key, IdOf(e.id)))
    ensures Tracks(streams[key := es + [e]], waiters[key := []], B.After(s, B.Add(key, IdOf(e.id))))
    ensures B.WaitersOf(s.waiters, key) == B.WaitersOf(waiters, key)
  {
    AddEnabled(streams, waiters, s, key, es, e);
    hide IdOf, IdLess, StreamOk;
    var t := B.After(s, B.Add(key, IdOf(e.id)));
    assert B.IdsOf(s, key) == Ids(es);
    IdsSnoc(es, e);
    forall k
      ensures B.IdsOf(t, k) == Ids(EntriesIn(streams[key := es + [e]], k))
      ensures B.WaitersOf(waiters[key := []], k) == B.WaitersOf(t.waiters, k)
    {
      assert B.IdsOf(s, k) == Ids(EntriesIn(streams, k)) && B.WaitersOf(waiters, k) == B.WaitersOf(s.waiters, k);
    }
  }

  lemma IdsSnoc(es: seq<Entry>, e: Entry)
    ensures Ids(es + [e]) == Ids(es) + [IdOf(e.id)]
  {
    hide IdOf;
  }

  lemma AddEnabled(streams: map<Bytes, seq<Entry>>, waiters: map<Bytes, seq<nat>>, s: B.Sys, key: Bytes,
                   es: seq<Entry>, e: Entry)
    requires Tracks(streams, waiters, s) && es == EntriesIn(streams, key) && StreamOk(es + [e])
    ensures B.Enabled(s, B.Add(key, IdOf(e.id)))
  {
    hide IdOf;
    var all := es + [e];
    assert B.IdsOf(s, key) == Ids(es);
    assert all[|es|] == e && Canonical(all[|es|].id);
    if |es| > 0 {
      assert all[|es| - 1] == es[|es| - 1];
    }
  }

  /** The first locked region of XREAD: it delivers what is there, or registers exactly when the step that
      registers is possible, and is that step. */
  method ReadOrBlock(store: StreamStore, keys: seq<Bytes>, entryIDs: seq<Bytes>, blockForMs: int, ch: nat,
                     ghost s: B.Sys)
    returns (out: seq<ReadEntry>, startIDs: seq<Bytes>, blocked: bool)
    requires store.Valid() && |keys| == |entryIDs| && Tracks(store.streams, store.blockingClients, s) &&
      ch !in s.readers
    modifies store`blockingClients
    ensures |startIDs| == |keys| && forall i :: 0 <= i < |keys| ==> startIDs[i] == store.StartID(keys[i], entryIDs[i])
    ensures out == store.Unread(keys, startIDs) && (out != [] <==> B.SomethingNew(s, keys, CursorsOf(startIDs)))
    ensures blocked <==> out == [] && blockForMs >= 0
    ensures (forall i :: 0 <= i < |keys| ==> entryIDs[i] == Ascii("$")) ==> out == []
    ensures !blocked ==> Tracks(store.streams, store.blockingClients, s)
    ensures blocked ==>
      var step := B.Register(ch, keys, CursorsOf(startIDs));
      B.Enabled(s, step) && Tracks(store.streams, store.blockingClients, B.After(s, step))
  {
    hide IdOf, StreamOk, After, B.SomethingNew, B.RegisterOn, StreamStore.Unread;
    startIDs := store.ResolveStartIDs(keys, entryIDs);
    out := store.CollectEntries(keys, startIDs);
    UnreadIff(store, keys, startIDs, s);
    blocked := |out| == 0 && blockForMs >= 0;
    if forall i :: 0 <= i < |keys| ==> entryIDs[i] == Ascii("$") {
      DollarsCollectNothing(store, keys, startIDs);
    }
    if blocked {
      RegisterOnSame(store.blockingClients, s.waiters, keys, ch);
      store.RegisterWaiter(keys, ch);
    }
  }

  // What a dollar sign does

  /** Cursors resolved from dollar signs only. */
  ghost predicate FromDollars(store: StreamStore, keys: seq<Bytes>, startIDs: seq<Bytes>)
    reads store`streams
  {
    |keys| == |startIDs| && forall i :: 0 <= i < |keys| ==> startIDs[i] == store.StartID(keys[i], Ascii("$"))
  }

  /** Nothing that is already there is above a dollar sign. */
  lemma NothingAboveLast(es: seq<Entry>)
    requires es == [] || StreamOk(es)
    ensures After(es, if es == [] then ZERO_ID else IdOf(LastID(es))) == []
  {
    hide IdOf, Canonical;
    if es != [] {
      forall i | 0 <= i < |es| ensures IdAtMost(IdOf(es[i].id), IdOf(LastID(es))) {
      }
      AfterIsSuffix(es, IdOf(LastID(es)), |es|);
    }
  }

  /** ... and the next entry is. */
  lemma NextAboveLast(es: seq<Entry>, e: Entry)
    requires (es == [] || StreamOk(es)) && StreamOk(es + [e])
    ensures After(es + [e], if es == [] then ZERO_ID else IdOf(LastID(es))) == [e]
  {
    hide IdOf;
    var all, cursor := es + [e], if es == [] then ZERO_ID else IdOf(LastID(es));
    assert all[|es|] == e && Canonical(all[|es|].id);
    forall i | 0 <= i < |all| ensures IdAtMost(IdOf(all[i].id), cursor) <==> i < |es| {
      if i < |es| {
        assert all[i] == es[i] && all[|es| - 1] == es[|es| - 1];
      } else if |es| > 0 {
        assert IdLess(IdOf(all[|es| - 1].id), IdOf(all[|es|].id));
      }
    }
    AfterIsSuffix(all, cursor, |es|);
    assert all[|es|..] == [e];
  }

  lemma DollarStart(store: StreamStore, key: Bytes)
    ensures var es := store.EntriesOf(key);
      IdOf(store.StartID(key, Ascii("$"))) == if es == [] then ZERO_ID else IdOf(LastID(es))
  {
    assert Ascii("$") == DOLLAR_ID;
    ConvertPrinted(ZERO_ID);
  }

  /** A read from dollar signs only has nothing to collect. */
  lemma {:induction false} DollarsCollectNothing(store: StreamStore, keys: seq<Bytes>, startIDs: seq<Bytes>)
    requires store.Valid() && FromDollars(store, keys, startIDs)
    ensures store.Unread(keys, startIDs) == []
  {
    hide IdOf, After, Canonical, StreamOk;
    if |keys| > 0 {
      var n := |keys| - 1;
      DollarsCollectNothing(store, keys[..n], startIDs[..n]);
      DollarStart(store, keys[n]);
      NothingAboveLast(store.EntriesOf(keys[n]));
    }
  }

  /** The new entry, once for each mention of its stream. */
  function OnlyNew(keys: seq<Bytes>, key: Bytes, e: Entry): seq<ReadEntry>
  {
    if |keys| == 0 then []
    else OnlyNew(keys[..|keys| - 1], key, e) + if keys[|keys| - 1] == key then [ReadEntry(key, [e])] else []
  }

  lemma {:induction false} OnlyNewUnread(store: StreamStore, keys: seq<Bytes>, startIDs: seq<Bytes>, key: Bytes,
                                         before: map<Bytes, seq<Entry>>, e: Entry)
    requires |keys| == |startIDs| && store.Valid() && forall k :: k in before ==> StreamOk(before[k])
    requires store.streams == before[key := EntriesIn(before, key) + [e]]
    requires forall i :: 0 <= i < |keys| ==>
      var es := EntriesIn(before, keys[i]); IdOf(startIDs[i]) == if es == [] then ZERO_ID else IdOf(LastID(es))
    ensures store.Unread(keys, startIDs) == OnlyNew(keys, key, e)
  {
    hide IdOf, After, StreamOk;
    if |keys| > 0 {
      var n := |keys| - 1;
      OnlyNewUnread(store, keys[..n], startIDs[..n], key, before, e);
      var es := EntriesIn(before, keys[n]);
      if keys[n] == key {
        assert store.EntriesOf(key) == es + [e];
        NextAboveLast(es, e);
      } else {
        assert store.EntriesOf(keys[n]) == es;
        NothingAboveLast(es);
      }
    }
  }

  /** XREAD with dollar signs only, then XADD, then what the read collects when it is woken: nothing at first,
      and then exactly the new entry. */
  method DollarsThenAdd(
    store: StreamStore, keys: seq<Bytes>, key: Bytes, id: Bytes, values: map<Bytes, Bytes>, now: int)
    returns (before: seq<ReadEntry>, r: Resolved, after: seq<ReadEntry>)
    requires store.Valid() && Int64(now) && !SequenceWraps(id, LastID(store.EntriesOf(key)), now)
    modifies store
    ensures before == []
    ensures after == if r.Accepted? then OnlyNew(keys, key, Entry(r.id, values)) else []
  {
    hide IdOf, After, StreamOk, Canonical, ResolveStreamID, SequenceWraps, StreamStore.Unread;
    var dollars := seq(|keys|, _ => Ascii("$"));
    var startIDs := store.ResolveStartIDs(keys, dollars);
    assert FromDollars(store, keys, startIDs);
    DollarsCollectNothing(store, keys, startIDs);
    forall i | 0 <= i < |keys|
      ensures var es := EntriesIn(store.streams, keys[i]);
        IdOf(startIDs[i]) == if es == [] then ZERO_ID else IdOf(LastID(es))
    {
      DollarStart(store, keys[i]);
      assert store.EntriesOf(keys[i]) == EntriesIn(store.streams, keys[i]);
    }
    before := store.CollectEntries(keys, startIDs);
    ghost var streams := store.streams;
    var waiters;
    r, waiters := store.XAdd(key, id, values, now);
    after := store.CollectEntries(keys, startIDs);
    if r.Accepted? {
      OnlyNewUnread(store, keys, startIDs, key, streams, Entry(r.id, values));
    }
  }

  /** The second locked region of a read whose channel has woken it: it leaves every line it joined, and
      delivers exactly when the step that finishes does. */
  method FinishRead(store: StreamStore, keys: seq<Bytes>, startIDs: seq<Bytes>, ch: nat, ghost s: B.Sys)
    returns (out: seq<ReadEntry>)
    requires store.Valid() && |keys| == |startIDs| && Tracks(store.streams, store.blockingClients, s)
    requires B.Enabled(s, B.Finish(ch)) && s.readers[ch].keys == keys && s.readers[ch].cursors == CursorsOf(startIDs)
    modifies store`blockingClients
    ensures out == store.Unread(keys, startIDs)
    ensures Tracks(store.streams, store.blockingClients, B.After(s, B.Finish(ch)))
    ensures B.After(s, B.Finish(ch)).readers[ch].phase == B.Returned(out != [])
  {
    hide IdOf, StreamOk, After, B.SomethingNew, B.LeaveAll, StreamStore.Unread;
    UnreadIff(store, keys, startIDs, s);
    LeaveAllSame(store.blockingClients, s.waiters, keys, ch);
    store.RemoveWaiterFromKeys(keys, ch);
    out := store.CollectEntries(keys, startIDs);
  }

  /** ... and of one whose timer has won: it leaves, and delivers only if its channel holds a message after all. */
  method GiveUpRead(store: StreamStore, keys: seq<Bytes>, startIDs: seq<Bytes>, ch: nat, signalled: bool,
                    ghost s: B.Sys)
    returns (out: seq<ReadEntry>)
    requires store.Valid() && |keys| == |startIDs| && Tracks(store.streams, store.blockingClients, s)
    requires B.Enabled(s, B.GiveUp(ch)) && s.readers[ch].keys == keys && s.readers[ch].cursors == CursorsOf(startIDs)
    requires signalled <==> ch in s.slots
    modifies store`blockingClients
    ensures out == if signalled then store.Unread(keys, startIDs) else []
    ensures Tracks(store.streams, store.blockingClients, B.After(s, B.GiveUp(ch)))
    ensures B.After(s, B.GiveUp(ch)).readers[ch].phase == B.Returned(out != [])
  {
    hide IdOf, StreamOk, After, B.SomethingNew, B.LeaveAll, StreamStore.Unread;
    UnreadIff(store, keys, startIDs, s);
    LeaveAllSame(store.blockingClients, s.waiters, keys, ch);
    store.RemoveWaiterFromKeys(keys, ch);
    out := [];
    if signalled {
      out := store.CollectEntries(keys, startIDs);
    }
  }

  /** The steps outside the lock leave the store alone. */
  lemma UnlockedTracks(streams: map<Bytes, seq<Entry>>, waiters: map<Bytes, seq<nat>>, s: B.Sys, step: B.Step)
    requires Tracks(streams, waiters, s) && B.Enabled(s, step) && (step.Notify? || step.Receive? || step.Expire?)
    ensures Tracks(streams, waiters, B.After(s, step))
  {
    forall key ensures B.IdsOf(B.After(s, step), key) == B.IdsOf(s, key) {
    }
  }
}
