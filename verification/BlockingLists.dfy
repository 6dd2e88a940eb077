/** Pushes, pops and blocking pops on one list key, as interleaved atomic steps: the locked regions, and
    the channel receives and timeouts that race outside the lock. */
module BlockingLists {
  import opened Bytes
  import opened ListHandoff
  import opened WaiterLine

  /** Where a blocked client stands: in its select; past its timer; off the waiting list; done. */
  datatype Phase = Blocked | Expired | Left | Popped(value: Bytes) | CameEmpty

  /** The list, its waiters, the filled channels and the clients, with the history of the key: what
      clients pushed, what left the list or was handed over, in that order, and what was returned. */
  datatype Sys = Sys(elements: seq<Bytes>, waiters: seq<nat>, mail: seq<Mail>, clients: map<nat, Phase>,
                     pushed: seq<Bytes>, handed: seq<Bytes>, returned: seq<Bytes>)

  const INIT := Sys([], [], [], map[], [], [], [])

  datatype Step =
    | PushRight(values: seq<Bytes>)
    | PushLeft(values: seq<Bytes>)
    | Pop(count: nat)               // LPOP
    | PopAtOnce                     // BLPOP on a list that holds something
    | Block(chan: nat)              // BLPOP on an empty list
    | Receive(chan: nat)            // the select takes the value
    | Expire(chan: nat)             // the select takes the timer
    | Leave(chan: nat)              // the waiter is removed under the lock
    | Drain(chan: nat)              // the last look at the channel

  function Values(mail: seq<Mail>): (vs: seq<Bytes>)
    ensures |vs| == |mail|
    ensures forall i :: 0 <= i < |vs| ==> vs[i] == mail[i].value
  {
    seq(|mail|, i requires 0 <= i < |mail| => mail[i].value)
  }

  predicate HasMail(mail: seq<Mail>, c: nat)
  {
    exists i :: 0 <= i < |mail| && mail[i].chan == c
  }

  /** The position of a channel's value, or the length. */
  function MailAt(mail: seq<Mail>, c: nat): (n: nat)
    ensures n <= |mail| && (n < |mail| <==> HasMail(mail, c))
    ensures n < |mail| ==> mail[n].chan == c
  {
    if |mail| == 0 then 0
    else if mail[0].chan == c then
      assert HasMail(mail, c);
      0
    else
      var n := MailAt(mail[1..], c);
      assert HasMail(mail[1..], c) ==> HasMail(mail, c) by {
        if HasMail(mail[1..], c) {
          assert mail[n + 1].chan == c;
        }
      }
      assert HasMail(mail, c) ==> HasMail(mail[1..], c) by {
        if HasMail(mail, c) {
          var i :| 0 <= i < |mail| && mail[i].chan == c;
          assert mail[1..][i - 1].chan == c;
        }
      }
      n + 1
  }

  function Minimum(a: nat, b: nat): nat
  {
    if a < b then a else b
  }

  predicate Enabled(s: Sys, step: Step)
  {
    match step
    case PushRight(vs) => vs != []
    case PushLeft(vs) => vs != []
    case Pop(_) => true
    case PopAtOnce => s.elements != []
    case Block(c) => s.elements == [] && forall d :: d in s.clients ==> d < c
    case Receive(c) => c in s.clients && s.clients[c] == Blocked && HasMail(s.mail, c)
    case Expire(c) => c in s.clients && s.clients[c] == Blocked
    case Leave(c) => c in s.clients && s.clients[c] == Expired
    case Drain(c) => c in s.clients && s.clients[c] == Left
  }

  function AfterPush(s: Sys, left: bool, vs: seq<Bytes>): Sys
    requires vs != []
  {
    var r := Push(s.elements, s.waiters, left, vs);
    s.(elements := r.elements, waiters := r.waiters, mail := s.mail + r.handed,
       pushed := s.pushed + vs, handed := s.handed + Values(r.handed))
  }

  function After(s: Sys, step: Step): Sys
    requires Enabled(s, step)
  {
    match step
    case PushRight(vs) => AfterPush(s, false, vs)
    case PushLeft(vs) => AfterPush(s, true, Reverse(vs))
    case Pop(count) =>
      var n := Minimum(count, |s.elements|);
      s.(elements := s.elements[n..], handed := s.handed + s.elements[..n], returned := s.returned + s.elements[..n])
    case PopAtOnce =>
      s.(elements := s.elements[1..], handed := s.handed + [s.elements[0]], returned := s.returned + [s.elements[0]])
    case Block(c) => s.(waiters := s.waiters + [c], clients := s.clients[c := Blocked])
    case Receive(c) => TakeMail(s, c)
    case Expire(c) => s.(clients := s.clients[c := Expired])
    case Leave(c) => s.(waiters := RemoveFirst(s.waiters, c), clients := s.clients[c := Left])
    case Drain(c) => if HasMail(s.mail, c) then TakeMail(s, c) else s.(clients := s.clients[c := CameEmpty])
  }

  /** The client takes the value out of its channel and is done. */
  function TakeMail(s: Sys, c: nat): Sys
    requires HasMail(s.mail, c)
  {
    var n := MailAt(s.mail, c);
    var v := s.mail[n].value;
    s.(mail := s.mail[..n] + s.mail[n + 1..], clients := s.clients[c := Popped(v)], returned := s.returned + [v])
  }

  predicate Runs(s: Sys, steps: seq<Step>)
    decreases |steps|
  {
    |steps| == 0 || (Enabled(s, steps[0]) && Runs(After(s, steps[0]), steps[1..]))
  }

  function Final(s: Sys, steps: seq<Step>): Sys
    requires Runs(s, steps)
    decreases |steps|
  {
    if |steps| == 0 then s else Final(After(s, steps[0]), steps[1..])
  }

  // No value is lost or duplicated

  ghost predicate Conserved(s: Sys)
  {
    && multiset(s.pushed) == multiset(s.elements) + multiset(s.handed)
    && multiset(s.handed) == multiset(Values(s.mail)) + multiset(s.returned)
  }

  lemma SplitMultiset(a: seq<Bytes>, n: nat)
    requires n <= |a|
    ensures multiset(a) == multiset(a[..n]) + multiset(a[n..])
  {
    assert a == a[..n] + a[n..];
  }

  lemma TakeMailConserves(s: Sys, c: nat)
    requires Conserved(s) && HasMail(s.mail, c)
    ensures Conserved(TakeMail(s, c))
  {
    hide HasMail, MailAt;
    var n := MailAt(s.mail, c);
    CutOne(s.mail, n);
    ValuesAppended(s.returned, [s.mail[n].value]);
  }

  lemma CutOne(mail: seq<Mail>, n: nat)
    requires n < |mail|
    ensures multiset(Values(mail)) == multiset(Values(mail[..n] + mail[n + 1..])) + multiset([mail[n].value])
  {
    var vs := Values(mail);
    assert vs == (vs[..n] + [mail[n].value]) + vs[n + 1..];
    assert Values(mail[..n] + mail[n + 1..]) == vs[..n] + vs[n + 1..];
    ValuesAppended(vs[..n] + [mail[n].value], vs[n + 1..]);
    ValuesAppended(vs[..n], [mail[n].value]);
    ValuesAppended(vs[..n], vs[n + 1..]);
  }

  lemma ValuesAppended(a: seq<Bytes>, b: seq<Bytes>)
    ensures multiset(a + b) == multiset(a) + multiset(b)
  {
  }

  lemma PushConserves(s: Sys, left: bool, vs: seq<Bytes>)
    requires Conserved(s) && vs != []
    ensures Conserved(AfterPush(s, left, vs))
  {
    var r := Push(s.elements, s.waiters, left, vs);
    PushedOnce(s.elements, s.waiters, left, vs);
    assert Values(s.mail + r.handed) == Values(s.mail) + Values(r.handed);
    ValuesAppended(Values(s.mail), Values(r.handed));
    ValuesAppended(s.pushed, vs);
    ValuesAppended(s.handed, Values(r.handed));
    Regroup(multiset(s.elements), multiset(s.handed), multiset(vs), multiset(r.elements), multiset(Values(r.handed)));
    Regroup(multiset(Values(s.mail)), multiset(s.returned), multiset(Values(r.handed)),
            multiset(Values(s.mail)) + multiset(Values(r.handed)), multiset{});

  }

  lemma Regroup(e: multiset<Bytes>, h: multiset<Bytes>, v: multiset<Bytes>, e': multiset<Bytes>, w: multiset<Bytes>)
    requires e + v == e' + w
    ensures (e + h) + v == e' + (h + w)
  {
    assert (e + h) + v == (e + v) + h;
    assert e' + (h + w) == (e' + w) + h;
  }

  /** Of a push, every value is either in the list or handed over. */
  lemma PushedOnce(elements: seq<Bytes>, waiters: seq<nat>, left: bool, vs: seq<Bytes>)
    requires vs != []
    ensures var r := Push(elements, waiters, left, vs);
      multiset(elements) + multiset(vs) == multiset(r.elements) + multiset(Values(r.handed))
  {
    var r := Push(elements, waiters, left, vs);
    if waiters != [] {
      assert vs == [vs[0]] + vs[1..] && Values(r.handed) == [vs[0]];
      ValuesAppended([vs[0]], vs[1..]);
      ValuesAppended(elements, vs[1..]);
      ValuesAppended(vs[1..], elements);
    } else {
      assert Values(r.handed) == [];
      ValuesAppended(elements, vs);
      ValuesAppended(vs, elements);
    }
  }

  lemma StepConserves(s: Sys, step: Step)
    requires Conserved(s) && Enabled(s, step)
    ensures Conserved(After(s, step))
  {
    match step
    case PushRight(vs) =>
      PushConserves(s, false, vs);
    case PushLeft(vs) =>
      PushConserves(s, true, Reverse(vs));
    case Pop(count) =>
      SplitMultiset(s.elements, Minimum(count, |s.elements|));
    case PopAtOnce =>
      SplitMultiset(s.elements, 1);
      assert s.elements[..1] == [s.elements[0]];
    case Receive(c) =>
      TakeMailConserves(s, c);
    case Drain(c) =>
      if HasMail(s.mail, c) {
        TakeMailConserves(s, c);
      }
    case _ =>
  }

  // Who waits, who has mail

  ghost predicate Increasing(cs: seq<nat>)
  {
    forall i, j :: 0 <= i < j < |cs| ==> cs[i] < cs[j]
  }

  ghost predicate OneEach(mail: seq<Mail>)
  {
    forall i, j :: 0 <= i < j < |mail| ==> mail[i].chan != mail[j].chan
  }

  /** What a client's phase says about its place among the waiters and its channel. */
  ghost predicate ClientOk(s: Sys, c: nat)
  {
    if c !in s.clients then c !in s.waiters && !HasMail(s.mail, c)
    else match s.clients[c]
      case Blocked => c in s.waiters <==> !HasMail(s.mail, c)
      case Expired => c in s.waiters <==> !HasMail(s.mail, c)
      case Left => c !in s.waiters
      case Popped(_) => c !in s.waiters && !HasMail(s.mail, c)
      case CameEmpty => c !in s.waiters && !HasMail(s.mail, c)
  }

  ghost predicate Inv(s: Sys)
  {
    && Conserved(s)
    && Increasing(s.waiters) && OneEach(s.mail)
    && forall c: nat :: ClientOk(s, c)
  }

  lemma {:induction false} RemoveFirstSorted(cs: seq<nat>, c: nat)
    requires Increasing(cs)
    ensures Increasing(RemoveFirst(cs, c))
    ensures forall d :: d in RemoveFirst(cs, c) <==> d in cs && d != c
  {
    if |cs| > 0 {
      var t := cs[1..];
      assert forall i :: 0 <= i < |t| ==> t[i] == cs[i + 1];
      assert cs == [cs[0]] + t && cs[0] !in t;
      RemoveFirstSorted(t, c);
      var w := RemoveFirst(t, c);
      forall i | 0 <= i < |w| ensures cs[0] < w[i] {
        assert w[i] in w;
      }
    }
  }

  lemma MailAppended(mail: seq<Mail>, m: Mail, d: nat)
    ensures HasMail(mail + [m], d) <==> HasMail(mail, d) || m.chan == d
  {
    if HasMail(mail, d) {
      assert (mail + [m])[MailAt(mail, d)].chan == d;
    }
    if m.chan == d {
      assert (mail + [m])[|mail|].chan == d;
    }
    if HasMail(mail + [m], d) {
      var i :| 0 <= i < |mail + [m]| && (mail + [m])[i].chan == d;
      assert i < |mail| ==> mail[i].chan == d;
    }
  }

  lemma MailTaken(mail: seq<Mail>, c: nat, d: nat)
    requires OneEach(mail) && HasMail(mail, c)
    ensures var n := MailAt(mail, c); var rest := mail[..n] + mail[n + 1..];
      OneEach(rest) && (HasMail(rest, d) <==> HasMail(mail, d) && d != c)
  {
    var n := MailAt(mail, c);
    var rest := mail[..n] + mail[n + 1..];
    assert forall i {:trigger rest[i]} :: 0 <= i < |rest| ==> rest[i] == mail[if i < n then i else i + 1];
    OneEachWithout(mail, n, rest);
    hide OneEach;
    if HasMail(mail, d) && d != c {
      var i := MailAt(mail, d);
      assert rest[if i < n then i else i - 1].chan == d;
    }
    if HasMail(rest, d) {
      var i :| 0 <= i < |rest| && rest[i].chan == d;
      assert mail[if i < n then i else i + 1].chan == d;
    }
  }

  lemma OneEachWithout(mail: seq<Mail>, n: nat, rest: seq<Mail>)
    requires OneEach(mail) && n < |mail| && rest == mail[..n] + mail[n + 1..]
    ensures OneEach(rest)
    ensures forall i :: 0 <= i < |rest| ==> rest[i].chan != mail[n].chan
  {
    forall i, j | 0 <= i < j < |rest| ensures rest[i].chan != rest[j].chan {
      var i', j' := if i < n then i else i + 1, if j < n then j else j + 1;
      assert rest[i] == mail[i'] && rest[j] == mail[j'];
    }
    forall i | 0 <= i < |rest| ensures rest[i].chan != mail[n].chan {
      assert rest[i] == mail[if i < n then i else i + 1];
    }
  }

  /** The send under the lock finds the channel empty, so it never blocks; and whoever is served has
      been blocked longer than everyone still waiting. */
  lemma SendNeverBlocks(s: Sys)
    requires Inv(s) && s.waiters != []
    ensures !HasMail(s.mail, s.waiters[0])
    ensures forall d :: d in s.waiters[1..] ==> s.waiters[0] < d
    ensures forall d :: d in s.clients && s.clients[d] == Blocked && !HasMail(s.mail, d) ==> s.waiters[0] <= d
  {
    var c := s.waiters[0];
    assert c in s.waiters && ClientOk(s, c);
    assert !HasMail(s.mail, c);
    forall d | d in s.clients && s.clients[d] == Blocked && !HasMail(s.mail, d) ensures c <= d {
      assert ClientOk(s, d);
    }
  }

  lemma PushKeeps(s: Sys, left: bool, vs: seq<Bytes>)
    requires Inv(s) && vs != []
    ensures Inv(AfterPush(s, left, vs))
  {
    PushConserves(s, left, vs);
    var t := AfterPush(s, left, vs);
    if s.waiters == [] {
      assert t.mail == s.mail;
      forall d: nat ensures ClientOk(t, d) {
        assert ClientOk(s, d);
      }
    } else {
      SendNeverBlocks(s);
      var m := Mail(s.waiters[0], vs[0]);
      forall i | 0 <= i < |s.mail| ensures s.mail[i].chan != m.chan {
        assert s.mail[i].chan == m.chan ==> HasMail(s.mail, m.chan);
      }
      assert s.waiters == [s.waiters[0]] + s.waiters[1..];
      forall d: nat ensures ClientOk(t, d) {
        MailAppended(s.mail, m, d);
        assert ClientOk(s, d);
      }
    }
  }

  lemma TakeMailKeeps(s: Sys, c: nat)
    requires Inv(s) && c in s.clients && HasMail(s.mail, c)
    ensures Inv(TakeMail(s, c))
  {
    hide Conserved, OneEach, HasMail, MailAt, Increasing;
    TakeMailConserves(s, c);
    var t := TakeMail(s, c);
    forall d: nat ensures ClientOk(t, d) {
      MailTaken(s.mail, c, d);
      assert ClientOk(s, d);
    }
    MailTaken(s.mail, c, c);
  }

  lemma BlockKeeps(s: Sys, c: nat)
    requires Inv(s) && Enabled(s, Block(c))
    ensures Inv(After(s, Block(c)))
  {
    var t := After(s, Block(c));
    forall i | 0 <= i < |s.waiters| ensures s.waiters[i] < c {
      assert s.waiters[i] in s.waiters && ClientOk(s, s.waiters[i]);
    }
    forall d: nat ensures ClientOk(t, d) {
      assert ClientOk(s, d);
    }
  }

  lemma StepKeeps(s: Sys, step: Step)
    requires Inv(s) && Enabled(s, step)
    ensures Inv(After(s, step))
  {
    StepConserves(s, step);
    var t := After(s, step);
    match step
    case PushRight(vs) =>
      PushKeeps(s, false, vs);
    case PushLeft(vs) =>
      PushKeeps(s, true, Reverse(vs));
    case Block(c) =>
      BlockKeeps(s, c);
    case Receive(c) =>
      TakeMailKeeps(s, c);
    case Leave(c) =>
      RemoveFirstSorted(s.waiters, c);
      forall d: nat ensures ClientOk(t, d) {
        assert ClientOk(s, d);
      }
    case Drain(c) =>
      if HasMail(s.mail, c) {
        TakeMailKeeps(s, c);
      } else {
        forall d: nat ensures ClientOk(t, d) {
          assert ClientOk(s, d);
        }
      }
    case _ =>
      forall d: nat ensures ClientOk(t, d) {
        assert ClientOk(s, d);
      }
  }

  lemma {:induction false} InvAlongRun(s: Sys, steps: seq<Step>)
    requires Inv(s) && Runs(s, steps)
    ensures Inv(Final(s, steps))
    decreases |steps|
  {
    if |steps| > 0 {
      StepKeeps(s, steps[0]);
      InvAlongRun(After(s, steps[0]), steps[1..]);
    }
  }

  lemma InvAtStart()
    ensures Inv(INIT)
  {
    assert Values([]) == [];
  }

  /** In every interleaving the values pushed are those in the list, in channels and returned, each as
      often as it was pushed; and a client that came back empty has left nothing behind. */
  lemma NothingLost(steps: seq<Step>)
    requires Runs(INIT, steps)
    ensures var s := Final(INIT, steps);
      && multiset(s.pushed) == multiset(s.elements) + multiset(Values(s.mail)) + multiset(s.returned)
      && forall c :: c in s.clients && (s.clients[c] == CameEmpty || s.clients[c].Popped?) ==>
        c !in s.waiters && !HasMail(s.mail, c)
  {
    InvAtStart();
    InvAlongRun(INIT, steps);
    var s := Final(INIT, steps);
    forall c | c in s.clients && (s.clients[c] == CameEmpty || s.clients[c].Popped?)
      ensures c !in s.waiters && !HasMail(s.mail, c)
    {
      assert ClientOk(s, c);
    }
  }

  /** A blocked client that nobody has served is registered: no push can overlook it. */
  lemma BlockedIsRegistered(steps: seq<Step>, c: nat)
    requires Runs(INIT, steps)
    ensures var s := Final(INIT, steps);
      c in s.clients && s.clients[c] == Blocked && !HasMail(s.mail, c) ==> c in s.waiters
  {
    InvAtStart();
    InvAlongRun(INIT, steps);
    assert ClientOk(Final(INIT, steps), c);
  }

  // Order

  predicate OneValue(step: Step)
  {
    match step
    case PushRight(vs) => |vs| == 1
    case PushLeft(vs) => |vs| == 1
    case _ => true
  }

  predicate NoLeftPush(step: Step)
  {
    !step.PushLeft?
  }

  lemma StepKeepsApart(s: Sys, step: Step)
    requires Enabled(s, step) && HandoffState(s.elements, s.waiters) && OneValue(step)
    ensures HandoffState(After(s, step).elements, After(s, step).waiters)
  {
    match step
    case PushRight(vs) => PushKeepsApartIff(s.elements, s.waiters, false, vs);
    case PushLeft(vs) => PushKeepsApartIff(s.elements, s.waiters, true, Reverse(vs));
    case Leave(c) =>
    case _ =>
  }

  lemma StepKeepsOrder(s: Sys, step: Step)
    requires Enabled(s, step) && HandoffState(s.elements, s.waiters) && NoLeftPush(step)
    requires s.handed + s.elements == s.pushed
    ensures After(s, step).handed + After(s, step).elements == After(s, step).pushed
  {
    match step
    case PushRight(vs) =>
      var r := Push(s.elements, s.waiters, false, vs);
      if s.waiters != [] {
        assert Values(r.handed) == [vs[0]] && vs == [vs[0]] + vs[1..];
        assert s.handed + [vs[0]] + vs[1..] == s.handed + vs;
      } else {
        assert Values(r.handed) == [];
        assert s.handed + (s.elements + vs) == s.handed + s.elements + vs;
      }
    case Pop(count) =>
      var n := Minimum(count, |s.elements|);
      assert s.elements == s.elements[..n] + s.elements[n..];
    case PopAtOnce =>
      assert s.elements == [s.elements[0]] + s.elements[1..];
    case _ =>
  }

  /** With one value per push, whoever waits waits on an empty list. With right pushes only, values
      moreover leave in the order they were pushed, handed over or popped. */
  lemma {:induction false} FifoAlongRun(s: Sys, steps: seq<Step>)
    requires Runs(s, steps) && HandoffState(s.elements, s.waiters) && s.handed + s.elements == s.pushed
    requires forall i :: 0 <= i < |steps| ==> OneValue(steps[i])
    ensures var t := Final(s, steps);
      && HandoffState(t.elements, t.waiters)
      && ((forall i :: 0 <= i < |steps| ==> NoLeftPush(steps[i])) ==> t.handed + t.elements == t.pushed)
    decreases |steps|
  {
    if |steps| > 0 {
      StepKeepsApart(s, steps[0]);
      if NoLeftPush(steps[0]) {
        StepKeepsOrder(s, steps[0]);
        FifoAlongRun(After(s, steps[0]), steps[1..]);
      } else {
        ApartAlongRun(After(s, steps[0]), steps[1..]);
      }
    }
  }

  lemma {:induction false} ApartAlongRun(s: Sys, steps: seq<Step>)
    requires Runs(s, steps) && HandoffState(s.elements, s.waiters)
    requires forall i :: 0 <= i < |steps| ==> OneValue(steps[i])
    ensures HandoffState(Final(s, steps).elements, Final(s, steps).waiters)
    decreases |steps|
  {
    if |steps| > 0 {
      StepKeepsApart(s, steps[0]);
      ApartAlongRun(After(s, steps[0]), steps[1..]);
    }
  }

  /** Two clients wait and two values arrive in one push: the second client goes on waiting beside a
      list that holds a value. */
  lemma SecondWaiterOverlooked(a: Bytes, b: Bytes)
    ensures var steps := [Block(0), Block(1), PushRight([a, b])];
      Runs(INIT, steps) && Final(INIT, steps).waiters == [1] && Final(INIT, steps).elements == [b]
  {
    var s1 := After(INIT, Block(0));
    var s2 := After(s1, Block(1));
    var s3 := After(s2, PushRight([a, b]));
    assert s2.waiters == [0, 1] && [0, 1][1..] == [1] && [a, b][1..] == [b];
    RunsCons(s2, PushRight([a, b]), []);
    RunsCons(s1, Block(1), [PushRight([a, b])]);
    RunsCons(INIT, Block(0), [Block(1), PushRight([a, b])]);
    assert [PushRight([a, b])] + [] == [PushRight([a, b])];
    assert [Block(1)] + [PushRight([a, b])] == [Block(1), PushRight([a, b])];
    assert [Block(0)] + [Block(1), PushRight([a, b])] == [Block(0), Block(1), PushRight([a, b])];
  }

  lemma RunsCons(s: Sys, step: Step, rest: seq<Step>)
    requires Enabled(s, step) && Runs(After(s, step), rest)
    ensures Runs(s, [step] + rest) && Final(s, [step] + rest) == Final(After(s, step), rest)
  {
    assert ([step] + rest)[1..] == rest;
  }
}
