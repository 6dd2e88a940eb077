/** All list keys of the store at once: what each locked region does to them, and how one key of the store
    follows the interleavings of `BlockingLists`. */
module ListStates {
  import opened Bytes
  import opened ListHandoff
  import opened BlockingLists
  import opened WaiterLine

  /** Lists and waiting lines by key. The channels made so far are numbered below `channels`; `slots` are
      the filled ones. */
  datatype Lists = Lists(elements: map<Bytes, seq<Bytes>>, blockingClients: map<Bytes, seq<nat>>, channels: nat,
                         slots: map<nat, Bytes>)

  function ElementsOf(ls: Lists, key: Bytes): seq<Bytes>
  {
    if key in ls.elements then ls.elements[key] else []
  }

  function WaitersOn(ls: Lists, key: Bytes): seq<nat>
  {
    if key in ls.blockingClients then ls.blockingClients[key] else []
  }

  /** Apart from `key`, every list and every waiting line is as it was. */
  ghost predicate OnlyKey(ls: Lists, ls': Lists, key: Bytes)
  {
    forall k :: k != key ==> ElementsOf(ls', k) == ElementsOf(ls, k) && WaitersOn(ls', k) == WaitersOn(ls, k)
  }

  /** A line holds existing, unfilled channels, the longest waiting first. */
  ghost predicate LineOk(ls: Lists, line: seq<nat>)
  {
    Increasing(line) && forall c :: c in line ==> c < ls.channels && c !in ls.slots
  }

  ghost predicate Apart(a: seq<nat>, b: seq<nat>)
  {
    forall c :: c in a ==> c !in b
  }

  /** Every line is in order, and no channel waits on two keys. */
  ghost predicate Valid(ls: Lists)
  {
    && (forall c :: c in ls.slots ==> c < ls.channels)
    && (forall k :: LineOk(ls, WaitersOn(ls, k)))
    && (forall k, l :: k != l ==> Apart(WaitersOn(ls, k), WaitersOn(ls, l)))
  }

  // The locked regions, as relations

  ghost predicate PushStep(ls: Lists, ls': Lists, key: Bytes, left: bool, vs: seq<Bytes>, length: nat)
    requires WaitersOn(ls, key) != [] ==> vs != []
  {
    var r := Push(ElementsOf(ls, key), WaitersOn(ls, key), left, vs);
    && ElementsOf(ls', key) == r.elements && WaitersOn(ls', key) == r.waiters && length == r.length
    && ls'.slots == (if r.handed == [] then ls.slots else ls.slots[r.handed[0].chan := r.handed[0].value])
    && OnlyKey(ls, ls', key) && ls'.channels == ls.channels
  }

  ghost predicate PopStep(ls: Lists, ls': Lists, key: Bytes, n: nat)
    requires n <= |ElementsOf(ls, key)|
  {
    && ElementsOf(ls', key) == ElementsOf(ls, key)[n..] && WaitersOn(ls', key) == WaitersOn(ls, key)
    && OnlyKey(ls, ls', key) && ls'.channels == ls.channels && ls'.slots == ls.slots
  }

  /** A client joins the end of the line with a new channel. */
  ghost predicate BlockStep(ls: Lists, ls': Lists, key: Bytes)
  {
    && ElementsOf(ls', key) == ElementsOf(ls, key) && WaitersOn(ls', key) == WaitersOn(ls, key) + [ls.channels]
    && OnlyKey(ls, ls', key) && ls'.channels == ls.channels + 1 && ls'.slots == ls.slots
  }

  ghost predicate LeaveStep(ls: Lists, ls': Lists, key: Bytes, ch: nat)
  {
    && ElementsOf(ls', key) == ElementsOf(ls, key) && WaitersOn(ls', key) == RemoveFirst(WaitersOn(ls, key), ch)
    && OnlyKey(ls, ls', key) && ls'.channels == ls.channels && ls'.slots == ls.slots
  }

  /** A receive: the slot is empty afterwards. */
  ghost predicate TakeStep(ls: Lists, ls': Lists, ch: nat)
  {
    ls' == ls.(slots := ls.slots - {ch})
  }

  /** Taking the first waiter off, filling its slot and putting the rest into the list make a push. */
  lemma HandoffIsPush(ls: Lists, ls': Lists, key: Bytes, left: bool, vs: seq<Bytes>)
    requires WaitersOn(ls, key) != [] && vs != []
    requires WaitersOn(ls', key) == WaitersOn(ls, key)[1..]
    requires ElementsOf(ls', key) == if left then vs[1..] + ElementsOf(ls, key) else ElementsOf(ls, key) + vs[1..]
    requires ls'.slots == ls.slots[WaitersOn(ls, key)[0] := vs[0]] && ls'.channels == ls.channels &&
      OnlyKey(ls, ls', key)
    ensures PushStep(ls, ls', key, left, vs, |ElementsOf(ls', key)| + 1)
  {
  }

  lemma OnlyKeyTwice(a: Lists, b: Lists, c: Lists, key: Bytes)
    requires OnlyKey(a, b, key) && OnlyKey(b, c, key)
    ensures OnlyKey(a, c, key)
  {
    hide ElementsOf, WaitersOn;
    forall k | k != key ensures ElementsOf(c, k) == ElementsOf(a, k) && WaitersOn(c, k) == WaitersOn(a, k) {
      assert ElementsOf(b, k) == ElementsOf(a, k) && WaitersOn(b, k) == WaitersOn(a, k);
    }
  }

  /** Whatever happens to one key's line, the others keep what makes them valid. */
  lemma KeepsValid(ls: Lists, ls': Lists, key: Bytes)
    requires Valid(ls) && OnlyKey(ls, ls', key) && ls.channels <= ls'.channels
    requires forall c :: c in ls'.slots ==> c < ls'.channels && (c in ls.slots || c in WaitersOn(ls, key))
    requires LineOk(ls', WaitersOn(ls', key))
    requires forall c :: c in WaitersOn(ls', key) ==> c in WaitersOn(ls, key) || c >= ls.channels
    ensures Valid(ls')
  {
    hide WaitersOn, Increasing;
    forall k ensures LineOk(ls', WaitersOn(ls', k)) {
      if k != key {
        assert LineOk(ls, WaitersOn(ls, k)) && Apart(WaitersOn(ls, k), WaitersOn(ls, key));
      }
    }
    forall k, l | k != l ensures Apart(WaitersOn(ls', k), WaitersOn(ls', l)) {
      assert Apart(WaitersOn(ls, k), WaitersOn(ls, l));
      assert LineOk(ls, WaitersOn(ls, k)) && LineOk(ls, WaitersOn(ls, l));
    }
  }

  /** The send of a push finds the first waiter's channel empty, so it never blocks, and the store stays valid. */
  lemma PushKeepsValid(ls: Lists, ls': Lists, key: Bytes, left: bool, vs: seq<Bytes>, length: nat)
    requires Valid(ls) && (WaitersOn(ls, key) != [] ==> vs != []) && PushStep(ls, ls', key, left, vs, length)
    ensures WaitersOn(ls, key) != [] ==> WaitersOn(ls, key)[0] !in ls.slots
    ensures Valid(ls')
  {
    hide WaitersOn, ElementsOf, Increasing;
    var line := WaitersOn(ls, key);
    assert LineOk(ls, line);
    if line != [] {
      assert line[0] in line;
      BehindFirst(line);
      assert WaitersOn(ls', key) == line[1..] && ls'.slots == ls.slots[line[0] := vs[0]];
      assert LineOk(ls', line[1..]);
    } else {
      assert LineOk(ls', []);
    }
    KeepsValid(ls, ls', key);
  }

  lemma BehindFirst(line: seq<nat>)
    requires line != [] && Increasing(line)
    ensures Increasing(line[1..]) && forall c :: c in line[1..] ==> c in line && c != line[0]
  {
  }

  lemma PopKeepsValid(ls: Lists, ls': Lists, key: Bytes, n: nat)
    requires Valid(ls) && n <= |ElementsOf(ls, key)| && PopStep(ls, ls', key, n)
    ensures Valid(ls')
  {
    hide WaitersOn;
    assert LineOk(ls, WaitersOn(ls, key));
    KeepsValid(ls, ls', key);
  }

  lemma BlockKeepsValid(ls: Lists, ls': Lists, key: Bytes)
    requires Valid(ls) && BlockStep(ls, ls', key)
    ensures Valid(ls')
  {
    hide WaitersOn;
    var line := WaitersOn(ls, key);
    assert LineOk(ls, line);
    forall i | 0 <= i < |line| ensures line[i] < ls.channels {
      assert line[i] in line;
    }
    KeepsValid(ls, ls', key);
  }

  lemma LeaveKeepsValid(ls: Lists, ls': Lists, key: Bytes, ch: nat)
    requires Valid(ls) && LeaveStep(ls, ls', key, ch)
    ensures Valid(ls')
  {
    hide WaitersOn, RemoveFirst, Increasing;
    assert LineOk(ls, WaitersOn(ls, key));
    RemoveFirstSorted(WaitersOn(ls, key), ch);
    KeepsValid(ls, ls', key);
  }

  lemma TakeKeepsValid(ls: Lists, ls': Lists, ch: nat)
    requires Valid(ls) && TakeStep(ls, ls', ch)
    ensures Valid(ls')
  {
    forall k ensures WaitersOn(ls', k) == WaitersOn(ls, k) && LineOk(ls', WaitersOn(ls', k)) {
      assert LineOk(ls, WaitersOn(ls, k));
    }
    forall k, l | k != l ensures Apart(WaitersOn(ls', k), WaitersOn(ls', l)) {
      assert Apart(WaitersOn(ls, k), WaitersOn(ls, l));
    }
  }

  // One key of the store as a state of the interleavings

  /** What the slots say of one client. */
  ghost predicate SlotOk(ls: Lists, s: Sys, c: nat)
  {
    && c < ls.channels && (c in ls.slots <==> HasMail(s.mail, c))
    && (c in ls.slots ==> s.mail[MailAt(s.mail, c)].value == ls.slots[c])
  }

  ghost predicate Tracks(ls: Lists, key: Bytes, s: Sys)
  {
    && Inv(s) && ElementsOf(ls, key) == s.elements && WaitersOn(ls, key) == s.waiters
    && (forall c :: c in s.clients ==> SlotOk(ls, s, c))
    && (forall c, k :: c in s.clients && k != key ==> c !in WaitersOn(ls, k))
  }

  lemma WaitersAreClients(s: Sys)
    requires Inv(s)
    ensures forall c :: c in s.waiters ==> c in s.clients && !HasMail(s.mail, c)
  {
    hide Conserved, Increasing, OneEach, HasMail;
    forall c | c in s.waiters ensures c in s.clients && !HasMail(s.mail, c) {
      assert ClientOk(s, c);
    }
  }

  lemma MailAtAppended(mail: seq<Mail>, m: Mail, c: nat)
    requires OneEach(mail + [m])
    ensures HasMail(mail + [m], c) <==> HasMail(mail, c) || m.chan == c
    ensures HasMail(mail, c) ==> (mail + [m])[MailAt(mail + [m], c)] == mail[MailAt(mail, c)]
    ensures m.chan == c ==> (mail + [m])[MailAt(mail + [m], c)] == m
  {
    MailAppended(mail, m, c);
    var all := mail + [m];
    if HasMail(mail, c) {
      SameMail(all, MailAt(all, c), MailAt(mail, c));
    }
    if m.chan == c {
      SameMail(all, MailAt(all, c), |mail|);
    }
  }

  lemma SameMail(mail: seq<Mail>, i: nat, j: nat)
    requires OneEach(mail) && i < |mail| && j < |mail| && mail[i].chan == mail[j].chan
    ensures i == j
  {
  }

  lemma MailAtTaken(mail: seq<Mail>, c: nat, d: nat)
    requires OneEach(mail) && HasMail(mail, c) && d != c && HasMail(mail, d)
    ensures var n := MailAt(mail, c); var rest := mail[..n] + mail[n + 1..];
      HasMail(rest, d) && rest[MailAt(rest, d)] == mail[MailAt(mail, d)]
  {
    MailTaken(mail, c, d);
    var n := MailAt(mail, c);
    var rest := mail[..n] + mail[n + 1..];
    var i := MailAt(rest, d);
    assert rest[i] == mail[if i < n then i else i + 1];
    SameMail(mail, if i < n then i else i + 1, MailAt(mail, d));
  }

  /** A push onto the key is the push step of the interleaving. */
  lemma PushTracks(ls: Lists, ls': Lists, key: Bytes, left: bool, vs: seq<Bytes>, length: nat, s: Sys)
    requires Tracks(ls, key, s) && vs != [] && PushStep(ls, ls', key, left, vs, length)
    ensures Tracks(ls', key, AfterPush(s, left, vs))
  {
    hide WaitersOn, ElementsOf, MailAt, HasMail, Conserved, Increasing, OneEach, ClientOk;
    var t := AfterPush(s, left, vs);
    PushKeeps(s, left, vs);
    WaitersAreClients(s);
    InvParts(t);
    forall c | c in t.clients ensures SlotOk(ls', t, c) {
      assert SlotOk(ls, s, c);
      if s.waiters != [] {
        var m := Mail(s.waiters[0], vs[0]);
        MailAtAppended(s.mail, m, c);
      } else {
        assert t.mail == s.mail;
      }
    }
  }

  lemma InvParts(s: Sys)
    requires Inv(s)
    ensures OneEach(s.mail) && Increasing(s.waiters)
  {
  }

  /** A push onto another key leaves this one alone. */
  lemma PushElsewhere(ls: Lists, ls': Lists, key: Bytes, left: bool, vs: seq<Bytes>, length: nat, other: Bytes, s: Sys)
    requires Tracks(ls, other, s) && other != key && (WaitersOn(ls, key) != [] ==> vs != [])
    requires PushStep(ls, ls', key, left, vs, length)
    ensures Tracks(ls', other, s)
  {
    hide WaitersOn, ElementsOf, MailAt, HasMail, Inv;
    var line := WaitersOn(ls, key);
    forall c | c in s.clients ensures SlotOk(ls', s, c) {
      assert SlotOk(ls, s, c);
      assert c !in line;
      assert line != [] ==> line[0] in line;
    }
    forall c, k | c in s.clients && k != other ensures c !in WaitersOn(ls', k) {
      assert c !in WaitersOn(ls, k);
      assert k == key && line != [] ==> forall d :: d in line[1..] ==> d in line;
    }
  }

  lemma PopTracks(ls: Lists, ls': Lists, key: Bytes, count: nat, s: Sys)
    requires Tracks(ls, key, s) && PopStep(ls, ls', key, Minimum(count, |ElementsOf(ls, key)|))
    ensures Tracks(ls', key, After(s, Pop(count)))
  {
    hide WaitersOn, ElementsOf, MailAt, HasMail, ClientOk, Inv, SlotOk, Minimum;
    StepKeeps(s, Pop(count));
    SlotsStay(ls, ls', s, After(s, Pop(count)));
  }

  /** BLPOP on a list that holds something. */
  lemma PopAtOnceTracks(ls: Lists, ls': Lists, key: Bytes, s: Sys)
    requires Tracks(ls, key, s) && ElementsOf(ls, key) != [] && PopStep(ls, ls', key, 1)
    ensures Tracks(ls', key, After(s, PopAtOnce))
  {
    hide WaitersOn, ElementsOf, MailAt, HasMail, ClientOk, Inv, SlotOk;
    StepKeeps(s, PopAtOnce);
    SlotsStay(ls, ls', s, After(s, PopAtOnce));
  }

  lemma SlotsStay(ls: Lists, ls': Lists, s: Sys, t: Sys)
    requires ls'.slots == ls.slots && ls.channels <= ls'.channels && t.mail == s.mail
    ensures forall c :: SlotOk(ls, s, c) ==> SlotOk(ls', t, c)
  {
  }

  /** Blocking: the channel the store makes is one no client of the key has. */
  lemma BlockTracks(ls: Lists, ls': Lists, key: Bytes, s: Sys)
    requires Valid(ls) && Tracks(ls, key, s) && ElementsOf(ls, key) == [] && BlockStep(ls, ls', key)
    ensures Enabled(s, Block(ls.channels)) && Tracks(ls', key, After(s, Block(ls.channels)))
  {
    hide WaitersOn, ElementsOf, MailAt, HasMail, Conserved, Increasing, OneEach;
    var c0 := ls.channels;
    assert forall d :: d in s.clients ==> SlotOk(ls, s, d);
    var t := After(s, Block(c0));
    BlockKeeps(s, c0);
    SlotsStay(ls, ls', s, t);
    assert ClientOk(s, c0);
    forall c | c in t.clients ensures SlotOk(ls', t, c) {
      if c != c0 {
        assert SlotOk(ls, s, c);
      }
    }
    forall c, k | c in t.clients && k != key ensures c !in WaitersOn(ls', k) {
      assert LineOk(ls, WaitersOn(ls, k));
    }
  }

  /** The select takes the timer: nothing in the store changes. */
  lemma ExpireTracks(ls: Lists, key: Bytes, c: nat, s: Sys)
    requires Tracks(ls, key, s) && Enabled(s, Expire(c))
    ensures Tracks(ls, key, After(s, Expire(c)))
  {
    hide WaitersOn, ElementsOf, MailAt, HasMail;
    StepKeeps(s, Expire(c));
    SlotsStay(ls, ls, s, After(s, Expire(c)));
  }

  lemma LeaveTracks(ls: Lists, ls': Lists, key: Bytes, c: nat, s: Sys)
    requires Tracks(ls, key, s) && Enabled(s, Leave(c)) && LeaveStep(ls, ls', key, c)
    ensures Tracks(ls', key, After(s, Leave(c)))
  {
    hide WaitersOn, ElementsOf, MailAt, HasMail, RemoveFirst;
    StepKeeps(s, Leave(c));
    SlotsStay(ls, ls', s, After(s, Leave(c)));
  }

  /** A receive that finds its channel filled, in the select or in the last drain, returns its value. */
  lemma TakeTracks(ls: Lists, ls': Lists, key: Bytes, c: nat, s: Sys, step: Step)
    requires Tracks(ls, key, s) && Enabled(s, step) && (step == Receive(c) || step == Drain(c))
    requires TakeStep(ls, ls', c)
    ensures Tracks(ls', key, After(s, step))
    ensures After(s, step).clients[c] == if c in ls.slots then Popped(ls.slots[c]) else CameEmpty
  {
    hide WaitersOn, ElementsOf, MailAt, HasMail, Conserved, Increasing, OneEach, ClientOk;
    var t := After(s, step);
    StepKeeps(s, step);
    InvParts(s);
    assert SlotOk(ls, s, c);
    SameLines(ls, ls');
    forall d | d in t.clients ensures SlotOk(ls', t, d) {
      assert SlotOk(ls, s, d);
      if HasMail(s.mail, c) {
        MailTaken(s.mail, c, d);
        if d != c && HasMail(s.mail, d) {
          MailAtTaken(s.mail, c, d);
        }
      }
    }
  }

  lemma SameLines(ls: Lists, ls': Lists)
    requires ls'.elements == ls.elements && ls'.blockingClients == ls.blockingClients
    ensures forall key :: OnlyKey(ls, ls', key)
    ensures forall k :: ElementsOf(ls', k) == ElementsOf(ls, k) && WaitersOn(ls', k) == WaitersOn(ls, k)
  {
  }

  /** Whatever else happens on other keys, with channels this key's clients do not hold. */
  lemma ElsewhereTracks(ls: Lists, ls': Lists, key: Bytes, other: Bytes, s: Sys)
    requires Valid(ls) && Tracks(ls, other, s) && other != key && OnlyKey(ls, ls', key) && ls.channels <= ls'.channels
    requires forall c :: c in s.clients ==>
      (c in ls'.slots <==> c in ls.slots) && (c in ls.slots ==> ls'.slots[c] == ls.slots[c])
    requires forall c :: c in WaitersOn(ls', key) ==> c in WaitersOn(ls, key) || c >= ls.channels
    ensures Tracks(ls', other, s)
  {
    hide WaitersOn, ElementsOf, MailAt, HasMail, Inv;
    forall c | c in s.clients ensures SlotOk(ls', s, c) {
      assert SlotOk(ls, s, c);
    }
    forall c, k | c in s.clients && k != other ensures c !in WaitersOn(ls', k) {
      assert SlotOk(ls, s, c) && c !in WaitersOn(ls, k);
    }
  }

  /** A new store tracks the start of every key. */
  lemma StartTracks(key: Bytes)
    ensures Valid(Lists(map[], map[], 0, map[])) && Tracks(Lists(map[], map[], 0, map[]), key, INIT)
  {
    InvAtStart();
  }
}
