/** What a push onto a list does while clients may be blocked on it. */
module ListHandoff {
  import opened Bytes

  /** A value in the one-place channel of a blocked client. */
  datatype Mail = Mail(chan: nat, value: Bytes)

  /** The list and its waiters after a push, what went to a waiter, and the length replied. */
  datatype PushResult = PushResult(elements: seq<Bytes>, waiters: seq<nat>, handed: seq<Mail>, length: nat)

  function Reverse(vs: seq<Bytes>): (r: seq<Bytes>)
    ensures |r| == |vs|
    ensures forall i :: 0 <= i < |r| ==> r[i] == vs[|vs| - 1 - i]
  {
    if |vs| == 0 then [] else Reverse(vs[1..]) + [vs[0]]
  }

  lemma {:induction false} ReverseMultiset(vs: seq<Bytes>)
    ensures multiset(Reverse(vs)) == multiset(vs)
  {
    if |vs| > 0 {
      ReverseMultiset(vs[1..]);
      assert vs == [vs[0]] + vs[1..];
    }
  }

  /** `vs` in the order they shall stand in the list, at its left or its right end. Only the longest
      waiting client is served, with the first value; the rest goes into the list. */
  function Push(elements: seq<Bytes>, waiters: seq<nat>, left: bool, vs: seq<Bytes>): PushResult
    requires waiters != [] ==> vs != []
  {
    if waiters == [] then
      var es := if left then vs + elements else elements + vs;
      PushResult(es, [], [], |es|)
    else
      var es := if left then vs[1..] + elements else elements + vs[1..];
      PushResult(es, waiters[1..], [Mail(waiters[0], vs[0])], |es| + 1)
  }

  lemma {:induction false} CommutesIfUniform(es: seq<Bytes>, v: Bytes)
    ensures es + [v] == [v] + es <==> forall i :: 0 <= i < |es| ==> es[i] == v
  {
    if |es| > 0 {
      var t := es[1..];
      assert es == [es[0]] + t;
      CommutesIfUniform(t, v);
      if es + [v] == [v] + es {
        assert (es + [v])[0] == ([v] + es)[0];
        assert (es + [v])[1..] == t + [v] && ([v] + es)[1..] == es;
        assert es[0] == v && t + [v] == [v] + t;
        assert forall i :: 1 <= i < |es| ==> es[i] == t[i - 1];
      }
      if forall i :: 0 <= i < |es| ==> es[i] == v {
        assert forall i :: 0 <= i <= |es| ==> (es + [v])[i] == v && ([v] + es)[i] == v;
      }
    }
  }

  /** The push as if nobody waited, and the head then popped for the first waiter. */
  ghost predicate SameAsPushThenPop(elements: seq<Bytes>, waiters: seq<nat>, left: bool, vs: seq<Bytes>)
    requires waiters != [] && vs != []
  {
    var plain, r := Push(elements, [], left, vs), Push(elements, waiters, left, vs);
    r.handed == [Mail(waiters[0], plain.elements[0])] && r.elements == plain.elements[1..] && r.length == plain.length
  }

  /** Handing a value over equals pushing all and popping the head, with the same reply, exactly when
      the push is a left push or the list holds nothing but copies of the value; an empty list will do. */
  lemma HandoffIsPushThenPop(elements: seq<Bytes>, waiters: seq<nat>, left: bool, vs: seq<Bytes>)
    requires waiters != [] && vs != []
    ensures SameAsPushThenPop(elements, waiters, left, vs) <==>
      left || forall i :: 0 <= i < |elements| ==> elements[i] == vs[0]
  {
    var plain, r := Push(elements, [], left, vs), Push(elements, waiters, left, vs);
    assert vs == [vs[0]] + vs[1..];
    if left {
      assert (vs + elements)[1..] == vs[1..] + elements;
    } else {
      CommutesIfUniform(elements, vs[0]);
      var all := elements + vs;
      assert all == (elements + [vs[0]]) + vs[1..];
      if SameAsPushThenPop(elements, waiters, left, vs) {
        assert [vs[0]] + (elements + vs[1..]) == [all[0]] + all[1..] == all;
        assert ([vs[0]] + elements) + vs[1..] == (elements + [vs[0]]) + vs[1..];
        assert (([vs[0]] + elements) + vs[1..])[..|elements| + 1] == [vs[0]] + elements;
        assert ((elements + [vs[0]]) + vs[1..])[..|elements| + 1] == elements + [vs[0]];
      }
      if elements + [vs[0]] == [vs[0]] + elements {
        assert all == [vs[0]] + (elements + vs[1..]);
      }
    }
  }

  /** Nobody waits while the list holds values. */
  predicate HandoffState(elements: seq<Bytes>, waiters: seq<nat>)
  {
    waiters != [] ==> elements == []
  }

  /** A push keeps values and waiters apart exactly when it brings one value or finds at most one waiter:
      with more of both, later waiters keep waiting beside a list that could serve them. */
  lemma PushKeepsApartIff(elements: seq<Bytes>, waiters: seq<nat>, left: bool, vs: seq<Bytes>)
    requires vs != [] && HandoffState(elements, waiters)
    ensures var r := Push(elements, waiters, left, vs);
      HandoffState(r.elements, r.waiters) <==> |vs| == 1 || |waiters| <= 1
  {
  }
}
