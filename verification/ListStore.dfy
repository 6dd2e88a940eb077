/** The list commands on the store: each method is one locked region of the server, over all keys. */
module ListStore {
  import opened Bytes
  import opened ListHandoff
  import opened BlockingLists
  import opened WaiterLine
  import L = ListStates

  datatype Maybe = Nothing | Just(value: Bytes)

  class ListStore {
    var elements: map<Bytes, seq<Bytes>>
    var blockingClients: map<Bytes, seq<nat>>
    var channels: nat
    var slots: map<nat, Bytes>

    ghost function View(): L.Lists
      reads this
    {
      L.Lists(elements, blockingClients, channels, slots)
    }

    ghost predicate Valid()
      reads this
    {
      L.Valid(View())
    }

    constructor ()
      ensures Valid() && View() == L.Lists(map[], map[], 0, map[])
    {
      elements, blockingClients, channels, slots := map[], map[], 0, map[];
    }

    /** Serves the longest waiting client with the first value and puts the rest into the list. The send
        finds that client's channel empty. Without a value to send, the server panics. */
    method CheckForBlockingClients(listKey: Bytes, isLeftPush: bool, value: seq<Bytes>)
      returns (length: nat, handled: bool, panicked: bool)
      requires Valid()
      modifies this
      ensures handled <==> L.WaitersOn(old(View()), listKey) != []
      ensures panicked <==> handled && value == []
      ensures !handled ==> unchanged(this) && length == 0
      ensures handled && !panicked ==> Valid() && L.PushStep(old(View()), View(), listKey, isLeftPush, value, length)
    {
      hide L.Valid, L.OnlyKey, L.PushStep;
      ghost var before := View();
      if listKey !in blockingClients || |blockingClients[listKey]| == 0 {
        return 0, false, false;
      }
      var ch := TakeFirst(listKey);
      if |value| == 0 {
        return 0, true, true;
      }
      ghost var taken := View();
      slots := slots[ch := value[0]];
      ghost var sent := View();
      var remainingVals := value[1..];
      PutRest(listKey, isLeftPush, remainingVals);
      length := (if listKey in elements then |elements[listKey]| else 0) + 1;
      handled, panicked := true, false;
      L.SameLines(taken, sent);
      L.OnlyKeyTwice(before, taken, sent, listKey);
      L.OnlyKeyTwice(before, sent, View(), listKey);
      L.HandoffIsPush(before, View(), listKey, isLeftPush, value);
      L.PushKeepsValid(before, View(), listKey, isLeftPush, value, length);
    }

    /** The longest waiting client leaves the line. */
    method TakeFirst(listKey: Bytes) returns (ch: nat)
      requires L.WaitersOn(View(), listKey) != []
      modifies `blockingClients
      ensures ch == L.WaitersOn(old(View()), listKey)[0] &&
        L.WaitersOn(View(), listKey) == L.WaitersOn(old(View()), listKey)[1..]
      ensures L.OnlyKey(old(View()), View(), listKey)
    {
      var waiters := blockingClients[listKey];
      ch := waiters[0];
      blockingClients := blockingClients[listKey := waiters[1..]];
      if |blockingClients[listKey]| == 0 {
        blockingClients := blockingClients - {listKey};
      }
    }

    /** What a handoff leaves of a push goes into the list. */
    method PutRest(listKey: Bytes, isLeftPush: bool, remainingVals: seq<Bytes>)
      modifies `elements
      ensures L.ElementsOf(View(), listKey) ==
        if isLeftPush then remainingVals + L.ElementsOf(old(View()), listKey)
        else L.ElementsOf(old(View()), listKey) + remainingVals
      ensures L.OnlyKey(old(View()), View(), listKey)
    {
      if |remainingVals| > 0 {
        if listKey !in elements {
          elements := elements[listKey := []];
        }
        if isLeftPush {
          elements := elements[listKey := remainingVals + elements[listKey]];
        } else {
          elements := elements[listKey := elements[listKey] + remainingVals];
        }
      }
    }

    method RPush(listKey: Bytes, value: seq<Bytes>) returns (length: nat, panicked: bool)
      requires Valid()
      modifies this
      ensures panicked <==> L.WaitersOn(old(View()), listKey) != [] && value == []
      ensures !panicked ==> Valid() && L.PushStep(old(View()), View(), listKey, false, value, length)
    {
      hide L.Valid;
      ghost var before := View();
      var handled;
      length, handled, panicked := CheckForBlockingClients(listKey, false, value);
      if handled {
        return;
      }
      if listKey !in elements {
        elements := elements[listKey := []];
      }
      elements := elements[listKey := elements[listKey] + value];
      length := |elements[listKey]|;
      L.PushKeepsValid(before, View(), listKey, false, value, length);
    }

    method LPush(listKey: Bytes, values: seq<Bytes>) returns (length: nat, panicked: bool)
      requires Valid()
      modifies this
      ensures panicked <==> L.WaitersOn(old(View()), listKey) != [] && values == []
      ensures !panicked ==> Valid() && L.PushStep(old(View()), View(), listKey, true, Reverse(values), length)
    {
      hide L.Valid;
      ghost var before := View();
      var reversed := Reversed(values);
      var handled;
      length, handled, panicked := CheckForBlockingClients(listKey, true, reversed);
      if handled {
        return;
      }
      elements := elements[listKey := reversed + if listKey in elements then elements[listKey] else []];
      length := |elements[listKey]|;
      L.PushKeepsValid(before, View(), listKey, true, reversed, length);
    }

    /** The filling loop of a left push. */
    method Reversed(values: seq<Bytes>) returns (r: seq<Bytes>)
      ensures r == Reverse(values)
    {
      var reversed := new Bytes[|values|](_ => []);
      for i := 0 to |values|
        invariant forall j :: 0 <= j < i ==> reversed[|values| - 1 - j] == values[j]
      {
        reversed[|values| - 1 - i] := values[i];
      }
      r := reversed[..];
      forall k | 0 <= k < |r| ensures r[k] == Reverse(values)[k] {
        assert r[k] == reversed[|values| - 1 - (|values| - 1 - k)];
      }
    }

    /** Removes from the left; a count beyond the length takes all there is, a negative one panics. */
    method LPop(listKey: Bytes, count: int) returns (popped: seq<Bytes>, panicked: bool)
      requires Valid()
      modifies `elements
      ensures panicked <==> count < 0 && listKey in old(elements)
      ensures panicked ==> unchanged(this)
      ensures !panicked ==>
        var es := L.ElementsOf(old(View()), listKey);
        var n := if count < 0 then 0 else Minimum(count, |es|);
        Valid() && popped == es[..n] && L.PopStep(old(View()), View(), listKey, n)
    {
      hide L.Valid;
      ghost var before := View();
      if listKey !in elements {
        L.PopKeepsValid(before, before, listKey, 0);
        return [], false;
      }
      var n := if count >= |elements[listKey]| then |elements[listKey]| else count;
      popped := [];
      var i := 0;
      while i < n
        invariant 0 <= i && (n >= 0 ==> i <= n && popped == elements[listKey][..i])
        invariant unchanged(this)
      {
        popped := popped + [elements[listKey][i]];
        i := i + 1;
      }
      if n < 0 {
        return [], true;
      }
      elements := elements[listKey := elements[listKey][n..]];
      panicked := false;
      L.PopKeepsValid(before, View(), listKey, n);
    }

    /** The first locked region of BLPOP: take the head, or make a channel and join the line. */
    method BLPopEnter(listKey: Bytes) returns (value: Maybe, ch: nat)
      requires Valid()
      modifies this
      ensures Valid()
      ensures var es := L.ElementsOf(old(View()), listKey);
        if es != [] then value == Just(es[0]) && L.PopStep(old(View()), View(), listKey, 1)
        else value == Nothing && ch == old(channels) && L.BlockStep(old(View()), View(), listKey)
    {
      hide L.Valid;
      ghost var before := View();
      ch := channels;
      if listKey in elements && |elements[listKey]| > 0 {
        var list := elements[listKey];
        value := Just(list[0]);
        elements := elements[listKey := list[1..]];
        L.PopKeepsValid(before, View(), listKey, 1);
        return;
      }
      channels := channels + 1;
      var waiters := if listKey in blockingClients then blockingClients[listKey] else [];
      blockingClients := blockingClients[listKey := waiters + [ch]];
      value := Nothing;
      L.BlockKeepsValid(before, View(), listKey);
    }

    /** The receive that never waits: the select once the channel is filled, and the last drain. */
    method TryReceive(ch: nat) returns (value: Maybe)
      requires Valid()
      modifies `slots
      ensures Valid() && L.TakeStep(old(View()), View(), ch)
      ensures value == if ch in old(slots) then Just(old(slots)[ch]) else Nothing
    {
      hide L.Valid;
      ghost var before := View();
      if ch in slots {
        value := Just(slots[ch]);
        slots := slots - {ch};
      } else {
        value := Nothing;
        assert slots - {ch} == slots;
      }
      L.TakeKeepsValid(before, View(), ch);
    }

    /** The second locked region of BLPOP, after the timer: off the line. */
    method RemoveWaiter(listKey: Bytes, target: nat)
      requires Valid()
      modifies `blockingClients
      ensures Valid() && L.LeaveStep(old(View()), View(), listKey, target)
    {
      hide L.Valid, RemoveFirst;
      ghost var before := View();
      var waiters := if listKey in blockingClients then blockingClients[listKey] else [];
      var i := 0;
      while i < |waiters| && waiters[i] != target
        invariant i <= |waiters| && forall j :: 0 <= j < i ==> waiters[j] != target
      {
        i := i + 1;
      }
      RemoveFirstAt(waiters, target, i);
      if i < |waiters| {
        blockingClients := blockingClients[listKey := waiters[..i] + waiters[i + 1..]];
      }
      if listKey !in blockingClients || |blockingClients[listKey]| == 0 {
        blockingClients := blockingClients - {listKey};
      }
      L.LeaveKeepsValid(before, View(), listKey, target);
    }
  }
}
