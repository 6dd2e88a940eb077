/** The line of channels waiting on a key, and a channel's leaving it. */
module WaiterLine {

  function RemoveFirst(cs: seq<nat>, c: nat): seq<nat>
  {
    if |cs| == 0 then [] else if cs[0] == c then cs[1..] else [cs[0]] + RemoveFirst(cs[1..], c)
  }

  lemma {:induction false} RemoveFirstKeeps(cs: seq<nat>, c: nat, d: nat)
    ensures d in RemoveFirst(cs, c) ==> d in cs
    ensures d != c && d in cs ==> d in RemoveFirst(cs, c)
  {
    if |cs| > 0 && cs[0] != c {
      RemoveFirstKeeps(cs[1..], c, d);
    }
  }

  lemma {:induction false} RemoveFirstAt(cs: seq<nat>, c: nat, j: nat)
    requires j <= |cs| && forall i :: 0 <= i < j ==> cs[i] != c
    requires j < |cs| ==> cs[j] == c
    ensures RemoveFirst(cs, c) == if j < |cs| then cs[..j] + cs[j + 1..] else cs
  {
    if j > 0 {
      RemoveFirstAt(cs[1..], c, j - 1);
      if j < |cs| {
        assert [cs[0]] + (cs[1..][..j - 1] + cs[1..][j..]) == cs[..j] + cs[j + 1..];
      }
    }
  }
}
