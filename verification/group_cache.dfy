/** The group member cache of `group.go`. */
module GroupCache {
  import opened Bytes

  type JID = Bytes

  predicate Distinct(members: seq<JID>) {
    forall i, j :: 0 <= i < j < |members| ==> members[i] != members[j]
  }

  function Elements(members: seq<JID>): set<JID> { set m | m in members }

  class Cache {
    var members: map<JID, seq<JID>>

    /** The groups' lists never hold a member twice. */
    ghost predicate Valid()
      reads this
    {
      forall g :: g in members ==> Distinct(members[g])
    }

    constructor ()
      ensures Valid() && members == map[]
    {
      members := map[];
    }

    /** The cached members become exactly (old and joined) without those who left, whatever repetitions the event
        holds; other groups, and a group that is not cached, stay as they are. */
    method UpdateGroupParticipantCache(group: JID, join: seq<JID>, leave: seq<JID>)
      requires Valid()
      modifies this
      ensures Valid() && members.Keys == old(members).Keys
      ensures group in members ==>
        Elements(members[group]) == Elements(old(members)[group]) + Elements(join) - Elements(leave)
      ensures forall g :: g in members && g != group ==> members[g] == old(members)[g]
    {
      if |join| == 0 && |leave| == 0 {
        return;
      }
      if group !in members {
        return;
      }
      var cached := members[group];
      var i := 0;
      while i < |join|
        invariant 0 <= i <= |join| && Distinct(cached) && members == old(members)
        invariant Elements(cached) == Elements(members[group]) + Elements(join[..i])
      {
        var jid := join[i];
        assert Elements(join[..i + 1]) == Elements(join[..i]) + {jid} by {
          assert join[..i + 1] == join[..i] + [jid];
        }
        var found := FindMember(cached, jid);
        if found.None? {
          assert Elements(cached + [jid]) == Elements(cached) + {jid};
          cached := cached + [jid];
        }
        i := i + 1;
      }
      assert join[..i] == join;
      ghost var joined := cached;
      i := 0;
      while i < |leave|
        invariant 0 <= i <= |leave| && Distinct(cached) && members == old(members)
        invariant Elements(cached) == Elements(joined) - Elements(leave[..i])
      {
        var jid := leave[i];
        assert Elements(leave[..i + 1]) == Elements(leave[..i]) + {jid} by {
          assert leave[..i + 1] == leave[..i] + [jid];
        }
        var found := FindMember(cached, jid);
        if found.Some? {
          SwapRemoved(cached, found.value);
          cached := cached[found.value := cached[|cached| - 1]];
          cached := cached[..|cached| - 1];
        }
        i := i + 1;
      }
      assert leave[..i] == leave;
      members := members[group := cached];
    }
  }

  /** The first position of a member. */
  method FindMember(members: seq<JID>, jid: JID) returns (i: Option<nat>)
    ensures i.Some? ==> i.value < |members| && members[i.value] == jid && jid !in members[..i.value]
    ensures i.None? <==> jid !in members
  {
    var k := 0;
    while k < |members|
      invariant 0 <= k <= |members| && jid !in members[..k]
    {
      if members[k] == jid {
        return Some(k);
      }
      assert members[..k + 1] == members[..k] + [members[k]];
      k := k + 1;
    }
    assert members[..k] == members;
    return None;
  }

  /** The list after a member was overwritten with the last one and the list was shortened. */
  function Swapped(members: seq<JID>, i: nat): seq<JID>
    requires i < |members|
  {
    members[i := members[|members| - 1]][..|members| - 1]
  }

  /** This removes just that member from a list without repetitions. */
  lemma SwapRemoved(members: seq<JID>, i: nat)
    requires Distinct(members) && i < |members|
    ensures Distinct(Swapped(members, i)) && Elements(Swapped(members, i)) == Elements(members) - {members[i]}
  {
    var last, s := |members| - 1, Swapped(members, i);
    forall m ensures m in Elements(s) <==> m in Elements(members) && m != members[i] {
      if m in members && m != members[i] {
        var k :| 0 <= k < |members| && members[k] == m;
        assert s[if k == last then i else k] == m;
      }
    }
  }

  /** In general it removes one occurrence: from a list with repetitions the member would not be gone, so the cache
      depends on never holding one twice. */
  lemma SwapRemovesOneOccurrence(members: seq<JID>, i: nat)
    requires i < |members|
    ensures multiset(Swapped(members, i)) == multiset(members) - multiset{members[i]}
    ensures members[i] in Swapped(members, i) <==> multiset(members)[members[i]] > 1
  {
    hide Swapped;
    SwapCounts(members, i);
    forall m ensures multiset(Swapped(members, i))[m] == (multiset(members) - multiset{members[i]})[m] {
    }
  }

  lemma SwapCounts(members: seq<JID>, i: nat)
    requires i < |members|
    ensures forall m ::
      multiset(Swapped(members, i))[m] == multiset(members)[m] - if m == members[i] then 1 else 0
  {
    var gone, put := members[i], members[|members| - 1];
    var swapped := members[i := put];
    assert multiset(swapped) == multiset(members) - multiset{gone} + multiset{put};
    assert swapped == Swapped(members, i) + [put];
    assert multiset(swapped) == multiset(Swapped(members, i)) + multiset{put};
    forall m
      ensures multiset(Swapped(members, i))[m] == multiset(members)[m] - if m == gone then 1 else 0
    {
      assert multiset(swapped)[m] == multiset(members)[m] - (if m == gone then 1 else 0) + if m == put then 1 else 0;
    }
  }
}
