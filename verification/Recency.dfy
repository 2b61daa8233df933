/** Least-recently-used eviction by use counters, refined by a recency list. */
module Recency {

  type Id = nat

  /** `recency` lists the cached ids from the least to the most recently used. */
  ghost predicate Agrees(used: map<Id, nat>, recency: seq<Id>, counter: nat) {
    && (forall id :: id in used <==> id in recency)
    && (forall i, j :: 0 <= i < j < |recency| ==> recency[i] != recency[j])
    && (forall i, j :: 0 <= i < j < |recency| && recency[i] in used && recency[j] in used ==>
          used[recency[i]] < used[recency[j]])
    && (forall id :: id in used ==> 0 < used[id] <= counter)
  }

  function Remove(recency: seq<Id>, id: Id): seq<Id> {
    if recency == [] then []
    else (if recency[0] == id then [] else [recency[0]]) + Remove(recency[1..], id)
  }

  /** One lookup: the id moves to the end; a new id in a full cache first drops the oldest. An
      id that could not be stored is gone, and so is the one it displaced. */
  function Request(recency: seq<Id>, id: Id, capacity: nat, stored: bool): seq<Id> {
    var others := Remove(recency, id);
    var room := if id !in recency && |others| >= capacity && others != [] then others[1..] else others;
    room + if stored then [id] else []
  }

  lemma {:induction false} RemoveIs(recency: seq<Id>, id: Id)
    ensures forall x :: x in Remove(recency, id) <==> x in recency && x != id
    ensures id !in recency ==> Remove(recency, id) == recency
    ensures |Remove(recency, id)| <= |recency|
  {
    if recency != [] {
      RemoveIs(recency[1..], id);
      assert recency == [recency[0]] + recency[1..];
    }
  }

  lemma {:induction false} RemoveOrder(recency: seq<Id>, id: Id, used: map<Id, nat>)
    requires forall i, j :: 0 <= i < j < |recency| ==> recency[i] != recency[j]
    requires forall i :: 0 <= i < |recency| ==> recency[i] in used
    requires forall i, j :: 0 <= i < j < |recency| ==> used[recency[i]] < used[recency[j]]
    ensures var r := Remove(recency, id);
      && (forall i, j :: 0 <= i < j < |r| ==> r[i] != r[j])
      && (forall i :: 0 <= i < |r| ==> r[i] in used)
      && (forall i, j :: 0 <= i < j < |r| ==> used[r[i]] < used[r[j]])
  {
    if recency != [] {
      var tail := recency[1..];
      RemoveOrder(tail, id, used);
      RemoveIs(tail, id);
      forall x | x in Remove(tail, id) ensures x != recency[0] && used[recency[0]] < used[x] {
        var k :| 0 <= k < |tail| && tail[k] == x;
        assert recency[k + 1] == x;
      }
    }
  }

  lemma AgreesRemove(used: map<Id, nat>, recency: seq<Id>, counter: nat, id: Id)
    requires Agrees(used, recency, counter)
    ensures Agrees(used - {id}, Remove(recency, id), counter)
  {
    RemoveIs(recency, id);
    assert forall i :: 0 <= i < |recency| ==> recency[i] in recency;
    RemoveOrder(recency, id, used);
  }

  /** A use gives the id a counter above every other. */
  lemma AgreesUse(used: map<Id, nat>, recency: seq<Id>, counter: nat, id: Id)
    requires Agrees(used, recency, counter) && id !in used
    ensures Agrees(used[id := counter + 1], recency + [id], counter + 1)
  {
    assert forall i :: 0 <= i < |recency| ==> recency[i] in used && recency[i] != id;
  }

  /** The entry with the smallest counter is the front of the list, so the victim does not depend
      on the order in which the hash map is walked. */
  lemma OldestIsFirst(used: map<Id, nat>, recency: seq<Id>, counter: nat, oldest: Id)
    requires Agrees(used, recency, counter) && oldest in used
    requires forall id :: id in used ==> used[oldest] <= used[id]
    ensures recency != [] && oldest == recency[0]
  {
    var k :| 0 <= k < |recency| && recency[k] == oldest;
    assert recency[0] in used;
  }

  lemma {:induction false} AgreesSize(used: map<Id, nat>, recency: seq<Id>, counter: nat)
    requires Agrees(used, recency, counter)
    ensures |used| == |recency|
    decreases |recency|
  {
    if recency == [] {
      assert used.Keys == {};
    } else {
      var id := recency[0];
      assert id in used;
      AgreesRemove(used, recency, counter, id);
      RemoveFirst(recency);
      AgreesSize(used - {id}, recency[1..], counter);
      assert used.Keys == (used - {id}).Keys + {id};
    }
  }

  lemma RemoveFirst(recency: seq<Id>)
    requires recency != []
    requires forall i, j :: 0 <= i < j < |recency| ==> recency[i] != recency[j]
    ensures Remove(recency, recency[0]) == recency[1..]
  {
    RemoveIs(recency[1..], recency[0]);
  }

  // ----- the list is the truncated history -----

  /** Serving a history in which every request could be stored. */
  function Serve(history: seq<Id>, capacity: nat): seq<Id> {
    if history == [] then []
    else Request(Serve(history[..|history| - 1], capacity), history[|history| - 1], capacity, true)
  }

  /** All ids of a history, by last use. */
  function ByLastUse(history: seq<Id>): seq<Id> {
    if history == [] then []
    else
      var id := history[|history| - 1];
      Remove(ByLastUse(history[..|history| - 1]), id) + [id]
  }

  function Last(s: seq<Id>, n: nat): seq<Id> {
    if |s| <= n then s else s[|s| - n..]
  }

  ghost predicate Distinct(s: seq<Id>) {
    forall i, j :: 0 <= i < j < |s| ==> s[i] != s[j]
  }

  lemma {:induction false} RemoveConcat(a: seq<Id>, b: seq<Id>, id: Id)
    ensures Remove(a + b, id) == Remove(a, id) + Remove(b, id)
  {
    if a == [] {
      assert a + b == b;
    } else {
      assert (a + b)[1..] == a[1..] + b && (a + b)[0] == a[0];
      RemoveConcat(a[1..], b, id);
      var head := if a[0] == id then [] else [a[0]];
      assert head + (Remove(a[1..], id) + Remove(b, id)) == head + Remove(a[1..], id) + Remove(b, id);
    }
  }

  lemma {:induction false} RemoveDistinct(s: seq<Id>, id: Id)
    requires Distinct(s)
    ensures Distinct(Remove(s, id))
    ensures |Remove(s, id)| == |s| - if id in s then 1 else 0
  {
    if s != [] {
      RemoveDistinct(s[1..], id);
      RemoveIs(s[1..], id);
      assert s == [s[0]] + s[1..];
      assert s[0] !in s[1..];
    }
  }

  lemma {:induction false} ByLastUseDistinct(history: seq<Id>)
    ensures Distinct(ByLastUse(history))
  {
    if history != [] {
      var before, id := history[..|history| - 1], history[|history| - 1];
      ByLastUseDistinct(before);
      RemoveDistinct(ByLastUse(before), id);
      RemoveIs(ByLastUse(before), id);
    }
  }

  lemma LastSuffix(a: seq<Id>, b: seq<Id>, n: nat)
    requires |b| == n || (a == [] && |b| <= n)
    ensures Last(a + b, n) == b
  {
    if a == [] { assert a + b == b; }
  }

  lemma DistinctParts(a: seq<Id>, b: seq<Id>)
    requires Distinct(a + b)
    ensures Distinct(a) && Distinct(b) && forall x :: x in b ==> x !in a
  {
    forall i, j | 0 <= i < j < |b| ensures b[i] != b[j] {
      assert (a + b)[|a| + i] == b[i] && (a + b)[|a| + j] == b[j];
    }
    forall x | x in b ensures x !in a {
      var j :| 0 <= j < |b| && b[j] == x;
      assert (a + b)[|a| + j] == x;
      assert forall i :: 0 <= i < |a| ==> (a + b)[i] == a[i] != x;
    }
    forall i, j | 0 <= i < j < |a| ensures a[i] != a[j] {
      assert (a + b)[i] == a[i] && (a + b)[j] == a[j];
    }
  }

  /** The id is in the kept part: it only moves to the end. */
  lemma RequestKept(lost: seq<Id>, kept: seq<Id>, id: Id, capacity: nat)
    requires Distinct(lost + kept) && id in kept && |kept| <= capacity && (lost == [] || |kept| == capacity)
    ensures Request(kept, id, capacity, true) == Last(Remove(lost + kept, id) + [id], capacity)
  {
    DistinctParts(lost, kept);
    RemoveConcat(lost, kept, id);
    RemoveIs(lost, id);
    RemoveDistinct(kept, id);
    assert lost + Remove(kept, id) + [id] == lost + (Remove(kept, id) + [id]);
    LastSuffix(lost, Remove(kept, id) + [id], capacity);
  }

  /** The id is not kept: it displaces the oldest kept one, if the cache is full. */
  lemma RequestDisplaces(lost: seq<Id>, kept: seq<Id>, id: Id, capacity: nat)
    requires id !in kept && |kept| <= capacity && capacity > 0 && (lost == [] || |kept| == capacity)
    ensures Request(kept, id, capacity, true) == Last(Remove(lost + kept, id) + [id], capacity)
  {
    RemoveConcat(lost, kept, id);
    RemoveIs(kept, id);
    var gone := Remove(lost, id);
    if |kept| < capacity {
      assert gone + kept + [id] == [] + (kept + [id]);
      LastSuffix([], kept + [id], capacity);
    } else {
      assert gone + kept + [id] == (gone + [kept[0]]) + (kept[1..] + [id]);
      LastSuffix(gone + [kept[0]], kept[1..] + [id], capacity);
    }
  }

  /** One request on the truncated list is the truncation of the request on the full list. */
  lemma RequestTruncates(all: seq<Id>, id: Id, capacity: nat)
    requires Distinct(all) && capacity > 0
    ensures Request(Last(all, capacity), id, capacity, true) == Last(Remove(all, id) + [id], capacity)
  {
    hide Request, Remove, Distinct;
    var kept := Last(all, capacity);
    var lost := all[..|all| - |kept|];
    assert all == lost + kept;
    if id in kept {
      RequestKept(lost, kept, id, capacity);
    } else {
      RequestDisplaces(lost, kept, id, capacity);
    }
  }

  /** A cache of any capacity holds exactly the most recently used ids of its history. */
  lemma {:induction false} ServeIsTruncatedHistory(history: seq<Id>, capacity: nat)
    requires capacity > 0
    ensures Serve(history, capacity) == Last(ByLastUse(history), capacity)
  {
    if history != [] {
      var before := history[..|history| - 1];
      ServeIsTruncatedHistory(before, capacity);
      ByLastUseDistinct(before);
      RequestTruncates(ByLastUse(before), history[|history| - 1], capacity);
    }
  }
}
