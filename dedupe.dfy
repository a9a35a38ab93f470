/**
  Order-preserving de-duplication by document id, as both download scripts
  write it: walk the list once, keep an item when its id is present and not yet
  in `seen`, then add the id to `seen`.

  `keys[i]` is the id of `items[i]` (`None` where no id could be extracted).
 */
module Dedupe {
  import opened Wrappers

  /** Index `k` holds the first occurrence of a present id. */
  predicate IsFirst(keys: seq<Option<string>>, k: int)
    requires 0 <= k < |keys|
  {
    keys[k].Some? && forall j :: 0 <= j < k ==> keys[j] != keys[k]
  }

  /** The indices, in increasing order, that the loop keeps from the first `n` items. */
  function Kept(keys: seq<Option<string>>, n: nat): (r: seq<nat>)
    requires n <= |keys|
    ensures forall i :: 0 <= i < |r| ==> r[i] < n
    ensures forall i, j :: 0 <= i < j < |r| ==> r[i] < r[j]
  {
    if n == 0 then [] else Kept(keys, n - 1) + (if IsFirst(keys, n - 1) then [n - 1] else [])
  }

  /** The ids present among the first `n` keys: the loop's `seen` set. */
  function Seen(keys: seq<Option<string>>, n: nat): set<string>
    requires n <= |keys|
  {
    if n == 0 then {} else Seen(keys, n - 1) + (if keys[n - 1].Some? then {keys[n - 1].value} else {})
  }

  function Select<T>(items: seq<T>, idx: seq<nat>): (r: seq<T>)
    requires forall i :: 0 <= i < |idx| ==> idx[i] < |items|
    ensures |r| == |idx|
    ensures forall i :: 0 <= i < |idx| ==> r[i] == items[idx[i]]
  {
    seq(|idx|, i requires 0 <= i < |idx| => items[idx[i]])
  }

  /** The de-duplicated list. */
  function UniqueBy<T>(items: seq<T>, keys: seq<Option<string>>): seq<T>
    requires |keys| == |items|
  {
    Select(items, Kept(keys, |keys|))
  }

  /** A kept index is exactly the first occurrence of a present id. */
  lemma {:induction false} KeptIff(keys: seq<Option<string>>, n: nat, k: int)
    requires n <= |keys|
    ensures k in Kept(keys, n) <==> 0 <= k < n && IsFirst(keys, k)
  {
    if n > 0 {
      KeptIff(keys, n - 1, k);
    }
  }

  /** `seen` holds exactly the ids met so far. */
  lemma {:induction false} SeenIff(keys: seq<Option<string>>, n: nat, v: string)
    requires n <= |keys|
    ensures v in Seen(keys, n) <==> exists j :: 0 <= j < n && keys[j] == Some(v)
  {
    if n > 0 {
      SeenIff(keys, n - 1, v);
      if keys[n - 1] == Some(v) {
        assert keys[n - 1] == Some(v);
      }
    }
  }

  /** The loop's test `id and id not in seen` is the first-occurrence test. */
  lemma FirstIffUnseen(keys: seq<Option<string>>, n: nat)
    requires n < |keys|
    ensures IsFirst(keys, n) <==> keys[n].Some? && keys[n].value !in Seen(keys, n)
  {
    if keys[n].Some? {
      SeenIff(keys, n, keys[n].value);
    }
  }

  /** The kept items have present, pairwise distinct ids. */
  lemma KeptDistinct(keys: seq<Option<string>>)
    ensures forall i :: 0 <= i < |Kept(keys, |keys|)| ==> keys[Kept(keys, |keys|)[i]].Some?
    ensures forall i, j :: 0 <= i < j < |Kept(keys, |keys|)| ==>
      keys[Kept(keys, |keys|)[i]] != keys[Kept(keys, |keys|)[j]]
  {
    KeptAreFirst(keys);
  }

  /** Each kept index is a first occurrence. */
  lemma KeptAreFirst(keys: seq<Option<string>>)
    ensures forall i :: 0 <= i < |Kept(keys, |keys|)| ==> IsFirst(keys, Kept(keys, |keys|)[i])
  {
    forall i | 0 <= i < |Kept(keys, |keys|)|
      ensures IsFirst(keys, Kept(keys, |keys|)[i])
    {
      KeptIff(keys, |keys|, Kept(keys, |keys|)[i]);
    }
  }

  /** Every present id is the id of some kept item. */
  lemma {:induction false} KeptCovers(keys: seq<Option<string>>, j: nat) returns (i: nat)
    requires j < |keys| && keys[j].Some?
    ensures i < |Kept(keys, |keys|)| && keys[Kept(keys, |keys|)[i]] == keys[j]
    decreases j
  {
    var r := Kept(keys, |keys|);
    if IsFirst(keys, j) {
      KeptIff(keys, |keys|, j);
      i :| 0 <= i < |r| && r[i] == j;
    } else {
      var j' :| 0 <= j' < j && keys[j'] == keys[j];
      i := KeptCovers(keys, j');
    }
  }

  /** Of the items sharing an id, the kept one comes first. */
  lemma KeptIsEarliest(keys: seq<Option<string>>, i: nat, j: nat)
    requires i < |Kept(keys, |keys|)| && j < |keys|
    requires keys[j] == keys[Kept(keys, |keys|)[i]]
    ensures Kept(keys, |keys|)[i] <= j
  {
    KeptIff(keys, |keys|, Kept(keys, |keys|)[i]);
  }

  /**
    The de-duplicated list is the first item of each present id, in order:
    `idx` picks them out of `items` in increasing order.
   */
  lemma UniqueByFirstInOrder<T>(items: seq<T>, keys: seq<Option<string>>) returns (idx: seq<nat>)
    requires |keys| == |items|
    ensures |idx| == |UniqueBy(items, keys)|
    ensures forall k :: 0 <= k < |idx| ==> idx[k] < |items| && UniqueBy(items, keys)[k] == items[idx[k]]
    ensures forall k, l :: 0 <= k < l < |idx| ==> idx[k] < idx[l]
    ensures forall k :: 0 <= k < |idx| ==> IsFirst(keys, idx[k])
  {
    idx := Kept(keys, |keys|);
    KeptAreFirst(keys);
  }

  /** The loop shared by both scripts, proved against `UniqueBy`. */
  method KeepFirst<T>(items: seq<T>, keys: seq<Option<string>>) returns (unique: seq<T>)
    requires |keys| == |items|
    ensures unique == UniqueBy(items, keys)
  {
    var seen: set<string> := {};
    unique := [];
    for i := 0 to |items|
      invariant seen == Seen(keys, i)
      invariant unique == Select(items, Kept(keys, i))
    {
      FirstIffUnseen(keys, i);
      if keys[i].Some? && keys[i].value !in seen {
        seen := seen + {keys[i].value};
        unique := unique + [items[i]];
      }
    }
  }
}
