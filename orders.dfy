/** Facts about iteration orders given as lists of distinct positions. */
module Orders {
  import opened KomoranTypes

  /** A list of distinct positions below n has at most n elements. */
  lemma {:induction false} Pigeonhole(order: seq<nat>, n: nat)
    requires forall k :: 0 <= k < |order| ==> order[k] < n
    requires forall j, k :: 0 <= j < k < |order| ==> order[j] != order[k]
    ensures |order| <= n
  {
    if |order| > 0 {
      assert order[0] < n;
      if p :| 0 <= p < |order| && order[p] == n - 1 {
        var rest := order[..p] + order[p + 1..];
        assert forall j :: 0 <= j < |rest| ==> rest[j] == if j < p then order[j] else order[j + 1];
        Pigeonhole(rest, n - 1);
      } else {
        Pigeonhole(order, n - 1);
      }
    }
  }

  /** A permutation of the positions below n visits each of them. */
  lemma PermutationCovers(order: seq<nat>, n: nat, v: nat)
    requires IsPermutation(order, n) && v < n
    ensures v in order
  {
    if v !in order {
      var squeezed := seq(|order|, k requires 0 <= k < |order| =>
                            if order[k] > v then order[k] - 1 else order[k]);
      Pigeonhole(squeezed, n - 1);
    }
  }

  /** Removing the position of the largest element leaves a permutation of the rest. */
  lemma RemoveLast(order: seq<nat>, n: nat, p: nat)
    requires IsPermutation(order, n) && n > 0
    requires p < |order| && order[p] == n - 1
    ensures IsPermutation(order[..p] + order[p + 1..], n - 1)
  {
    var rest := order[..p] + order[p + 1..];
    assert forall j :: 0 <= j < |rest| ==> rest[j] == if j < p then order[j] else order[j + 1];
  }

  /** Dropping the last key of an enumeration enumerates the other keys. */
  lemma EnumerationFront(order: seq<string>, keys: set<string>)
    requires IsEnumeration(order, keys) && order != []
    ensures IsEnumeration(order[..|order| - 1], keys - {order[|order| - 1]})
    ensures order[|order| - 1] in keys
  {
    var front := order[..|order| - 1];
    forall key | key in keys - {order[|order| - 1]}
      ensures key in front
    {
      var j :| 0 <= j < |order| && order[j] == key;
      assert front[j] == key;
    }
  }
}
