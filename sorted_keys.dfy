/** Key-sequence view of the linked structures: what the insert and remove
    walks of a sorted list do to the sequence of keys read from the head. */
module SortedKeys {

  predicate Sorted(ks: seq<int>) {
    forall i, j :: 0 <= i < j < |ks| ==> ks[i] <= ks[j]
  }

  /** `k` placed at position `p` of `ks`. */
  function Spliced(ks: seq<int>, p: nat, k: int): seq<int>
    requires p <= |ks|
  {
    ks[..p] + [k] + ks[p..]
  }

  lemma SplicedAt(ks: seq<int>, p: nat, k: int)
    requires p <= |ks|
    ensures |Spliced(ks, p, k)| == |ks| + 1
    ensures forall j :: 0 <= j <= |ks| ==>
      Spliced(ks, p, k)[j] == if j < p then ks[j] else if j == p then k else ks[j - 1]
  {
  }

  /** `ks` without its entry at position `i`. */
  function Removed(ks: seq<int>, i: nat): seq<int>
    requires i < |ks|
  {
    ks[..i] + ks[i + 1..]
  }

  /** Where a walk that starts at position `from` and advances while the key
      there is below `k` comes to rest: the first position at or after `from`
      whose key is not below `k`, or the end. */
  function WalkBelow(ks: seq<int>, k: int, from: nat): (r: nat)
    requires from <= |ks|
    ensures from <= r <= |ks|
    ensures forall j :: from <= j < r ==> ks[j] < k
    ensures r < |ks| ==> k <= ks[r]
    decreases |ks| - from
  {
    if from == |ks| || k <= ks[from] then from else WalkBelow(ks, k, from + 1)
  }

  /** The position at which the sorted-list insert places a new key `k`: in
      front of the head when the list is empty or `k` is below the head's key,
      otherwise after the head and after every following key below `k`. */
  function InsertPos(ks: seq<int>, k: int): (p: nat)
    ensures p <= |ks|
    ensures p == 0 <==> ks == [] || k < ks[0]
    ensures forall j :: 0 < j < p ==> ks[j] < k
    ensures 0 < p < |ks| ==> k <= ks[p]
  {
    if ks == [] || k < ks[0] then 0 else WalkBelow(ks, k, 1)
  }

  /** Position of the first occurrence of `k` in `ks`. */
  function IndexOf(ks: seq<int>, k: int): (i: nat)
    requires k in ks
    ensures i < |ks| && ks[i] == k
    ensures k !in ks[..i]
  {
    if ks[0] == k then 0
    else
      var i := 1 + IndexOf(ks[1..], k);
      assert ks[..i] == [ks[0]] + ks[1..][..i - 1];
      i
  }

  /** A position holding `k` with no `k` before it is the first occurrence. */
  lemma IndexOfFirst(ks: seq<int>, k: int, j: nat)
    requires j < |ks| && ks[j] == k && k !in ks[..j]
    ensures IndexOf(ks, k) == j
  {
  }

  /** A sorted sequence that does not hold `k` before `j`, and whose key at
      `j` (if any) is above `k`, does not hold `k` at all. */
  lemma AbsentPastBound(ks: seq<int>, k: int, j: nat)
    requires Sorted(ks) && j <= |ks|
    requires forall t :: 0 <= t < j ==> ks[t] != k
    requires j == |ks| || k < ks[j]
    ensures k !in ks
  {
    assert ks == ks[..j] + ks[j..];
  }

  /** In a sorted sequence every key from `InsertPos` on is at least `k`,
      every key before it is at most `k`. */
  lemma InsertPosSeparates(ks: seq<int>, k: int)
    requires Sorted(ks)
    ensures forall j :: 0 <= j < InsertPos(ks, k) ==> ks[j] <= k
    ensures forall j :: InsertPos(ks, k) <= j < |ks| ==> k <= ks[j]
  {
    var p := InsertPos(ks, k);
    if 0 < p {
      assert ks[0] <= k;
    }
  }

  /** The sorted-list insert adds exactly one `k`, keeps every other key, and
      keeps the keys sorted. */
  lemma {:induction false} InsertKeepsSorted(ks: seq<int>, k: int)
    requires Sorted(ks)
    ensures var r := Spliced(ks, InsertPos(ks, k), k);
      Sorted(r) && |r| == |ks| + 1 && multiset(r) == multiset(ks) + multiset{k}
  {
    var p := InsertPos(ks, k);
    var r := Spliced(ks, p, k);
    SplicedIsSorted(ks, p, k);
    calc {
      multiset(r);
      multiset(ks[..p]) + multiset{k} + multiset(ks[p..]);
      { assert ks == ks[..p] + ks[p..]; }
      multiset(ks) + multiset{k};
    }
  }

  /** A key placed between the keys at most it and the keys at least it
      leaves a sorted sequence sorted. */
  lemma SplicedIsSorted(ks: seq<int>, p: nat, k: int)
    requires Sorted(ks) && p == InsertPos(ks, k)
    ensures Sorted(Spliced(ks, p, k))
  {
    var r := Spliced(ks, p, k);
    InsertPosSeparates(ks, k);
    SplicedAt(ks, p, k);
    forall a, b | 0 <= a < b < |r|
      ensures r[a] <= r[b]
    {
      if a < p && b > p {
        assert r[a] == ks[a] && r[b] == ks[b - 1];
      }
    }
  }

  /** Unlinking one node of a sorted list leaves the rest sorted and removes
      exactly that key. */
  lemma {:induction false} RemoveKeepsSorted(ks: seq<int>, i: nat)
    requires Sorted(ks) && i < |ks|
    ensures var r := Removed(ks, i);
      Sorted(r) && |r| + 1 == |ks| && multiset(r) == multiset(ks) - multiset{ks[i]}
  {
    var r := Removed(ks, i);
    assert forall j :: 0 <= j < |r| ==> r[j] == (if j < i then ks[j] else ks[j + 1]);
    assert ks == ks[..i] + [ks[i]] + ks[i + 1..];
  }

  /** Removing any one of a run of equal keys gives the same sequence. */
  lemma {:induction false} RemovedInRun(ks: seq<int>, i: nat, j: nat)
    requires i <= j < |ks|
    requires forall t :: i <= t <= j ==> ks[t] == ks[i]
    ensures Removed(ks, i) == Removed(ks, j)
  {
    var a, b := Removed(ks, i), Removed(ks, j);
    assert |a| == |b|;
    forall t | 0 <= t < |a|
      ensures a[t] == b[t]
    {
      if t < i {
      } else if t < j {
        assert a[t] == ks[t + 1] && b[t] == ks[t];
      } else {
      }
    }
  }

  /** Removing the entry just spliced in restores the original sequence. */
  lemma RemovedSpliced(ks: seq<int>, p: nat, k: int)
    requires p <= |ks|
    ensures Removed(Spliced(ks, p, k), p) == ks
  {
    var r := Spliced(ks, p, k);
    assert r[..p] == ks[..p] && r[p + 1..] == ks[p..];
  }

  /** Inserting a key into a sorted list and then removing that key gives the
      original key sequence back. */
  lemma {:induction false} InsertThenRemove(ks: seq<int>, k: int)
    requires Sorted(ks)
    ensures var r := Spliced(ks, InsertPos(ks, k), k);
      k in r && Removed(r, IndexOf(r, k)) == ks
  {
    var p := InsertPos(ks, k);
    var r := Spliced(ks, p, k);
    InsertKeepsSorted(ks, k);
    SplicedAt(ks, p, k);
    assert r[p] == k;
    var i := IndexOf(r, k);
    if p < i {
      assert false;
    }
    forall t | i <= t <= p
      ensures r[t] == r[i]
    {
      assert r[i] <= r[t] <= r[p];
    }
    RemovedInRun(r, i, p);
    RemovedSpliced(ks, p, k);
  }
}
