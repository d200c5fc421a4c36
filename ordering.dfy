/** What each linked structure does to its key sequence (read from the head):
    the sorted List, the first-in-first-out Queue and the last-in-first-out
    Stack, and what a batch of inserts builds. */
module Ordering {
  import opened SortedKeys

  /** The three linked structures; Queue and Stack extend List in the
      original class hierarchy and override its insert and remove. */
  datatype Variant = ListVariant | QueueVariant | StackVariant

  /** Keys after inserting `k`: the List splices it in at its sorted position,
      the Queue appends it at the tail, the Stack pushes it at the head. */
  function InsertedKeys(v: Variant, ks: seq<int>, k: int): seq<int>
  {
    match v
    case ListVariant => Spliced(ks, InsertPos(ks, k), k)
    case QueueVariant => ks + [k]
    case StackVariant => [k] + ks
  }

  /** Keys after a remove of `k`: the List unlinks the first node holding `k`
      if there is one; the Queue and the Stack ignore `k` and take the head. */
  function RemovedKeys(v: Variant, ks: seq<int>, k: int): seq<int>
  {
    match v
    case ListVariant => if k in ks then Removed(ks, IndexOf(ks, k)) else ks
    case _ => if ks == [] then [] else ks[1..]
  }

  /** Keys after inserting every key of `xs` in turn, as a batch build does. */
  function Replay(v: Variant, ks: seq<int>, xs: seq<int>): seq<int>
    decreases |xs|
  {
    if xs == [] then ks else Replay(v, InsertedKeys(v, ks, xs[0]), xs[1..])
  }

  function Reverse(xs: seq<int>): (r: seq<int>)
    ensures |r| == |xs|
    ensures forall i :: 0 <= i < |xs| ==> r[i] == xs[|xs| - 1 - i]
  {
    if xs == [] then [] else Reverse(xs[1..]) + [xs[0]]
  }

  /** Every insert adds exactly one copy of its key; a remove that changes the
      keys takes away exactly one. */
  lemma InsertAddsOne(v: Variant, ks: seq<int>, k: int)
    ensures multiset(InsertedKeys(v, ks, k)) == multiset(ks) + multiset{k}
  {
    if v == ListVariant {
      var p := InsertPos(ks, k);
      assert ks == ks[..p] + ks[p..];
    }
  }

  lemma RemoveTakesOne(v: Variant, ks: seq<int>, k: int)
    ensures RemovedKeys(v, ks, k) == ks <==> ks == [] || (v == ListVariant && k !in ks)
    ensures RemovedKeys(v, ks, k) != ks ==>
      exists i :: 0 <= i < |ks| && RemovedKeys(v, ks, k) == Removed(ks, i)
        && (v == ListVariant ==> ks[i] == k && k !in ks[..i]) && (v != ListVariant ==> i == 0)
  {
    if ks != [] {
      if v == ListVariant && k in ks {
        var i := IndexOf(ks, k);
        assert |RemovedKeys(v, ks, k)| < |ks|;
      } else if v != ListVariant {
        assert RemovedKeys(v, ks, k) == Removed(ks, 0);
      }
    }
  }

  /** Queue: the keys come out in the order they went in. */
  lemma {:induction false} QueueReplayIsFifo(ks: seq<int>, xs: seq<int>)
    ensures Replay(QueueVariant, ks, xs) == ks + xs
    decreases |xs|
  {
    if xs != [] {
      QueueReplayIsFifo(ks + [xs[0]], xs[1..]);
      assert ks + [xs[0]] + xs[1..] == ks + xs;
    }
  }

  /** Stack: the last key pushed is the first at the head. */
  lemma {:induction false} StackReplayIsLifo(ks: seq<int>, xs: seq<int>)
    ensures Replay(StackVariant, ks, xs) == Reverse(xs) + ks
    decreases |xs|
  {
    if xs != [] {
      StackReplayIsLifo([xs[0]] + ks, xs[1..]);
      assert Reverse(xs) == Reverse(xs[1..]) + [xs[0]];
    }
  }

  /** Queue: after any batch of inserts into an empty queue, the head holds
      the first key inserted and a remove takes exactly that one away. */
  lemma QueueRemovesOldest(xs: seq<int>, k: int)
    requires xs != []
    ensures var ks := Replay(QueueVariant, [], xs);
      |ks| == |xs| && ks[0] == xs[0] && RemovedKeys(QueueVariant, ks, k) == xs[1..]
  {
    QueueReplayIsFifo([], xs);
    assert [] + xs == xs;
  }

  /** Stack: after any batch of pushes onto an empty stack, the head holds
      the last key pushed and a pop leaves the earlier pushes, newest first. */
  lemma StackRemovesNewest(xs: seq<int>, k: int)
    requires xs != []
    ensures var ks := Replay(StackVariant, [], xs);
      |ks| == |xs| && ks[0] == xs[|xs| - 1] && RemovedKeys(StackVariant, ks, k) == Reverse(xs[..|xs| - 1])
  {
    StackReplayIsLifo([], xs);
    assert Reverse(xs) + [] == Reverse(xs);
    assert Reverse(xs)[1..] == Reverse(xs[..|xs| - 1]);
  }

  /** List: any batch of inserts into a sorted list leaves it sorted and
      holding exactly the old keys plus the inserted ones. */
  lemma {:induction false} ListReplayIsSorted(ks: seq<int>, xs: seq<int>)
    requires Sorted(ks)
    ensures Sorted(Replay(ListVariant, ks, xs))
    ensures multiset(Replay(ListVariant, ks, xs)) == multiset(ks) + multiset(xs)
    decreases |xs|
  {
    if xs != [] {
      InsertKeepsSorted(ks, xs[0]);
      ListReplayIsSorted(InsertedKeys(ListVariant, ks, xs[0]), xs[1..]);
      assert xs == [xs[0]] + xs[1..];
    }
  }

  /** Removing the key just inserted restores the keys of a List (when it was
      sorted) and of a Stack; a non-empty Queue instead gives up its oldest
      key and keeps the new one at the tail. */
  lemma InsertThenRemoveRestores(v: Variant, ks: seq<int>, k: int)
    requires v == ListVariant ==> Sorted(ks)
    ensures v != QueueVariant ==> RemovedKeys(v, InsertedKeys(v, ks, k), k) == ks
    ensures v == QueueVariant ==> RemovedKeys(v, InsertedKeys(v, ks, k), k) == if ks == [] then [] else ks[1..] + [k]
  {
    if v == ListVariant {
      InsertThenRemove(ks, k);
    }
  }
}
