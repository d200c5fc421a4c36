/** The linked structures: a List kept sorted by key, a Queue that appends at
    a tail pointer and removes at the head, and a Stack that inserts and
    removes at the head. Each operation returns the nodes it visits, in the
    order it yields them, together with the value it returns. */
module Structures {
  import opened SortedKeys
  import opened Ordering
  import opened Elements
  import opened Playback

  datatype Option<T> = None | Some(value: T)

  /** The structure kinds the menu offers. */
  datatype StructureType = ListType | QueueType | StackType | VectorType | EmptyType

  /** The linked variant built for a structure kind, if any. */
  function VariantOf(t: StructureType): (v: Option<Variant>)
    ensures v.None? <==> t == VectorType || t == EmptyType
  {
    match t
    case ListType => Some(ListVariant)
    case QueueType => Some(QueueVariant)
    case StackType => Some(StackVariant)
    case _ => None
  }

  const DefaultSize: real := 75.0
  const DefaultColor: string := "rgb(0, 0, 0)"

  function Ascending(n: nat): (r: seq<int>)
    ensures |r| == n && forall i :: 0 <= i < n ==> r[i] == i
  {
    seq(n, i => i)
  }

  function Descending(n: nat): (r: seq<int>)
    ensures |r| == n && forall i :: 0 <= i < n ==> r[i] == n - 1 - i
  {
    seq(n, i => n - 1 - i)
  }

  /** The keys a batch build of `n` elements leaves, head first. */
  function BatchKeys(v: Variant, n: nat): seq<int> {
    if v == StackVariant then Descending(n) else Ascending(n)
  }

  /** Inserting `n` into a batch of `n` elements extends it to `n + 1`. */
  lemma BatchStep(v: Variant, n: nat)
    ensures InsertedKeys(v, BatchKeys(v, n), n) == BatchKeys(v, n + 1)
  {
    if v == ListVariant {
      var p := InsertPos(Ascending(n), n);
      assert p == n;
      assert Ascending(n)[..n] + [n] + Ascending(n)[n..] == Ascending(n + 1);
    } else if v == QueueVariant {
      assert Ascending(n) + [n] == Ascending(n + 1);
    } else {
      assert [n] + Descending(n) == Descending(n + 1);
    }
  }

  /** Replaying `xs` after `ks` is replaying `xs` minus its last key, then
      inserting that key. */
  lemma {:induction false} ReplaySnoc(v: Variant, ks: seq<int>, xs: seq<int>, x: int)
    ensures Replay(v, ks, xs + [x]) == InsertedKeys(v, Replay(v, ks, xs), x)
    decreases |xs|
  {
    if xs == [] {
      assert ([] + [x])[1..] == [];
    } else {
      assert (xs + [x])[1..] == xs[1..] + [x];
      ReplaySnoc(v, InsertedKeys(v, ks, xs[0]), xs[1..], x);
    }
  }

  /** A batch build of `n` elements replays the inserts of 0, 1, ..., n - 1. */
  lemma {:induction false} BatchIsReplay(v: Variant, n: nat)
    ensures Replay(v, [], Ascending(n)) == BatchKeys(v, n)
  {
    if n > 0 {
      BatchIsReplay(v, n - 1);
      assert Ascending(n) == Ascending(n - 1) + [n - 1];
      ReplaySnoc(v, [], Ascending(n - 1), n - 1);
      BatchStep(v, n - 1);
    }
  }

  /** Splicing a node into a sorted chain at the sorted position of its key
      keeps the chain sorted and gives the List's inserted keys. */
  lemma SortedSplice(ns: seq<Node>, p: nat, r: Node)
    requires Sorted(KeysOf(ns)) && p == InsertPos(KeysOf(ns), r.data)
    ensures p == 0 ==> ns[..p] + [r] + ns[p..] == [r] + ns
    ensures Sorted(KeysOf(ns[..p] + [r] + ns[p..]))
    ensures KeysOf(ns[..p] + [r] + ns[p..]) == InsertedKeys(ListVariant, KeysOf(ns), r.data)
  {
    KeysOfSpliced(ns, p, r);
    InsertKeepsSorted(KeysOf(ns), r.data);
    if p == 0 {
      assert ns[..0] + [r] + ns[0..] == [r] + ns;
    }
  }

  /** Unlinking the first node holding `k` from a sorted chain keeps it
      sorted and gives the List's removed keys. */
  lemma SortedRemove(ns: seq<Node>, j: nat)
    requires Sorted(KeysOf(ns)) && j < |ns| && ns[j].data !in KeysOf(ns)[..j]
    ensures j == 0 ==> ns[..j] + ns[j + 1..] == ns[1..]
    ensures Sorted(KeysOf(ns[..j] + ns[j + 1..]))
    ensures ns[j].data in KeysOf(ns) && j == IndexOf(KeysOf(ns), ns[j].data)
    ensures KeysOf(ns[..j] + ns[j + 1..]) == RemovedKeys(ListVariant, KeysOf(ns), ns[j].data)
  {
    IndexOfFirst(KeysOf(ns), ns[j].data, j);
    KeysOfRemoved(ns, j);
    RemoveKeepsSorted(KeysOf(ns), j);
    if j == 0 {
      assert ns[..0] + ns[1..] == ns[1..];
    }
  }

  /** A List, a Queue or a Stack, by `variant`. `nodes` is the chain reached
      from `head`; `last` is the Queue's tail pointer (null for the other two
      variants); (`x`, `y`) is the anchor where the first node is drawn. */
  class List {
    const variant: Variant
    var head: Node?
    var last: Node?
    var x: real
    var y: real
    var size: real
    var color: string
    var display: Display
    var performActionInPlace: bool
    ghost var nodes: seq<Node>

    ghost predicate Valid()
      reads this`head, this`last, this`nodes, nodes`next
    {
      Linked(head, nodes) &&
      (variant == ListVariant ==> Sorted(KeysOf(nodes))) &&
      (variant == QueueVariant && nodes != [] ==> last == nodes[|nodes| - 1]) &&
      (variant != QueueVariant ==> last == null)
    }

    /** The keys, read from the head. */
    ghost function Keys(): seq<int>
      reads this`nodes
    {
      KeysOf(nodes)
    }

    function Anchor(): Point
      reads this`x, this`y
    {
      Point(x, y)
    }

    /** Where the anchor goes after a head operation that shifts it by
        `slots` slots, unless the structure acts in place. */
    function ShiftedAnchor(p: Point, slots: real): Point
      reads this`performActionInPlace, this`display, this`size
    {
      if performActionInPlace then p else Shifted(p, display, slots * SlotWidth(size))
    }

    constructor (variant: Variant)
      ensures this.variant == variant && Valid() && nodes == [] && last == null
      ensures Anchor() == Point(0.0, 0.0) && size == 0.0 && color == ""
      ensures display == Horizontal && !performActionInPlace
    {
      this.variant := variant;
      head, last, nodes := null, null, [];
      x, y, size, color := 0.0, 0.0, 0.0, "";
      display, performActionInPlace := Horizontal, false;
    }

    method SetDisplay(display: Display)
      modifies this`display
      ensures this.display == display
    {
      this.display := display;
    }

    method SetPerformActionInPlace(inPlace: bool)
      modifies this`performActionInPlace
      ensures performActionInPlace == inPlace
    {
      performActionInPlace := inPlace;
    }

    /** Links a new node holding `data` in front of the head. */
    method PushHead(data: int) returns (r: Node)
      requires Linked(head, nodes)
      modifies this`head, this`nodes
      ensures Linked(head, nodes) && fresh(r) && r.data == data
      ensures nodes == [r] + old(nodes)
    {
      r := new Node(data, head);
      LinkedCons(head, nodes, r);
      head, nodes := r, [r] + nodes;
    }

    /** Unlinks the head, which the chain must have. */
    method PopHead()
      requires Linked(head, nodes) && head != null
      modifies this`head, this`nodes
      ensures Linked(head, nodes) && nodes == old(nodes)[1..]
    {
      LinkedTail(head, nodes);
      head, nodes := head.next, nodes[1..];
    }

    /** Links a new node holding `data` right after `nodes[i]`. */
    method LinkAfter(current: Node, ghost i: nat, data: int) returns (r: Node)
      requires Linked(head, nodes) && i < |nodes| && current == nodes[i]
      modifies current`next, this`nodes
      ensures Linked(head, nodes) && fresh(r) && r.data == data
      ensures nodes == old(nodes)[..i + 1] + [r] + old(nodes)[i + 1..]
    {
      r := new Node(data, current.next);
      ghost var before := nodes;
      current.next := r;
      nodes := nodes[..i + 1] + [r] + nodes[i + 1..];
      forall t | 0 <= t < |nodes| - 1
        ensures nodes[t].next == nodes[t + 1]
      {
        if t < i {
          assert nodes[t] == before[t] && before[t] != current;
        } else if t > i + 1 {
          assert nodes[t] == before[t - 1] && before[t - 1] != current;
        }
      }
      DistinctSpliced(before, i + 1, r);
    }

    /** Unlinks the node right after `nodes[i]`. */
    method UnlinkAfter(current: Node, ghost i: nat)
      requires Linked(head, nodes) && i + 1 < |nodes| && current == nodes[i]
      modifies current`next, this`nodes
      ensures Linked(head, nodes)
      ensures nodes == old(nodes)[..i + 1] + old(nodes)[i + 2..]
    {
      ghost var before := nodes;
      assert current.next == before[i + 1];
      if i + 2 < |before| {
        assert before[i + 1].next == before[i + 2];
      }
      current.next := current.next.next;
      nodes := nodes[..i + 1] + nodes[i + 2..];
      forall t | 0 <= t < |nodes| - 1
        ensures nodes[t].next == nodes[t + 1]
      {
        if t < i {
          assert nodes[t] == before[t] && before[t] != current;
        } else if t > i {
          assert nodes[t] == before[t + 1] && before[t + 1] != current;
        }
      }
      DistinctRemoved(before, i + 1);
    }

    // ---------------------------------------------------------------- List

    /** Sorted insert. Duplicates are kept: the new node goes after the head
        and after every later key below `data`. Yields nothing when the list
        is empty or `data` is below the head's key; otherwise yields the head
        and each node it advances to, the last of them being the node the new
        one is linked after. */
    method ListInsert(data: int) returns (steps: seq<Node>, r: Node)
      requires Valid() && variant == ListVariant
      modifies this`head, this`nodes, nodes`next
      ensures Valid() && fresh(r) && r.data == data
      ensures var p := InsertPos(old(Keys()), data);
        nodes == old(nodes)[..p] + [r] + old(nodes)[p..] && steps == old(nodes)[..p]
      ensures steps == [] <==> old(nodes) == [] || data < old(nodes)[0].data
      ensures steps != [] ==> steps[|steps| - 1].next == r
      ensures Keys() == InsertedKeys(ListVariant, old(Keys()), data)
    {
      ghost var ks := Keys();
      if head == null {
        r := PushHead(data);
        steps := [];
        SortedSplice(old(nodes), 0, r);
        return;
      }
      if data < head.data {
        r := PushHead(data);
        steps := [];
        SortedSplice(old(nodes), 0, r);
        return;
      }
      var current;
      ghost var i;
      current, i, steps := WalkToInsert(data);
      r := LinkAfter(current, i, data);
      assert nodes[i] == current && nodes[i + 1] == r;
      SortedSplice(old(nodes), i + 1, r);
    }

    /** Sorted remove. Unlinks the first node holding `data` and yields it as
        the last step, after the nodes walked past to reach it; when no node
        holds `data` nothing changes, and the walk stops at the first key
        above `data`. Always returns null. */
    method ListRemove(data: int) returns (steps: seq<Node>, r: Node?)
      requires Valid() && variant == ListVariant
      modifies this`head, this`nodes, nodes`next
      ensures Valid() && r == null
      ensures var ks := old(Keys());
        if data in ks then
          var j := IndexOf(ks, data);
          nodes == old(nodes)[..j] + old(nodes)[j + 1..] && steps == old(nodes)[..j + 1]
        else
          nodes == old(nodes) &&
          steps == if ks == [] then [] else old(nodes)[..WalkBelow(ks, data, 1)]
      ensures Keys() == RemovedKeys(ListVariant, old(Keys()), data)
    {
      steps, r := [], null;
      if head == null {
        return;
      }
      if head.data == data {
        steps := [head];
        assert steps == nodes[..1];
        PopHead();
        SortedRemove(old(nodes), 0);
        return;
      }
      var current, found;
      ghost var i;
      current, i, steps, found := WalkToRemove(data);
      if found {
        assert current.next == nodes[i + 1];
        steps := steps + [current.next];
        assert steps == nodes[..i + 2];
        UnlinkAfter(current, i);
        SortedRemove(old(nodes), i + 1);
      }
    }

    /** The walk of the sorted insert: from the head, advance while the next
        key is below `data`, yielding the head and each node advanced to. */
    method WalkToInsert(data: int) returns (current: Node, ghost i: nat, steps: seq<Node>)
      requires Valid() && variant == ListVariant && head != null && head.data <= data
      ensures steps != [] && current == steps[|steps| - 1]
      ensures current.next == null || data <= current.next.data
      ensures i < |nodes| && current == nodes[i] && steps == nodes[..i + 1]
      ensures i + 1 == InsertPos(Keys(), data)
    {
      ghost var ks := Keys();
      current := head;
      i := 0;
      steps := [current];
      while current.next != null && data > current.next.data
        invariant 0 <= i < |nodes| && current == nodes[i]
        invariant steps == nodes[..i + 1]
        invariant WalkBelow(ks, data, i + 1) == WalkBelow(ks, data, 1)
        decreases |nodes| - i
      {
        current := current.next;
        i := i + 1;
        steps := steps + [current];
      }
    }

    /** The walk of the sorted remove: from the head (whose key is not
        `data`), advance while the next key is at most `data`, yielding the
        head and each node advanced to, and stop early when the next key is
        `data`. */
    method WalkToRemove(data: int) returns (current: Node, ghost i: nat, steps: seq<Node>, found: bool)
      requires Valid() && variant == ListVariant && head != null && head.data != data
      ensures steps != [] && current == steps[|steps| - 1]
      ensures found ==> current.next != null && current.next.data == data
      ensures !found ==> current.next == null || data < current.next.data
      ensures i < |nodes| && current == nodes[i] && steps == nodes[..i + 1]
      ensures data !in Keys()[..i + 1]
      ensures found ==> i + 1 < |nodes| && nodes[i + 1].data == data
      ensures !found ==> data !in Keys() && i + 1 == WalkBelow(Keys(), data, 1)
    {
      ghost var ks := Keys();
      current := head;
      i := 0;
      steps := [current];
      found := false;
      while current.next != null && current.next.data <= data
        invariant 0 <= i < |nodes| && current == nodes[i]
        invariant steps == nodes[..i + 1]
        invariant forall t :: 0 <= t <= i ==> ks[t] != data
        invariant WalkBelow(ks, data, i + 1) == WalkBelow(ks, data, 1)
        decreases |nodes| - i
      {
        if current.next.data == data {
          found := true;
          assert data !in ks[..i + 1];
          return;
        }
        current := current.next;
        i := i + 1;
        steps := steps + [current];
      }
      assert data !in ks[..i + 1];
      AbsentPastBound(ks, data, i + 1);
    }

    /** Search, shared by all three variants, never changes the structure.
        Returns the first node holding `data`, or null; before that it yields
        every node it passes whose key is below `data` (it does not stop at a
        larger key). */
    method Search(data: int) returns (steps: seq<Node>, r: Node?)
      requires Valid()
      ensures data in Keys() ==>
        var j := IndexOf(Keys(), data); r == nodes[j] && steps == Below(nodes[..j], data)
      ensures data !in Keys() ==> r == null && steps == Below(nodes, data)
    {
      ghost var ks := Keys();
      var current := head;
      ghost var i := 0;
      steps := [];
      while current != null
        invariant 0 <= i <= |nodes|
        invariant current == if i < |nodes| then nodes[i] else null
        invariant data !in ks[..i]
        invariant steps == Below(nodes[..i], data)
        decreases |nodes| - i
      {
        BelowSnoc(nodes, i, data);
        if current.data < data {
          steps := steps + [current];
        }
        if current.data == data {
          IndexOfFirst(ks, data, i);
          r := current;
          return;
        }
        assert ks[..i + 1] == ks[..i] + [ks[i]];
        current := current.next;
        i := i + 1;
      }
      assert nodes[..i] == nodes && ks[..i] == ks;
      r := null;
    }

    // --------------------------------------------------------------- Queue

    /** Appends at the tail, yielding the old tail. An empty queue (whose
        `last` may still point at the node removed last) starts afresh. */
    method QueueInsert(data: int) returns (steps: seq<Node>, r: Node)
      requires Valid() && variant == QueueVariant
      modifies this`head, this`last, this`nodes, nodes`next
      ensures Valid() && fresh(r) && r.data == data && last == r
      ensures nodes == old(nodes) + [r]
      ensures steps == if old(nodes) == [] then [] else [old(nodes)[|old(nodes)| - 1]]
      ensures Keys() == InsertedKeys(QueueVariant, old(Keys()), data)
    {
      if head == null || last == null {
        r := new Node(data, null);
        head, last := r, r;
        nodes, steps := [r], [];
        return;
      }
      steps := [last];
      r := LinkAfter(last, |nodes| - 1, data);
      last := r;
      assert KeysOf(nodes) == KeysOf(old(nodes)) + [data];
    }

    /** Removes the head, yielding it. Unless acting in place the anchor
        moves one slot forward; `last` is left as it was, even when the queue
        becomes empty. */
    method QueueRemove() returns (steps: seq<Node>, r: Node?)
      requires Valid() && variant == QueueVariant
      modifies this`head, this`nodes, this`x, this`y
      ensures Valid() && r == null && last == old(last)
      ensures old(nodes) == [] ==> nodes == [] && steps == [] && Anchor() == old(Anchor())
      ensures old(nodes) != [] ==>
        nodes == old(nodes)[1..] && steps == [old(nodes)[0]] &&
        Anchor() == ShiftedAnchor(old(Anchor()), 1.0)
      ensures Keys() == RemovedKeys(QueueVariant, old(Keys()), 0)
    {
      steps, r := [], null;
      if head == null {
        return;
      }
      steps := [head];
      PopHead();
      ShiftAnchor(1.0);
    }

    // --------------------------------------------------------------- Stack

    /** Pushes at the head, yielding the old head if there is one. Unless
        acting in place the anchor moves one slot back. */
    method StackInsert(data: int) returns (steps: seq<Node>, r: Node)
      requires Valid() && variant == StackVariant
      modifies this`head, this`nodes, this`x, this`y
      ensures Valid() && fresh(r) && r.data == data
      ensures nodes == [r] + old(nodes)
      ensures steps == if old(nodes) == [] then [] else [old(nodes)[0]]
      ensures Anchor() == ShiftedAnchor(old(Anchor()), -1.0)
      ensures Keys() == InsertedKeys(StackVariant, old(Keys()), data)
    {
      steps := if head != null then [head] else [];
      r := PushHead(data);
      ShiftAnchor(-1.0);
    }

    /** Pops the head, yielding it. Unless acting in place the anchor moves
        one slot forward; popping an empty stack changes nothing. */
    method StackRemove() returns (steps: seq<Node>, r: Node?)
      requires Valid() && variant == StackVariant
      modifies this`head, this`nodes, this`x, this`y
      ensures Valid() && r == null
      ensures old(nodes) == [] ==> nodes == [] && steps == [] && Anchor() == old(Anchor())
      ensures old(nodes) != [] ==>
        nodes == old(nodes)[1..] && steps == [old(nodes)[0]] &&
        Anchor() == ShiftedAnchor(old(Anchor()), 1.0)
      ensures Keys() == RemovedKeys(StackVariant, old(Keys()), 0)
    {
      steps, r := [], null;
      if head == null {
        return;
      }
      steps := [head];
      PopHead();
      ShiftAnchor(1.0);
    }

    /** A push followed by a pop gives back the Stack's keys and its anchor. */
    method StackPushThenPop(data: int)
      requires Valid() && variant == StackVariant
      modifies this`head, this`nodes, this`x, this`y
      ensures Valid() && Keys() == old(Keys()) && Anchor() == old(Anchor())
    {
      var _, _ := StackInsert(data);
      var _, _ := StackRemove();
    }

    /** Moves the anchor by `slots` slots along the display axis, unless the
        structure acts in place. */
    method ShiftAnchor(slots: real)
      modifies this`x, this`y
      ensures Anchor() == ShiftedAnchor(old(Anchor()), slots)
    {
      if !performActionInPlace {
        if display == Horizontal {
          x := x + slots * SlotWidth(size);
        } else {
          y := y + slots * SlotWidth(size);
        }
      }
    }

    // ------------------------------------------------ dispatch by variant

    /** `insert` as each variant overrides it. */
    method Insert(data: int) returns (steps: seq<Node>, r: Node)
      requires Valid()
      modifies this`head, this`last, this`nodes, this`x, this`y, nodes`next
      ensures Valid() && fresh(r) && r.data == data
      ensures Keys() == InsertedKeys(variant, old(Keys()), data)
      ensures forall i :: 0 <= i < |nodes| ==> nodes[i] in old(nodes) || nodes[i] == r
      ensures |steps| <= |old(nodes)|
      ensures Anchor() == if variant == StackVariant then ShiftedAnchor(old(Anchor()), -1.0) else old(Anchor())
    {
      match variant
      case ListVariant => steps, r := ListInsert(data);
      case QueueVariant => steps, r := QueueInsert(data);
      case StackVariant => steps, r := StackInsert(data);
    }

    /** `remove` as each variant overrides it; Queue and Stack ignore `data`. */
    method Remove(data: int) returns (steps: seq<Node>, r: Node?)
      requires Valid()
      modifies this`head, this`nodes, this`x, this`y, nodes`next
      ensures Valid() && r == null
      ensures Keys() == RemovedKeys(variant, old(Keys()), data)
      ensures |steps| <= |old(nodes)|
      ensures forall n :: n in nodes ==> n in old(nodes)
      ensures |nodes| < |old(nodes)| ==>
        steps != [] && steps[|steps| - 1] in old(nodes) && steps[|steps| - 1] !in nodes
      ensures Anchor() ==
        if variant == ListVariant || old(nodes) == [] then old(Anchor())
        else ShiftedAnchor(old(Anchor()), 1.0)
    {
      match variant
      case ListVariant => steps, r := ListRemove(data);
      case QueueVariant => steps, r := QueueRemove();
      case StackVariant => steps, r := StackRemove();
    }

    // -------------------------------------------------------------- layout

    /** Places the anchor at (`x`, `y`) and the `i`-th node `i` slots further
        along the display axis, using the current size. */
    method SetPos(x: real, y: real)
      requires Valid()
      modifies this`x, this`y, nodes`x, nodes`y
      ensures Anchor() == Point(x, y)
      ensures forall i :: 0 <= i < |nodes| ==>
        Point(nodes[i].x, nodes[i].y) == SlotPos(Point(x, y), display, size, i)
    {
      this.x, this.y := x, y;
      var cx, cy := x, y;
      var current := head;
      ghost var i := 0;
      while current != null
        invariant 0 <= i <= |nodes|
        invariant current == if i < |nodes| then nodes[i] else null
        invariant Anchor() == Point(x, y)
        invariant Point(cx, cy) == SlotPos(Point(x, y), display, size, i)
        invariant forall t :: 0 <= t < i ==>
          Point(nodes[t].x, nodes[t].y) == SlotPos(Point(x, y), display, size, t)
        decreases |nodes| - i
      {
        current.SetPos(cx, cy);
        SlotNext(Point(x, y), display, size, i);
        if display == Horizontal {
          cx := cx + SlotWidth(size);
        } else {
          cy := cy + SlotWidth(size);
        }
        current := current.next;
        i := i + 1;
      }
    }

    /** Applies `u` to every node, head to tail. */
    method ApplyToElements(u: ElementUpdate)
      requires Valid()
      modifies nodes`size, nodes`color, nodes`highlight
      ensures forall i :: 0 <= i < |nodes| ==>
        nodes[i].size == (if u.SizeTo? then u.size else old(nodes[i].size)) &&
        nodes[i].color == (if u.ColorTo? then u.color else old(nodes[i].color)) &&
        nodes[i].highlight == (if u.HighlightTo? then u.on else old(nodes[i].highlight))
    {
      var current := head;
      ghost var i := 0;
      while current != null
        invariant 0 <= i <= |nodes|
        invariant current == if i < |nodes| then nodes[i] else null
        invariant forall t :: 0 <= t < i ==>
          nodes[t].size == (if u.SizeTo? then u.size else old(nodes[t].size)) &&
          nodes[t].color == (if u.ColorTo? then u.color else old(nodes[t].color)) &&
          nodes[t].highlight == (if u.HighlightTo? then u.on else old(nodes[t].highlight))
        invariant forall t :: i <= t < |nodes| ==>
          nodes[t].size == old(nodes[t].size) && nodes[t].color == old(nodes[t].color) &&
          nodes[t].highlight == old(nodes[t].highlight)
        decreases |nodes| - i
      {
        current.Apply(u);
        current := current.next;
        i := i + 1;
      }
    }

    method SetSize(size: real)
      requires Valid()
      modifies this`size, nodes`size, nodes`color, nodes`highlight
      ensures this.size == size
      ensures forall i :: 0 <= i < |nodes| ==>
        nodes[i].size == size &&
        nodes[i].color == old(nodes[i].color) && nodes[i].highlight == old(nodes[i].highlight)
    {
      this.size := size;
      ApplyToElements(SizeTo(size));
    }

    method SetColor(color: string)
      requires Valid()
      modifies this`color, nodes`size, nodes`color, nodes`highlight
      ensures this.color == color
      ensures forall i :: 0 <= i < |nodes| ==>
        nodes[i].color == color &&
        nodes[i].size == old(nodes[i].size) && nodes[i].highlight == old(nodes[i].highlight)
    {
      this.color := color;
      ApplyToElements(ColorTo(color));
    }

    method SetHighlight(on: bool)
      requires Valid()
      modifies nodes`size, nodes`color, nodes`highlight
      ensures forall i :: 0 <= i < |nodes| ==>
        nodes[i].highlight == on &&
        nodes[i].size == old(nodes[i].size) && nodes[i].color == old(nodes[i].color)
    {
      ApplyToElements(HighlightTo(on));
    }

    /** The layout pass a full redraw runs before painting: every node is
        moved to its slot and given the structure's size and colour. */
    method Layout()
      requires Valid()
      modifies this`x, this`y, this`size, this`color
      modifies nodes`x, nodes`y, nodes`size, nodes`color, nodes`highlight
      ensures Anchor() == old(Anchor()) && size == old(size) && color == old(color)
      ensures forall i :: 0 <= i < |nodes| ==>
        Point(nodes[i].x, nodes[i].y) == SlotPos(Anchor(), display, size, i) &&
        nodes[i].size == size && nodes[i].color == color &&
        nodes[i].highlight == old(nodes[i].highlight)
    {
      SetPos(x, y);
      SetSize(size);
      SetColor(color);
    }

    /** Anchor at the origin, default size and colour. The nodes are placed
        before the size is set, so they are spaced by the previous size. */
    method SetDefaultDrawAttributes()
      requires Valid()
      modifies this`x, this`y, this`size, this`color
      modifies nodes`x, nodes`y, nodes`size, nodes`color, nodes`highlight
      ensures Anchor() == Point(0.0, 0.0) && size == DefaultSize && color == DefaultColor
      ensures forall i :: 0 <= i < |nodes| ==>
        Point(nodes[i].x, nodes[i].y) == SlotPos(Point(0.0, 0.0), display, old(size), i) &&
        nodes[i].size == DefaultSize && nodes[i].color == DefaultColor &&
        nodes[i].highlight == old(nodes[i].highlight)
    {
      SetPos(0.0, 0.0);
      SetSize(DefaultSize);
      SetColor(DefaultColor);
    }

    // -------------------------------------------------------------- batch

    /** A fresh structure of the given variant after inserting 0, 1, ...,
        `length` - 1 in turn, each insert run to completion. */
    static method OfLength(variant: Variant, length: nat) returns (s: List)
      ensures fresh(s) && s.Valid() && s.variant == variant
      ensures s.Keys() == BatchKeys(variant, length)
      ensures forall i :: 0 <= i < |s.nodes| ==> fresh(s.nodes[i])
      ensures s.Anchor() == Point(0.0, 0.0) && s.size == 0.0 && s.color == ""
      ensures s.display == Horizontal && !s.performActionInPlace
    {
      s := new List(variant);
      for i := 0 to length
        invariant fresh(s) && s.Valid() && s.variant == variant
        invariant s.Keys() == BatchKeys(variant, i)
        invariant forall t :: 0 <= t < |s.nodes| ==> fresh(s.nodes[t])
        invariant s.Anchor() == Point(0.0, 0.0) && s.size == 0.0 && s.color == ""
        invariant s.display == Horizontal && !s.performActionInPlace
      {
        var steps, r := s.Insert(i);
        var _ := Exhaust(Run(steps, r));
        BatchStep(variant, i);
      }
    }
  }

  /** A new, empty structure of the chosen kind with default drawing
      attributes; none for the kinds without a linked variant. */
  method CreateStructure(t: StructureType) returns (s: Option<List>)
    ensures s.Some? <==> VariantOf(t).Some?
    ensures s.Some? ==>
      fresh(s.value) && s.value.Valid() && s.value.variant == VariantOf(t).value &&
      s.value.nodes == [] && s.value.Anchor() == Point(0.0, 0.0) &&
      s.value.size == DefaultSize && s.value.color == DefaultColor &&
      s.value.display == Horizontal && !s.value.performActionInPlace
  {
    match VariantOf(t)
    case None => s := None;
    case Some(v) =>
      var l := new List(v);
      l.SetDefaultDrawAttributes();
      s := Some(l);
  }

  /** A structure of the chosen kind holding three elements, with default
      drawing attributes; none for the kinds without a linked variant. Its
      nodes all sit at the origin until the next layout pass, because they
      were placed while the size was still 0. */
  method CreateDefaultStructure(t: StructureType) returns (s: Option<List>)
    ensures s.Some? <==> VariantOf(t).Some?
    ensures s.Some? ==>
      fresh(s.value) && s.value.Valid() && s.value.variant == VariantOf(t).value &&
      s.value.Keys() == (if t == StackType then [2, 1, 0] else [0, 1, 2]) &&
      s.value.Anchor() == Point(0.0, 0.0) &&
      s.value.size == DefaultSize && s.value.color == DefaultColor &&
      s.value.display == Horizontal && !s.value.performActionInPlace &&
      forall i :: 0 <= i < |s.value.nodes| ==>
        s.value.nodes[i].x == 0.0 && s.value.nodes[i].y == 0.0 &&
        s.value.nodes[i].size == DefaultSize && s.value.nodes[i].color == DefaultColor
  {
    match VariantOf(t)
    case None => s := None;
    case Some(v) =>
      var l := List.OfLength(v, 3);
      l.SetDefaultDrawAttributes();
      assert Ascending(3) == [0, 1, 2] && Descending(3) == [2, 1, 0];
      s := Some(l);
  }
}
