/** Drawable elements and the nodes the linked structures are built from,
    with the layout geometry that places them along the display axis. */
module Elements {
  import opened SortedKeys

  datatype Display = Horizontal | Vertical

  datatype Point = Point(x: real, y: real)

  /** Distance between the anchors of two neighbouring nodes of size `size`. */
  function SlotWidth(size: real): real {
    size * 1.5
  }

  /** `p` moved by `delta` along the display axis `d`. */
  function Shifted(p: Point, d: Display, delta: real): (q: Point)
    ensures d == Horizontal ==> q.y == p.y && q.x - p.x == delta
    ensures d == Vertical ==> q.x == p.x && q.y - p.y == delta
  {
    match d
    case Horizontal => Point(p.x + delta, p.y)
    case Vertical => Point(p.x, p.y + delta)
  }

  /** Where the `i`-th node of a structure anchored at `origin` goes. */
  function SlotPos(origin: Point, d: Display, size: real, i: nat): Point {
    Shifted(origin, d, i as real * SlotWidth(size))
  }

  /** The attribute updates a structure applies to each of its elements. */
  datatype ElementUpdate = SizeTo(size: real) | ColorTo(color: string) | HighlightTo(on: bool)

  /** One slot further along the display axis is the next node's place. */
  lemma SlotNext(origin: Point, d: Display, size: real, i: nat)
    ensures Shifted(SlotPos(origin, d, size, i), d, SlotWidth(size)) == SlotPos(origin, d, size, i + 1)
  {
    assert (i + 1) as real * SlotWidth(size) == i as real * SlotWidth(size) + SlotWidth(size);
  }

  /** A keyed element of a linked structure. The key is fixed at
      construction; the link and the drawing attributes change in place. */
  class Node {
    const data: int
    var next: Node?
    var x: real
    var y: real
    var size: real
    var color: string
    var highlight: bool

    constructor (data: int, next: Node?)
      ensures this.data == data && this.next == next
      ensures x == 0.0 && y == 0.0 && size == 0.0 && color == "" && !highlight
    {
      this.data := data;
      this.next := next;
      x, y, size, color, highlight := 0.0, 0.0, 0.0, "", false;
    }

    method SetPos(x: real, y: real)
      modifies this`x, this`y
      ensures this.x == x && this.y == y
    {
      this.x, this.y := x, y;
    }

    method SetSize(size: real)
      modifies this`size
      ensures this.size == size
    {
      this.size := size;
    }

    method SetColor(color: string)
      modifies this`color
      ensures this.color == color
    {
      this.color := color;
    }

    method SetHighlight(on: bool)
      modifies this`highlight
      ensures highlight == on
    {
      highlight := on;
    }

    /** Applies `u`, leaving the other attributes alone. */
    method Apply(u: ElementUpdate)
      modifies this`size, this`color, this`highlight
      ensures size == if u.SizeTo? then u.size else old(size)
      ensures color == if u.ColorTo? then u.color else old(color)
      ensures highlight == if u.HighlightTo? then u.on else old(highlight)
    {
      match u
      case SizeTo(s) => SetSize(s);
      case ColorTo(c) => SetColor(c);
      case HighlightTo(b) => SetHighlight(b);
    }
  }

  /** The keys of `ns`, in order. */
  function KeysOf(ns: seq<Node>): seq<int> {
    seq(|ns|, i requires 0 <= i < |ns| => ns[i].data)
  }

  lemma KeysOfSpliced(ns: seq<Node>, p: nat, n: Node)
    requires p <= |ns|
    ensures KeysOf(ns[..p] + [n] + ns[p..]) == Spliced(KeysOf(ns), p, n.data)
  {
    SplicedAt(KeysOf(ns), p, n.data);
  }

  lemma KeysOfRemoved(ns: seq<Node>, i: nat)
    requires i < |ns|
    ensures KeysOf(ns[..i] + ns[i + 1..]) == Removed(KeysOf(ns), i)
  {
  }

  /** The nodes of `ns` whose key is strictly below `k`, in order. */
  function Below(ns: seq<Node>, k: int): (r: seq<Node>)
    ensures |r| <= |ns|
    ensures forall i :: 0 <= i < |r| ==> r[i] in ns && r[i].data < k
    ensures forall i :: 0 <= i < |ns| && ns[i].data < k ==> ns[i] in r
  {
    if ns == [] then []
    else
      var n := ns[|ns| - 1];
      Below(ns[..|ns| - 1], k) + if n.data < k then [n] else []
  }

  /** Extending the prefix by one node extends its nodes below `k` by that
      node when its key is below `k`. */
  lemma BelowSnoc(ns: seq<Node>, i: nat, k: int)
    requires i < |ns|
    ensures Below(ns[..i + 1], k) == Below(ns[..i], k) + if ns[i].data < k then [ns[i]] else []
  {
    assert ns[..i + 1][..i] == ns[..i];
  }

  /** When every key is below `k`, every node is kept. */
  lemma {:induction false} BelowAll(ns: seq<Node>, k: int)
    requires forall i :: 0 <= i < |ns| ==> ns[i].data < k
    ensures Below(ns, k) == ns
    decreases |ns|
  {
    if ns != [] {
      BelowAll(ns[..|ns| - 1], k);
    }
  }

  /** Along ascending keys, the nodes below `k` are a prefix of the chain. */
  lemma {:induction false} SortedBelowIsPrefix(ns: seq<Node>, k: int)
    requires Sorted(KeysOf(ns))
    ensures Below(ns, k) == ns[..|Below(ns, k)|]
    decreases |ns|
  {
    if ns != [] {
      var init, last := ns[..|ns| - 1], ns[|ns| - 1];
      SortedInit(ns);
      if last.data < k {
        assert Below(ns, k) == Below(init, k) + [last];
        BelowAll(init, k);
        assert init + [last] == ns;
      } else {
        assert Below(ns, k) == Below(init, k);
        SortedBelowIsPrefix(init, k);
        assert init[..|Below(init, k)|] == ns[..|Below(init, k)|];
      }
    }
  }

  /** Dropping the last node of ascending keys leaves ascending keys, all at
      most the dropped one. */
  lemma SortedInit(ns: seq<Node>)
    requires Sorted(KeysOf(ns)) && ns != []
    ensures Sorted(KeysOf(ns[..|ns| - 1]))
    ensures forall i :: 0 <= i < |ns| - 1 ==> ns[i].data <= ns[|ns| - 1].data
  {
    assert KeysOf(ns[..|ns| - 1]) == KeysOf(ns)[..|ns| - 1];
    forall i | 0 <= i < |ns| - 1
      ensures ns[i].data <= ns[|ns| - 1].data
    {
      assert KeysOf(ns)[i] <= KeysOf(ns)[|ns| - 1];
    }
  }

  predicate Distinct(ns: seq<Node>) {
    forall i, j :: 0 <= i < j < |ns| ==> ns[i] != ns[j]
  }

  lemma DistinctSpliced(ns: seq<Node>, p: nat, n: Node)
    requires p <= |ns| && Distinct(ns) && n !in ns
    ensures Distinct(ns[..p] + [n] + ns[p..])
  {
    var r := ns[..p] + [n] + ns[p..];
    forall a, b | 0 <= a < b < |r|
      ensures r[a] != r[b]
    {
      assert r[a] == (if a < p then ns[a] else if a == p then n else ns[a - 1]);
      assert r[b] == (if b < p then ns[b] else if b == p then n else ns[b - 1]);
    }
  }

  lemma DistinctRemoved(ns: seq<Node>, i: nat)
    requires i < |ns| && Distinct(ns)
    ensures Distinct(ns[..i] + ns[i + 1..])
  {
    var r := ns[..i] + ns[i + 1..];
    forall a, b | 0 <= a < b < |r|
      ensures r[a] != r[b]
    {
      assert r[a] == (if a < i then ns[a] else ns[a + 1]);
      assert r[b] == (if b < i then ns[b] else ns[b + 1]);
    }
  }

  /** `ns` is the chain of distinct nodes reached from `head` by following
      `next`, ending in a node whose `next` is null. */
  ghost predicate Linked(head: Node?, ns: seq<Node>)
    reads ns`next
  {
    (head == null <==> ns == []) &&
    (ns != [] ==> head == ns[0] && ns[|ns| - 1].next == null) &&
    (forall i :: 0 <= i < |ns| - 1 ==> ns[i].next == ns[i + 1]) &&
    Distinct(ns)
  }

  /** Dropping the head leaves the chain from its successor. */
  lemma LinkedTail(head: Node?, ns: seq<Node>)
    requires Linked(head, ns) && ns != []
    ensures Linked(ns[0].next, ns[1..])
  {
    var tail := ns[1..];
    forall a, b | 0 <= a < b < |tail|
      ensures tail[a] != tail[b]
    {
      assert tail[a] == ns[a + 1] && tail[b] == ns[b + 1];
    }
    forall i | 0 <= i < |tail| - 1
      ensures tail[i].next == tail[i + 1]
    {
      assert tail[i] == ns[i + 1] && tail[i + 1] == ns[i + 2];
    }
    if |ns| > 1 {
      assert ns[0].next == ns[1] == tail[0];
    }
  }

  /** A node not yet in the chain, linked in front of its head. */
  lemma LinkedCons(head: Node?, ns: seq<Node>, n: Node)
    requires Linked(head, ns) && n !in ns && n.next == head
    ensures Linked(n, [n] + ns)
  {
    DistinctSpliced(ns, 0, n);
    assert ns[..0] + [n] + ns[0..] == [n] + ns;
  }
}
