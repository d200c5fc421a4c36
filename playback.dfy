/** The two drivers of an operation's step sequence: the synchronous one used
    by the batch builders, and the playback controller that highlights each
    visited node in turn. Timers, waits and redraw requests are left out; only
    the pulls and the highlight transitions remain. */
module Playback {
  import opened Elements

  /** What one call of a generator's `next` hands back: a yielded node, or
      (when `done`) the operation's return value. */
  datatype IterResult = IterResult(value: Node?, done: bool)

  /** A finished operation seen as the generator it runs as: the nodes it
      yields, in order, then the value it returns. */
  datatype Run = Run(steps: seq<Node>, result: Node?) {

    /** The answer to the (`pulls` + 1)-th call of `next`. */
    function Next(pulls: nat): IterResult {
      if pulls < |steps| then IterResult(steps[pulls], false) else IterResult(result, true)
    }
  }

  function AsSet(n: Node?): set<Node> {
    if n == null then {} else {n}
  }

  /** Every node the controller may highlight while playing `run`. */
  function Touched(run: Run): set<Node> {
    (set n | n in run.steps) + AsSet(run.result)
  }

  /** Pulls steps until the generator reports that it is done, discarding
      them; returns how many times `next` was called. */
  method Exhaust(run: Run) returns (pulls: nat)
    ensures pulls == |run.steps| + 1
    ensures run.Next(pulls - 1).done
  {
    pulls := 0;
    while true
      invariant pulls <= |run.steps|
      decreases |run.steps| - pulls
    {
      var res := run.Next(pulls);
      pulls := pulls + 1;
      if res.done {
        break;
      }
    }
  }

  /** One pause of playback: the node shown before loses its highlight and
      the node just handed back gains it. Among the nodes shown so far
      (`seen`), of which only `prev` was highlighted, afterwards exactly
      `next` is highlighted: at most one node is lit at any pause. */
  method Handover(prev: Node?, next: Node?, ghost seen: set<Node>)
    requires prev == null || prev in seen
    requires forall n :: n in seen ==> (n.highlight <==> n == prev)
    modifies AsSet(prev)`highlight, AsSet(next)`highlight
    ensures forall n :: n in seen + AsSet(next) ==> (n.highlight <==> n == next)
  {
    if prev != null {
      prev.SetHighlight(false);
    }
    if next != null {
      next.SetHighlight(true);
    }
  }

  /** The playback controller's highlight bookkeeping. Each pause (one per
      call of `next`) goes through `Handover`, so at every pause exactly the
      node that call handed back is highlighted among the nodes seen so far;
      when playback ends no node it touched is left highlighted. */
  method Play(run: Run)
    modifies Touched(run)`highlight
    ensures forall n :: n in Touched(run) ==> !n.highlight
  {
    var prev: Node? := null;
    var res := IterResult(null, false);
    var pulls := 0;
    ghost var seen: set<Node> := {};
    while true
      invariant pulls <= |run.steps|
      invariant seen <= Touched(run)
      invariant forall j :: 0 <= j < pulls ==> run.steps[j] in seen
      invariant prev == if pulls == 0 then null else run.steps[pulls - 1]
      invariant prev == null || prev in seen
      invariant forall n :: n in seen ==> (n.highlight <==> n == prev)
      decreases |run.steps| - pulls
    {
      res := run.Next(pulls);
      Handover(prev, res.value, seen);
      prev := res.value;
      seen := seen + AsSet(res.value);
      pulls := pulls + 1;
      if res.done {
        break;
      }
    }
    if res.value != null {
      res.value.SetHighlight(false);
    }
  }
}
