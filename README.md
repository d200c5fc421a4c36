# Linked structures of the data-structure visualizer

This project models the engine behind the visualizer's linked structures: a
singly linked **List** kept sorted by key, a **Queue** that appends at a tail
pointer and removes at the head, and a **Stack** that pushes and pops at the
head. Each structure also holds drawing attributes: an anchor point, a size,
a colour, a display axis and an "act in place" flag. Each node has a
position, size, colour and highlight flag. The model proves properties of
this engine.

Every insert, remove and search in the original is a generator. It yields
the nodes it visits, then returns a node or null. The model turns each
operation into a method. The method returns the yielded nodes in order
(`steps`) together with the generator's return value, and changes the
structure's state in place. Two drivers consume that output:

- the synchronous driver used by the batch builders (`Exhaust`);
- the playback controller that highlights each visited node in turn (`Play`).

Modules, in dependency order:

- `SortedKeys` (`sorted_keys.dfy`) covers key sequences. It defines where the sorted
  insert walk stops (`WalkBelow`, `InsertPos`), the first occurrence of a key
  (`IndexOf`), and the splice and removal of one entry. It proves sortedness and
  multiset facts about them.
- `Ordering` (`ordering.dfy`) gives what each variant does to its key sequence
  (`InsertedKeys`, `RemovedKeys`) and to a batch of inserts (`Replay`). It
  proves FIFO for the Queue, LIFO for the Stack and sortedness for the List.
- `Elements` (`elements.dfy`) holds the node class, the layout geometry
  (`SlotPos`, built on the one-step move `Shifted` along the display axis) and
  the chain predicate `Linked`. `Linked` ties the `head` pointer
  to a ghost sequence of distinct nodes joined by `next`.
- `Playback` (`playback.dfy`) holds the generator drivers.
- `Structures` (`structures.dfy`) holds one class `List` whose `variant` selects
  List, Queue or Stack behaviour; the original expresses that choice through
  subclassing. It also holds the batch builders and the two factory functions,
  with the closed forms they are stated in: `VariantOf` (which structure kinds
  have a linked variant), and `Ascending` and `Descending` (the keys a batch
  build leaves).

Keys are integers: the visualizer only ever inserts numbers, and the
comparisons `<`, `>` and `==` on them become integer comparisons.
Coordinates and sizes are reals.

## Model

| member | source | states |
|---|---|---|
| SortedKeys.WalkBelow | app/datastructures.tsx:233-236 | the walk that advances while the next key is below `k` stops at the first position from `from` on whose key is at least `k` (or the end), and every key it passed is below `k` |
| SortedKeys.InsertPos | app/datastructures.tsx:219-239 | the sorted insert places a new key at position 0 exactly when the list is empty or the key is below the head's key; otherwise it goes after every key from position 1 that is below it and before the next one |
| SortedKeys.IndexOf | app/datastructures.tsx:245-262 | the position the remove unlinks holds the key, and no earlier position does |
| SortedKeys.IndexOfFirst | app/datastructures.tsx:255-257 | a position holding the key with no earlier occurrence is the one `IndexOf` names |
| SortedKeys.InsertPosSeparates | app/datastructures.tsx:230-239 | in a sorted list every key before the insert position is at most the new key and every key from it on is at least the new key |
| SortedKeys.SplicedAt | app/datastructures.tsx:238 | element by element, what splicing one key into a sequence produces |
| SortedKeys.InsertKeepsSorted | app/datastructures.tsx:219-240 | the sorted insert keeps the keys sorted, grows them by one and adds exactly one copy of the new key |
| SortedKeys.SplicedIsSorted | app/datastructures.tsx:219-240 | splicing a key in at its insert position leaves a sorted sequence sorted |
| SortedKeys.RemoveKeepsSorted | app/datastructures.tsx:242-266 | unlinking one node of a sorted list keeps it sorted and removes exactly that key |
| SortedKeys.RemovedInRun | app/datastructures.tsx:255-260 | removing any one of a run of equal keys leaves the same key sequence |
| SortedKeys.RemovedSpliced | app/datastructures.tsx:219-266 | unlinking the node just spliced in restores the keys |
| SortedKeys.InsertThenRemove | app/datastructures.tsx:219-266 | inserting a key into a sorted list and then removing that key gives back the original keys, even when the key was already present |
| Ordering.Reverse | app/datastructures.tsx:391-404 | the order in which pushes end up on a stack: entry `i` of the result is entry `n - 1 - i` of the input |
| Ordering.InsertAddsOne | app/datastructures.tsx:219-240 | every variant's insert adds exactly one copy of its key and keeps all others (the Queue and Stack inserts, lines 329-339 and 391-404, likewise) |
| Ordering.RemoveTakesOne | app/datastructures.tsx:242-266 | a remove leaves the keys unchanged exactly when the structure is empty or it is a List that does not hold the key; otherwise it takes away one entry: the first one holding the key, with no earlier copy of it (List) or the head (Queue, Stack) (Queue and Stack removes at lines 341-356 and 406-420) |
| Ordering.QueueReplayIsFifo | app/datastructures.tsx:321-339 | a batch of queue inserts appends the keys in the order they were inserted |
| Ordering.StackReplayIsLifo | app/datastructures.tsx:383-404 | a batch of stack pushes leaves the last pushed key at the head, in reverse order of pushing |
| Ordering.QueueRemovesOldest | app/datastructures.tsx:329-356 | after any batch of inserts into an empty queue, the head holds the first key inserted and a remove takes exactly that key |
| Ordering.StackRemovesNewest | app/datastructures.tsx:391-420 | after any batch of pushes onto an empty stack, the head holds the last key pushed and a pop leaves the earlier pushes, newest first |
| Ordering.ListReplayIsSorted | app/datastructures.tsx:169-175 | any batch of inserts into a sorted list leaves it sorted and holding exactly the old keys plus the inserted ones |
| Ordering.InsertThenRemoveRestores | app/datastructures.tsx:219-266 | removing right after inserting restores a sorted List's keys and a Stack's keys; a non-empty Queue instead loses its oldest key and keeps the new one at the tail (Queue at lines 329-356, Stack at lines 391-420) |
| Elements.SlotNext | app/datastructures.tsx:190-205 | one slot width further along the display axis from node `i`'s place is node `i + 1`'s place |
| Elements.Node.constructor | app/datastructures.tsx:100-104 | a new node holds its key and link, sits at (0, 0) with size 0, an empty colour and no highlight (attribute defaults at lines 16-20) |
| Elements.Node.SetPos | app/datastructures.tsx:31-35 | sets the node's position and nothing else |
| Elements.Node.SetSize | app/datastructures.tsx:37-40 | sets the node's size and nothing else |
| Elements.Node.SetColor | app/datastructures.tsx:42-45 | sets the node's colour and nothing else |
| Elements.Node.SetHighlight | app/datastructures.tsx:47-51 | sets the node's highlight flag and nothing else |
| Elements.Node.Apply | app/datastructures.tsx:299-310 | applies one of the per-element updates a structure broadcasts, leaving the other attributes unchanged |
| Elements.KeysOfSpliced | app/datastructures.tsx:238 | the keys of a chain with one node spliced in are the old keys with that key spliced in |
| Elements.KeysOfRemoved | app/datastructures.tsx:259 | the keys of a chain with one node unlinked are the old keys without that entry |
| Elements.Below | app/datastructures.tsx:268-280 | every node search yields is a chain node whose key is below the searched key, and every chain node whose key is below it is yielded |
| Elements.BelowSnoc | app/datastructures.tsx:270-278 | one more step of the search walk yields the new node exactly when its key is below the searched key |
| Elements.BelowAll | app/datastructures.tsx:271-273 | when every key is below the searched key, search yields every node |
| Elements.SortedBelowIsPrefix | app/datastructures.tsx:268-280 | on the sorted List, the nodes search yields form a prefix of the chain |
| Elements.SortedInit | app/datastructures.tsx:219-240 | dropping the last node of a sorted chain leaves it sorted, and every remaining key is at most the dropped one |
| Elements.DistinctSpliced | app/datastructures.tsx:238 | linking in a new node keeps the chain free of repeated nodes |
| Elements.DistinctRemoved | app/datastructures.tsx:259 | unlinking a node keeps the chain free of repeated nodes |
| Elements.LinkedTail | app/datastructures.tsx:247-249 | moving `head` to its successor leaves a well-formed chain of the remaining nodes (as the Queue and Stack removes do at lines 345 and 409) |
| Elements.LinkedCons | app/datastructures.tsx:225-227 | a new node linked in front of the head gives a well-formed chain (as the Stack push does at line 393) |
| Playback.Exhaust | app/datastructures.tsx:493-500 | the synchronous driver calls `next` once per yielded node plus once more, and stops on the call that reports done |
| Playback.Handover | app/datastructures.tsx:473-475 | at each pause, among the nodes shown so far (of which only the previous one was lit) plus the node just handed back, exactly that node is highlighted afterwards: at most one node is lit at any pause |
| Playback.Play | app/datastructures.tsx:466-491 | every pause goes through `Handover` with the nodes seen so far, keeping exactly the last node handed back highlighted among them; when playback ends no node it touched is left highlighted |
| Structures.BatchStep | app/datastructures.tsx:169-175 | inserting `n` into the batch of `0 .. n - 1` gives the batch of `0 .. n` (Queue and Stack builders at lines 321-327 and 383-389) |
| Structures.ReplaySnoc | app/datastructures.tsx:171-173 | replaying one more insert is inserting it into what the earlier inserts built |
| Structures.BatchIsReplay | app/datastructures.tsx:169-175 | a batch build of `n` elements gives the keys of inserting 0, 1, ..., n - 1 in turn: ascending for List and Queue, descending for Stack (Queue and Stack builders at lines 321-327 and 383-389) |
| Structures.SortedSplice | app/datastructures.tsx:219-240 | linking a node in at the sorted position of its key keeps the chain sorted and gives the List's inserted keys |
| Structures.SortedRemove | app/datastructures.tsx:242-266 | unlinking the first node holding a key keeps the chain sorted and gives the List's removed keys |
| Structures.List.constructor | app/datastructures.tsx:161-167 | a new structure is empty and well formed with a null Queue tail, anchored at (0, 0) with size 0 and an empty colour, horizontal, not acting in place (attribute defaults at lines 16-20 and 55-56, the Queue tail at line 315) |
| Structures.List.SetDisplay | app/datastructures.tsx:68-71 | sets the display axis |
| Structures.List.SetPerformActionInPlace | app/datastructures.tsx:73-76 | sets the act-in-place flag |
| Structures.List.PushHead | app/datastructures.tsx:225-227 | links a fresh node in front of the head; the chain stays well formed and gains that node first (shared with the Stack push, line 393) |
| Structures.List.PopHead | app/datastructures.tsx:247-249 | moves the head to its successor; the chain stays well formed and loses its first node (shared with the Queue and Stack removes, lines 345 and 409) |
| Structures.List.LinkAfter | app/datastructures.tsx:238 | links a fresh node right after a given node; the chain stays well formed with the node spliced in there (shared with the Queue append, lines 336-337) |
| Structures.List.UnlinkAfter | app/datastructures.tsx:259 | unlinks the node after a given node; the chain stays well formed without it |
| Structures.List.ListInsert | app/datastructures.tsx:219-240 | the sorted insert splices a fresh node in at `InsertPos`, keeps the list sorted and returns the new node. It yields nothing when the list is empty or the key is below the head's key; otherwise it yields the nodes before the new one, the last of them linked to it |
| Structures.List.WalkToInsert | app/datastructures.tsx:230-236 | the insert walk yields the head and each node it advances to, ending at a node whose successor is null or not below the key, which is the node right before `InsertPos` |
| Structures.List.ListRemove | app/datastructures.tsx:242-266 | the sorted remove unlinks the first node holding the key and yields the nodes up to and including it; when no node holds the key nothing changes and the walk stops at the first larger key. It always returns null and the keys become `RemovedKeys` |
| Structures.List.WalkToRemove | app/datastructures.tsx:252-263 | the remove walk yields the head and each node it advances to; it stops either at the node whose successor is the first one holding the key, or, with no node holding the key, at a node whose successor is null or above the key, the position `WalkBelow` gives |
| Structures.List.Search | app/datastructures.tsx:268-280 | search returns the first node holding the key and yields the nodes before it whose key is below it; without a match it returns null and yields every node whose key is below the key |
| Structures.List.QueueInsert | app/datastructures.tsx:329-339 | appends a fresh node at the tail and points `last` at it, yielding the old tail; an empty queue starts a new chain, even if `last` is stale |
| Structures.List.QueueRemove | app/datastructures.tsx:341-356 | unlinks the head and yields it, moves the anchor one slot forward unless acting in place, and leaves `last` as it was; an empty queue is left unchanged |
| Structures.List.StackInsert | app/datastructures.tsx:391-404 | pushes a fresh node at the head, yields the old head if any, and moves the anchor one slot back unless acting in place |
| Structures.List.StackRemove | app/datastructures.tsx:406-420 | pops the head and yields it, moving the anchor one slot forward unless acting in place; an empty stack is left unchanged |
| Structures.List.StackPushThenPop | app/datastructures.tsx:391-420 | a push followed by a pop gives back the Stack's keys and its anchor |
| Structures.List.ShiftAnchor | app/datastructures.tsx:347-353 | moves the anchor by the given number of slot widths along the display axis, unless acting in place (the Stack shifts at lines 395-401 and 411-417) |
| Structures.List.Insert | app/datastructures.tsx:219-240 | each variant's insert gives `InsertedKeys`, adds only the returned fresh node, yields at most as many nodes as there were, and moves the anchor only for the Stack (Queue and Stack overrides at lines 329-339 and 391-404) |
| Structures.List.Remove | app/datastructures.tsx:242-266 | each variant's remove gives `RemovedKeys` and returns null, adds no node, and, when a node is unlinked, yields that node as its last step (the removed node is yielded, not returned, lines 59-62); the anchor moves one slot forward only for a non-empty Queue or Stack (Queue and Stack overrides at lines 341-356 and 406-420) |
| Structures.List.SetPos | app/datastructures.tsx:190-205 | sets the anchor and places node `i` at `i` slot widths along the display axis from it |
| Structures.List.ApplyToElements | app/datastructures.tsx:299-305 | applies the update to every node of the chain, head to tail, and changes nothing else of them |
| Structures.List.SetSize | app/datastructures.tsx:213-217 | sets the structure's size and every node's size |
| Structures.List.SetColor | app/datastructures.tsx:207-211 | sets the structure's colour and every node's colour |
| Structures.List.SetHighlight | app/datastructures.tsx:307-310 | sets every node's highlight flag |
| Structures.List.Layout | app/datastructures.tsx:177-181 | the layout part of a redraw places every node in its slot and gives it the structure's size and colour, leaving the structure's own attributes as they were |
| Structures.List.SetDefaultDrawAttributes | app/datastructures.tsx:24-29 | anchors at (0, 0) with size 75 and colour `rgb(0, 0, 0)`; nodes are spaced by the size from before, because placing comes before sizing |
| Structures.List.OfLength | app/datastructures.tsx:169-175 | a fresh structure with 0, 1, ..., n - 1 inserted in turn, each insert run to completion, holds `BatchKeys` (Queue and Stack builders at lines 321-327 and 383-389) |
| Structures.CreateStructure | app/datastructures.tsx:440-451 | an empty List, Queue or Stack with default drawing attributes, horizontal and not acting in place, for those kinds; nothing for the others |
| Structures.CreateDefaultStructure | app/datastructures.tsx:453-464 | a three-element structure with keys 0, 1, 2 (2, 1, 0 for the Stack), default drawing attributes, a horizontal display and no acting in place, all of its nodes still at the origin; nothing for the other kinds |

## Left out

- Painting is not modelled: `draw`, `drawPointerToNext`, the arrow helper and the canvas `Context` with `setContext`. `Layout` keeps only the attribute updates a redraw makes before it paints.
- `Node.SetHighlight` does not model the repaint of the node that `setHightlight` triggers.
- `getActions` is not modelled. It is user-interface wiring that passes an operation's generator to the playback controller.
- `Play` does not model the timers, the waits between pauses or the `Render` requests. Only the pulls and the highlight transitions remain.
- Generators are not modelled as suspended computations. Each operation returns its full step sequence and changes the structure as the generator would by the time it finishes, so in the model every operation runs to completion before the next one starts. Overlapping operations are not modelled: in the program a second action can start on the same structure while a first one is paused between yields during playback, and the two then interleave. For example, a Queue remove paused after yielding the head, overlapped by an insert, can leave `head` null while `last` holds the new node.
- `Node.type`, `NodeType`, `toString` and `equals` are left out: the core operations never use them.
- Keys are `int`: the original accepts any value, but only numbers reach these structures. Coordinates and sizes are `real`, so floating-point rounding is not modelled.
- The Vector structure and the composed structures are not part of this model, nor are the page and menu components that create structures.
- Structures.List.Insert: the promise that at most as many nodes are yielded as there were is weaker than what each variant method states. The per-variant methods state the exact steps.
