# WFIStack — a sequential model of JCTools' wait-free intrusive stack

`WFIStack` is a LIFO stack of caller-allocated nodes. Each node carries a
`next` link and a `count`. A push sets `next` once; a FIFO drain rewrites it
once more when it reverses the drained chain. A single `head` register
names the top node, or the `END` sentinel when the stack is empty. `END`'s
`next` is `END` itself. `push`, `peekAndPush`, `popAll` and `replaceAll`
each exchange `head` once. `pop` compare-and-swaps `head` to the top node's
`next`. The drain operations hand back a detached chain. The chain can be
iterated any number of times, and the FIFO variants first reverse its links
in place.

This model treats every public operation as one atomic step, which is its
linearized effect. The state is a `Stack` value:

- a `Heap`, made of a `next` map and a `count` map. A node missing from
  `next` has `next == null`. A node missing from `count` has Java's default
  count 0.
- a `head` node.

Nodes are numbers, and node 0 is `END`. The abstract contents of a stack is
the sequence of nodes met by following `next` from `head` down to `END`.
The ghost predicate `Stacks.Abstracts(st, s)` states this, and also that
every node on the way has `count` equal to its distance from `END`. Java's
`int` wrap-around is written out as `Links.WrapInt`. Each operation is
proved against push-front, pop-front, take-all and reverse on that
sequence. `NodeIterable.reverse()` is an imperative loop over the `next`
map. Its loop invariants state the reversed prefix, the unvisited suffix and
the frame.

Modules:

- `Outcomes` (`outcomes.dfy`): `Option` for Java's `null` and `Result`
  for the two exceptions.
- `Links` (`links.dfy`): nodes, `END`, the heap, `int` wrap-around, the
  chain predicate `ChainFrom` and its lemmas, and sequence reversal.
- `Snapshots` (`snapshots.dfy`): `NodeIterable` (`View`), `NodeIterator`
  (`Iter`), full iteration and `reverse()`.
- `Stacks` (`stack.dfy`): the stack operations and their refinement lemmas.

`checkPush` is a Java `assert`. It is modelled as its assertions-enabled
behaviour: pushing a node whose `next` is set returns `Err(NodeReused)`.
`END` itself has `next` set, so it can never be pushed either.

## Model

| member | source | states |
|---|---|---|
| Links.InitialHeap | jctools-experimental/src/main/java/org/jctools/stacks/WFIStack.java:126-137 | before anything is pushed, `END` is the only linked node, its `next` is itself and its count is 0 |
| Links.WrapIntIncrement | jctools-experimental/src/main/java/org/jctools/stacks/WFIStack.java:193 | `prev.count + 1` on a 32-bit `int` agrees with the length plus one, wrapped modulo 2^32 |
| Links.ChainUnique | jctools-experimental/src/main/java/org/jctools/stacks/WFIStack.java:220-221 | the chain reached from a node is unique, so a snapshot denotes one sequence and every iteration of it gives the same result |
| Links.ChainDistinct | jctools-experimental/src/main/java/org/jctools/stacks/WFIStack.java:86 | a chain that reaches `END` never visits a node twice, so the traversal loops terminate |
| Snapshots.Self | jctools-experimental/src/main/java/org/jctools/stacks/WFIStack.java:132-136 | `self()` is `null` (`None`) exactly for `END` and the node itself otherwise |
| Snapshots.Iterator | jctools-experimental/src/main/java/org/jctools/stacks/WFIStack.java:76-80 | a fresh iterator of a view has a next element exactly when the view does not start at `END` |
| Snapshots.HasNext | jctools-experimental/src/main/java/org/jctools/stacks/WFIStack.java:107-111 | `hasNext()` is true exactly when the cursor is not `null` |
| Snapshots.Next | jctools-experimental/src/main/java/org/jctools/stacks/WFIStack.java:113-123 | `next()` fails with NoSuchElement exactly when the iterator has reached `null` |
| Snapshots.NextFollowsChain | jctools-experimental/src/main/java/org/jctools/stacks/WFIStack.java:102-123 | on a chain, an iterator yields the chain's first node and moves to the rest; at `END` (which `self()` maps to `null`) it is exhausted and `next()` fails |
| Snapshots.Iterate | jctools-experimental/src/main/java/org/jctools/stacks/WFIStack.java:76-80 | draining a fresh iterator of a view yields exactly the chain from the view's start, in order |
| Snapshots.Reverse | jctools-experimental/src/main/java/org/jctools/stacks/WFIStack.java:82-95 | on a detached chain ending at `END`, the loop terminates; the new start's chain is the original reversed and still ends at `END`; only the chain's own links change and no count changes |
| Stacks.Empty | jctools-experimental/src/main/java/org/jctools/stacks/WFIStack.java:146-154 | a new stack has `head == END` and represents the empty sequence |
| Stacks.Push | jctools-experimental/src/main/java/org/jctools/stacks/WFIStack.java:189-195 | refused exactly when the node's `next` is set; otherwise the node becomes head, its `next` is the old head, its count is the old head's count plus one, and no other node changes |
| Stacks.PushRefines | jctools-experimental/src/main/java/org/jctools/stacks/WFIStack.java:189-195 | pushing a fresh node onto contents `s` gives contents `[node] + s`, with counts kept consistent; a linked node is refused |
| Stacks.Size | jctools-experimental/src/main/java/org/jctools/stacks/WFIStack.java:163-168 | `size()` reads the head's count; on the empty stack (head `END`) it is 0 |
| Stacks.Peek | jctools-experimental/src/main/java/org/jctools/stacks/WFIStack.java:177-180 | `peek()` is `None` exactly when the head is `END`, and the head node otherwise |
| Stacks.Pop | jctools-experimental/src/main/java/org/jctools/stacks/WFIStack.java:294-308 | returns `None` exactly when the head is `END`, leaving the stack unchanged; otherwise returns the head and moves the head to its `next`; no node's fields change |
| Stacks.PopAll | jctools-experimental/src/main/java/org/jctools/stacks/WFIStack.java:227-230 | the head becomes `END`, no node's fields change, and the view starts at the former head |
| Stacks.PeekAndPush | jctools-experimental/src/main/java/org/jctools/stacks/WFIStack.java:207-214 | refused exactly when the node is linked; otherwise it returns what `peek()` returned before and makes the node the head |
| Stacks.PeekAndPushRefines | jctools-experimental/src/main/java/org/jctools/stacks/WFIStack.java:197-214 | returns the previous front, or `None` on an empty stack, without removing it; contents become `[node] + s` and size grows by exactly one |
| Stacks.SizeIsLength | jctools-experimental/src/main/java/org/jctools/stacks/WFIStack.java:156-168 | `size()` is the number of elements wrapped to an `int`; it is exactly that number below 2^31, and 0 on the empty stack |
| Stacks.PeekIsFront | jctools-experimental/src/main/java/org/jctools/stacks/WFIStack.java:170-180 | `peek()` is the most recently pushed element, or `None` when the stack is empty |
| Stacks.PopRefines | jctools-experimental/src/main/java/org/jctools/stacks/WFIStack.java:294-308 | on an empty stack, returns `None` and changes nothing; otherwise returns the front element and the contents become the tail |
| Stacks.PopAllRefines | jctools-experimental/src/main/java/org/jctools/stacks/WFIStack.java:227-230 | the stack becomes empty and the returned view's chain is the whole former contents, most recent first |
| Stacks.PopAllFifo | jctools-experimental/src/main/java/org/jctools/stacks/WFIStack.java:243-246 | the stack becomes empty and the returned view's chain is the former contents reversed, oldest first; the set of linked nodes, every count, and the `next` of every node not drained are unchanged |
| Stacks.ReplaceAll | jctools-experimental/src/main/java/org/jctools/stacks/WFIStack.java:259-265 | refused exactly when the replacing node is already linked |
| Stacks.ReplaceAllRefines | jctools-experimental/src/main/java/org/jctools/stacks/WFIStack.java:259-265 | the stack becomes exactly `[node]` with size 1 and peek `node`; the view's chain is the whole former contents, most recent first |
| Stacks.ReplaceAllFifo | jctools-experimental/src/main/java/org/jctools/stacks/WFIStack.java:279-285 | refused exactly when the node is linked; otherwise the stack becomes `[node]` and the view's chain is the former contents oldest first; apart from `node` (now linked, count 1), no node outside the drained chain changes |
| Stacks.LiveView | jctools-experimental/src/main/java/org/jctools/stacks/WFIStack.java:310-313 | the stack's own iterator starts at the node `peek()` returns, and is empty when the stack is |
| Stacks.IterateStack | jctools-experimental/src/main/java/org/jctools/stacks/WFIStack.java:310-313 | iterating the stack itself yields its contents, most recent first |
| Stacks.RemovedNodesCannotBeRepushed | jctools-experimental/src/main/java/org/jctools/stacks/WFIStack.java:315-318 | a node removed by `pop` or `popAll` keeps its `next`, so pushing it again is refused |
| Stacks.PushAllRefines | jctools-experimental/src/main/java/org/jctools/stacks/WFIStack.java:189-195 | pushing distinct fresh nodes one after another stacks them in reverse push order on top of the former contents |
| Stacks.PushesThenObserve | jctools-experimental/src/main/java/org/jctools/stacks/WFIStack.java:156-195 | after N fresh pushes onto an empty stack (N < 2^31), `size()` is N and `peek()` is the last node pushed |
| Stacks.PushesThenPopAllFifo | jctools-experimental/src/main/java/org/jctools/stacks/WFIStack.java:243-246 | pushing fresh nodes onto an empty stack and then iterating the `popAllFifo` view yields the nodes in push order |
| Stacks.DetachedViewSurvivesPush | jctools-experimental/src/main/java/org/jctools/stacks/WFIStack.java:220-221 | a view handed out earlier keeps its chain across a later `push`, `peekAndPush` or `replaceAll` |
| Stacks.EarlierViewSurvivesPopAllFifo | jctools-experimental/src/main/java/org/jctools/stacks/WFIStack.java:236-237 | a view handed out earlier, whose nodes have left the stack, still yields the same nodes after a later `popAllFifo` |
| Links.ChainSurvives | jctools-experimental/src/main/java/org/jctools/stacks/WFIStack.java:220-221 | a chain is unchanged by any relinking that leaves its own nodes' `next` alone |
| Stacks.PushPushPushPop | jctools-experimental/src/main/java/org/jctools/stacks/WFIStack.java:294-308 | pushing 1, 2, 3 and then popping returns 3; a following `popAll` drains 2 then 1 |

## Left out

- The `Unsafe` exchange and compare-and-swap on `head` (`xchgHead`, `casHead`) are modelled as plain assignments of the new state. The CAS retry loop in `pop` becomes its single successful round.
- Memory visibility: the `volatile` write order of `count` before `next`, and the `Thread.yield` spin in `Node.next()`, are not modelled. Here `next` is already set whenever a traversal reads it. `Stacks.Pop`, `Stacks.Size` and `Snapshots.Next` instead require the node they read to be linked.
- Multi-thread linearizability, and the claim that racing drains are disjoint, cannot be stated in a sequential model.
- The constructor's `UnsafeAccess.SUPPORTS_GET_AND_SET_REF` check depends on the JVM and contains no logic.
- Generic node types and the unchecked `self()` casts are replaced by numeric node ids. Node 0 is `END`, and `self()` maps it to `None`.
- `checkPush` runs only when Java assertions are enabled. The model always applies it. With assertions disabled, the source would silently relink a reused node, and that behaviour is not modelled.
- The count invariant is not claimed for a reversed snapshot, because `reverse()` does not update `count`. `Snapshots.Reverse` states only that counts are unchanged.
- `NodeIterable.reverse()` is private and is called exactly once, by the FIFO drains, so the model has no reversal on a view already handed to the caller.
- The live `iterator()` of the stack is stated against a fixed state (`Stacks.IterateStack`). Its behaviour while other threads modify the stack is concurrent and out of scope.
- Re-pushing the nodes of a drained view, one by one, is refused by `checkPush`, because drained nodes keep their `next` links (`Stacks.RemovedNodesCannotBeRepushed`). So the FIFO-then-re-push round trip is stated for fresh nodes (`Stacks.PushesThenObserve`).
