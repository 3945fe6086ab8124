/** `WFIStack`: the wait-free intrusive LIFO stack, one atomic step per
    public operation. The `head` register is exchanged (push family, drain
    family) or compare-and-swapped (`pop`); here each exchange is a single
    assignment of the new state. The abstract contents of a stack are the
    chain of nodes from `head` down to END, most recently pushed first. */
module Stacks {
  import opened Outcomes
  import opened Links
  import opened Snapshots

  datatype Stack = Stack(heap: Heap, head: Node)

  /** `s` is the stack's contents: the heap is well formed, following `next`
      from `head` visits exactly `s` before reaching END, and every node on
      the way counts the nodes from itself down to END (as a Java `int`). */
  ghost predicate Abstracts(st: Stack, s: seq<Node>)
  {
    && WellFormed(st.heap)
    && ChainFrom(st.heap.next, st.head, s)
    && forall i :: 0 <= i < |s| ==> Count(st.heap, s[i]) == WrapInt(|s| - i)
  }

  /** The constructor: `head` starts at END, so the stack is empty. */
  function Empty(): (st: Stack)
    ensures Abstracts(st, [])
  {
    Stack(InitialHeap(), END)
  }

  /** `size()`: the head's count, read once its `next` is visible. */
  function Size(st: Stack): (r: int)
    requires Linked(st.heap, st.head)
    ensures WellFormed(st.heap) && st.head == END ==> r == 0
  {
    Count(st.heap, st.head)
  }

  /** `peek()`: the head node, or `None` when the head is END. */
  function Peek(st: Stack): (r: Option<Node>)
    ensures r == None <==> st.head == END
    ensures r.Some? ==> r.value == st.head
  {
    Self(st.head)
  }

  /** `push(node)`: `checkPush` refuses a node whose `next` is already set;
      otherwise the node is exchanged into `head`, and its `count` and `next`
      are set from the node it displaced. Only `node`'s fields change. */
  function Push(st: Stack, node: Node): (r: Result<Stack>)
    ensures r.Err? <==> Linked(st.heap, node)
    ensures r.Err? ==> r.error == NodeReused
    ensures r.Ok? ==>
      && r.value.head == node
      && Linked(r.value.heap, node)
      && r.value.heap.next[node] == st.head
      && Count(r.value.heap, node) == WrapInt(Count(st.heap, st.head) + 1)
      && SameExcept(st.heap, r.value.heap, node)
  {
    if Linked(st.heap, node) then Err(NodeReused)
    else
      var prev := st.head;
      var h := Heap(st.heap.next[node := prev],
                    st.heap.count[node := WrapInt(Count(st.heap, prev) + 1)]);
      Ok(Stack(h, node))
  }

  /** `peekAndPush(node)`: the same effect as `push`, also returning the
      node it displaced, or `None` if that was END. */
  function PeekAndPush(st: Stack, node: Node): (r: Result<(Stack, Option<Node>)>)
    ensures r.Err? <==> Linked(st.heap, node)
    ensures r.Err? ==> r.error == NodeReused
    ensures r.Ok? ==> r.value.1 == Peek(st) && r.value.0.head == node
  {
    match Push(st, node)
    case Err(e) => Err(e)
    case Ok(pushed) => Ok((pushed, Self(st.head)))
  }

  /** `pop()`: on END return `None` with nothing changed; otherwise swing
      `head` to the candidate's `next` and return the candidate. The popped
      node keeps its `next`, so it can never be pushed again. */
  function Pop(st: Stack): (r: (Stack, Option<Node>))
    requires Linked(st.heap, st.head)
    ensures r.1 == None <==> st.head == END
    ensures r.1 == None ==> r.0 == st
    ensures r.1.Some? ==> r.1.value == st.head && r.0.head == st.heap.next[st.head]
    ensures r.0.heap == st.heap
  {
    var candidate := st.head;
    if candidate == END then (st, None)
    else (Stack(st.heap, st.heap.next[candidate]), Some(candidate))
  }

  /** `popAll()`: exchange END into `head`; the old chain is the view. */
  function PopAll(st: Stack): (r: (Stack, View))
    ensures r.0.head == END && r.0.heap == st.heap
    ensures r.1.start == st.head
  {
    (Stack(st.heap, END), View(st.head))
  }

  /** `replaceAll(node)`: after `checkPush`, make `node` a one-element chain
      (`count = 1`, `next = END`) and exchange it into `head`; the old chain
      is the view. */
  function ReplaceAll(st: Stack, node: Node): (r: Result<(Stack, View)>)
    ensures r.Err? <==> Linked(st.heap, node)
    ensures r.Err? ==> r.error == NodeReused
  {
    if Linked(st.heap, node) then Err(NodeReused)
    else
      var h := Heap(st.heap.next[node := END], st.heap.count[node := 1]);
      Ok((Stack(h, node), View(st.head)))
  }

  /** `popAllFifo()`: `popAll` followed by the in-place reversal of the
      detached chain. The stack is left empty and the view yields the old
      contents oldest first. */
  method PopAllFifo(st: Stack, ghost s: seq<Node>) returns (st': Stack, v: View)
    requires Abstracts(st, s)
    ensures Abstracts(st', [])
    ensures ChainFrom(st'.heap.next, v.start, Rev(s))
    ensures st'.heap.next.Keys == st.heap.next.Keys
    ensures forall m :: m in st.heap.next && m !in s ==> st'.heap.next[m] == st.heap.next[m]
    ensures st'.heap.count == st.heap.count
  {
    var (drained, lifo) := PopAll(st);
    var h;
    h, v := Reverse(drained.heap, lifo, s);
    st' := Stack(h, END);
  }

  /** `replaceAllFifo(node)`: `replaceAll` followed by the in-place reversal
      of the detached chain. The stack is left holding just `node` and the
      view yields the old contents oldest first. */
  method ReplaceAllFifo(st: Stack, node: Node, ghost s: seq<Node>) returns (r: Result<(Stack, View)>)
    requires Abstracts(st, s)
    ensures r.Err? <==> Linked(st.heap, node)
    ensures r.Err? ==> r.error == NodeReused
    ensures r.Ok? ==> Abstracts(r.value.0, [node])
    ensures r.Ok? ==> ChainFrom(r.value.0.heap.next, r.value.1.start, Rev(s))
    ensures r.Ok? ==> r.value.0.heap.next.Keys == st.heap.next.Keys + {node}
    ensures r.Ok? ==> forall m :: m in st.heap.next && m !in s ==> r.value.0.heap.next[m] == st.heap.next[m]
    ensures r.Ok? ==> r.value.0.heap.count == st.heap.count[node := 1]
  {
    var replaced := ReplaceAll(st, node);
    if replaced.Err? {
      return Err(replaced.error);
    }
    var (st1, lifo) := replaced.value;
    ReplaceAllRefines(st, s, node);
    ChainInDomain(st.heap.next, st.head, s);
    var h, v := Reverse(st1.heap, lifo, s);
    assert node !in s;
    r := Ok((Stack(h, node), v));
  }

  /** `iterator()` of the stack itself: a live, non-detached traversal that
      starts from the current head. */
  function LiveView(st: Stack): (v: View)
    ensures Iterator(v) == Iter(Peek(st))
  {
    View(st.head)
  }

  /** Iterating the stack itself yields its contents, most recent first. */
  method IterateStack(st: Stack, ghost s: seq<Node>) returns (out: seq<Node>)
    requires Abstracts(st, s)
    ensures out == s
  {
    out := Iterate(st.heap, LiveView(st), s);
  }

  // ---------------------------------------------------------------------
  // The operations against the abstract contents.

  /** `size()` is the number of elements (as a Java `int`), and exactly that
      number while it fits; 0 on the empty stack. */
  lemma SizeIsLength(st: Stack, s: seq<Node>)
    requires Abstracts(st, s)
    ensures Linked(st.heap, st.head)
    ensures Size(st) == WrapInt(|s|)
    ensures |s| < TWO_31 ==> Size(st) == |s|
    ensures s == [] ==> Size(st) == 0
  {
  }

  /** `peek()` is the most recently pushed element, or `None` when empty. */
  lemma PeekIsFront(st: Stack, s: seq<Node>)
    requires Abstracts(st, s)
    ensures Peek(st) == (if s == [] then None else Some(s[0]))
  {
  }

  /** Pushing a fresh node puts it in front of the contents and changes
      nothing else; pushing a node whose `next` is set is refused. */
  lemma PushRefines(st: Stack, s: seq<Node>, node: Node)
    requires Abstracts(st, s)
    ensures !Linked(st.heap, node) ==>
      Push(st, node).Ok? && Abstracts(Push(st, node).value, [node] + s)
    ensures Linked(st.heap, node) ==> Push(st, node) == Err(NodeReused)
  {
    if !Linked(st.heap, node) {
      var st' := Push(st, node).value;
      ChainInDomain(st.heap.next, st.head, s);
      assert node !in s;
      ChainFrame(st.heap.next, st.head, s, node, st.head);
      assert ([node] + s)[1..] == s;
      SizeIsLength(st, s);
      WrapIntIncrement(|s|);
      forall i | 0 <= i < |[node] + s|
        ensures Count(st'.heap, ([node] + s)[i]) == WrapInt(|[node] + s| - i)
      {
        if i > 0 {
          assert ([node] + s)[i] == s[i - 1];
        }
      }
    }
  }

  /** `peekAndPush` returns the previous front (not removing it) and the
      stack grows by exactly one element. */
  lemma PeekAndPushRefines(st: Stack, s: seq<Node>, node: Node)
    requires Abstracts(st, s)
    requires !Linked(st.heap, node)
    ensures PeekAndPush(st, node).Ok?
    ensures PeekAndPush(st, node).value.1 == (if s == [] then None else Some(s[0]))
    ensures Abstracts(PeekAndPush(st, node).value.0, [node] + s)
    ensures Size(PeekAndPush(st, node).value.0) == WrapInt(Size(st) + 1)
  {
    PushRefines(st, s, node);
    PeekIsFront(st, s);
    SizeIsLength(st, s);
    SizeIsLength(PeekAndPush(st, node).value.0, [node] + s);
    WrapIntIncrement(|s|);
  }

  /** `pop()` on the empty stack returns `None` and changes nothing; on a
      non-empty stack it returns the front and leaves the rest. */
  lemma PopRefines(st: Stack, s: seq<Node>)
    requires Abstracts(st, s)
    ensures Linked(st.heap, st.head)
    ensures s == [] ==> Pop(st) == (st, None)
    ensures s != [] ==> Pop(st).1 == Some(s[0]) && Abstracts(Pop(st).0, s[1..])
  {
  }

  /** `popAll()` empties the stack and its view is the whole former
      contents, most recent first. */
  lemma PopAllRefines(st: Stack, s: seq<Node>)
    requires Abstracts(st, s)
    ensures Abstracts(PopAll(st).0, [])
    ensures ChainFrom(PopAll(st).0.heap.next, PopAll(st).1.start, s)
  {
  }

  /** `replaceAll(node)` leaves the stack as the single element `node` (size
      1, peek `node`) and its view is the whole former contents. */
  lemma ReplaceAllRefines(st: Stack, s: seq<Node>, node: Node)
    requires Abstracts(st, s)
    requires !Linked(st.heap, node)
    ensures ReplaceAll(st, node).Ok?
    ensures Abstracts(ReplaceAll(st, node).value.0, [node])
    ensures ChainFrom(ReplaceAll(st, node).value.0.heap.next, ReplaceAll(st, node).value.1.start, s)
    ensures Size(ReplaceAll(st, node).value.0) == 1
    ensures Peek(ReplaceAll(st, node).value.0) == Some(node)
  {
    var st' := ReplaceAll(st, node).value.0;
    ChainInDomain(st.heap.next, st.head, s);
    assert node !in s;
    ChainFrame(st.heap.next, st.head, s, node, END);
    assert ChainFrom(st'.heap.next, END, []);
    assert ChainFrom(st'.heap.next, node, [node]);
    WrapIntSmall(1);
  }

  /** Nodes that have left the stack keep their `next`, so pushing any of
      them again is refused: after `pop` the popped node, after `popAll`
      every drained node. */
  lemma RemovedNodesCannotBeRepushed(st: Stack, s: seq<Node>, n: Node)
    requires Abstracts(st, s)
    requires n in s
    ensures s[0] == n ==> Push(Pop(st).0, n) == Err(NodeReused)
    ensures Push(PopAll(st).0, n) == Err(NodeReused)
  {
    ChainInDomain(st.heap.next, st.head, s);
  }

  /** Push each node of `ns` in turn, stopping at the first refusal. */
  function PushAll(st: Stack, ns: seq<Node>): Result<Stack>
    decreases |ns|
  {
    if ns == [] then Ok(st)
    else
      match Push(st, ns[0])
      case Err(e) => Err(e)
      case Ok(st1) => PushAll(st1, ns[1..])
  }

  /** Pushing distinct fresh nodes one after another stacks them in reverse
      order of pushing on top of the former contents. */
  lemma {:induction false} PushAllRefines(st: Stack, s: seq<Node>, ns: seq<Node>)
    requires Abstracts(st, s)
    requires Distinct(ns)
    requires forall i :: 0 <= i < |ns| ==> !Linked(st.heap, ns[i])
    ensures PushAll(st, ns).Ok?
    ensures Abstracts(PushAll(st, ns).value, Rev(ns) + s)
    decreases |ns|
  {
    if ns != [] {
      PushRefines(st, s, ns[0]);
      var st1 := Push(st, ns[0]).value;
      forall i | 0 <= i < |ns[1..]|
        ensures !Linked(st1.heap, ns[1..][i])
      {
        assert ns[1..][i] == ns[i + 1];
      }
      assert Distinct(ns[1..]) by {
        forall i, j | 0 <= i < j < |ns[1..]|
          ensures ns[1..][i] != ns[1..][j]
        {
          assert ns[1..][i] == ns[i + 1] && ns[1..][j] == ns[j + 1];
        }
      }
      PushAllRefines(st1, [ns[0]] + s, ns[1..]);
      assert Rev(ns) == Rev(ns[1..]) + [ns[0]];
      assert Rev(ns[1..]) + ([ns[0]] + s) == Rev(ns) + s;
    } else {
      assert Rev(ns) + s == s;
    }
  }

  /** N pushes of fresh nodes onto an empty stack: `size()` is N (while it
      fits an `int`), `peek()` is the last node pushed, and `popAllFifo`
      would hand the nodes back in the order they were pushed. */
  lemma {:induction false} PushesThenObserve(ns: seq<Node>)
    requires Distinct(ns)
    requires forall i :: 0 <= i < |ns| ==> ns[i] != END
    requires |ns| < TWO_31
    ensures PushAll(Empty(), ns).Ok?
    ensures Abstracts(PushAll(Empty(), ns).value, Rev(ns))
    ensures Linked(PushAll(Empty(), ns).value.heap, PushAll(Empty(), ns).value.head)
    ensures Size(PushAll(Empty(), ns).value) == |ns|
    ensures Peek(PushAll(Empty(), ns).value) == (if ns == [] then None else Some(ns[|ns| - 1]))
  {
    PushAllRefines(Empty(), [], ns);
    assert Rev(ns) + [] == Rev(ns);
    var st := PushAll(Empty(), ns).value;
    SizeIsLength(st, Rev(ns));
    PeekIsFront(st, Rev(ns));
  }

  /** Pushing fresh nodes onto an empty stack and then draining it with
      `popAllFifo` hands the nodes back in the order they were pushed. */
  method PushesThenPopAllFifo(ns: seq<Node>) returns (out: seq<Node>)
    requires Distinct(ns)
    requires forall i :: 0 <= i < |ns| ==> ns[i] != END
    ensures out == ns
  {
    PushAllRefines(Empty(), [], ns);
    assert Rev(ns) + [] == Rev(ns);
    var st := PushAll(Empty(), ns).value;
    var drained, v := PopAllFifo(st, Rev(ns));
    RevRev(ns);
    out := Iterate(drained.heap, v, ns);
  }

  /** A view handed out earlier (its chain `t` lies in the heap) still has
      the same chain after a later `push`, `peekAndPush` or `replaceAll`:
      those only set the fields of a node that was never linked. */
  lemma DetachedViewSurvivesPush(st: Stack, s: seq<Node>, start: Node, t: seq<Node>, node: Node)
    requires Abstracts(st, s)
    requires ChainFrom(st.heap.next, start, t)
    ensures Push(st, node).Ok? ==> ChainFrom(Push(st, node).value.heap.next, start, t)
    ensures PeekAndPush(st, node).Ok? ==> ChainFrom(PeekAndPush(st, node).value.0.heap.next, start, t)
    ensures ReplaceAll(st, node).Ok? ==> ChainFrom(ReplaceAll(st, node).value.0.heap.next, start, t)
  {
    if !Linked(st.heap, node) {
      ChainInDomain(st.heap.next, start, t);
      assert node !in t;
      ChainFrame(st.heap.next, start, t, node, st.head);
      ChainFrame(st.heap.next, start, t, node, END);
    }
  }

  /** A view handed out earlier, whose nodes are no longer on the stack,
      still yields the same nodes after a later `popAllFifo` reverses the
      stack's chain: the iterable is re-entrant. */
  method EarlierViewSurvivesPopAllFifo(st: Stack, ghost s: seq<Node>, earlier: View, ghost t: seq<Node>)
    returns (out: seq<Node>)
    requires Abstracts(st, s)
    requires ChainFrom(st.heap.next, earlier.start, t)
    requires forall i :: 0 <= i < |t| ==> t[i] !in s
    ensures out == t
  {
    var drained, v := PopAllFifo(st, s);
    ChainSurvives(st.heap.next, drained.heap.next, earlier.start, t, s);
    out := Iterate(drained.heap, earlier, t);
  }

  /** Pushing a, b, c and popping returns c; a following `popAll` drains
      b then a. */
  lemma PushPushPushPop()
    ensures PushAll(Empty(), [1, 2, 3]).Ok?
    ensures Pop(PushAll(Empty(), [1, 2, 3]).value).1 == Some(3)
    ensures ChainFrom(PopAll(Pop(PushAll(Empty(), [1, 2, 3]).value).0).0.heap.next,
                      PopAll(Pop(PushAll(Empty(), [1, 2, 3]).value).0).1.start, [2, 1])
  {
  }
}
