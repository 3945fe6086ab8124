/** The detached views the stack hands out: `NodeIterable` (a starting node,
    re-iterable, reversed in place by the FIFO drains) and `NodeIterator` (a cursor that
    walks `next` links and turns END into `null`). */
module Snapshots {
  import opened Outcomes
  import opened Links

  /** A `NodeIterable`: the chain that starts at `start`. */
  datatype View = View(start: Node)

  /** A `NodeIterator`: `cursor` is the node `next()` will return, or `None`
      (`null`) once END has been reached. */
  datatype Iter = Iter(cursor: Option<Node>)

  /** `self()`: every node is itself, except END, which is `null`. */
  function Self(n: Node): (r: Option<Node>)
    ensures r == None <==> n == END
    ensures r.Some? ==> r.value == n
  {
    if n == END then None else Some(n)
  }

  /** `NodeIterable.iterator()`: a fresh cursor at the view's start. */
  function Iterator(v: View): (it: Iter)
    ensures HasNext(it) <==> v.start != END
  {
    Iter(Self(v.start))
  }

  /** `hasNext()`: the cursor is not `null`. */
  predicate HasNext(it: Iter)
    ensures HasNext(it) <==> it != Iter(None)
  {
    it.cursor.Some?
  }

  /** `NodeIterator.next()`: return the cursor's node and advance to its
      `next`; an exhausted iterator fails with `NoSuchElement`. The node's
      `next` must already be set (the source spins until it is). */
  function Next(h: Heap, it: Iter): (r: Result<(Node, Iter)>)
    requires HasNext(it) ==> Linked(h, it.cursor.value)
    ensures r.Err? <==> !HasNext(it)
    ensures r.Err? ==> r.error == NoSuchElement
  {
    match it.cursor
    case None => Err(NoSuchElement)
    case Some(n) => Ok((n, Iter(Self(h.next[n]))))
  }

  /** One step of an iterator positioned on a chain: it yields the chain's
      first node and moves on to the rest of the chain; on the empty chain it
      is exhausted and fails. */
  lemma NextFollowsChain(h: Heap, start: Node, s: seq<Node>)
    requires ChainFrom(h.next, start, s)
    ensures s == [] ==> Next(h, Iter(Self(start))) == Err(NoSuchElement)
    ensures s != [] ==>
      && HasNext(Iter(Self(start)))
      && Next(h, Iter(Self(start))) == Ok((s[0], Iter(Self(FirstOr(s[1..])))))
  {
  }

  /** Drain a fresh iterator of the view with `hasNext()`/`next()`: the nodes
      yielded are exactly the chain from the view's start, in order. Since
      the chain from a node is unique (`Links.ChainUnique`) and iteration
      does not change the heap, every iteration of the same view yields the
      same sequence. */
  method Iterate(h: Heap, v: View, ghost s: seq<Node>) returns (out: seq<Node>)
    requires ChainFrom(h.next, v.start, s)
    ensures out == s
  {
    var it := Iterator(v);
    out := [];
    ghost var rest := s;
    while HasNext(it)
      invariant out + rest == s
      invariant ChainFrom(h.next, FirstOr(rest), rest)
      invariant it == Iter(Self(FirstOr(rest)))
      decreases |rest|
    {
      NextFollowsChain(h, FirstOr(rest), rest);
      var r := Next(h, it);
      var (n, it') := r.value;
      out := out + [n];
      it := it';
      rest := rest[1..];
    }
    NextFollowsChain(h, FirstOr(rest), rest);
  }

  /** One iteration of the reversal loop: node `s[i]` is moved from the
      front of the unvisited chain to the front of the reversed prefix. */
  lemma ReverseStep(links: map<Node, Node>, curr: Node, s: seq<Node>, i: nat)
    requires Distinct(s)
    requires i < |s|
    requires ChainFrom(links, curr, Rev(s[..i]))
    requires ChainFrom(links, s[i], s[i..])
    ensures ChainFrom(links[s[i] := curr], s[i], Rev(s[..i + 1]))
    ensures ChainFrom(links[s[i] := curr], links[s[i]], s[i + 1..])
  {
    var n := s[i];
    assert s[i..][1..] == s[i + 1..];
    RevMembers(s[..i]);
    assert n !in s[..i];
    assert n !in s[i + 1..];
    ChainFrame(links, curr, Rev(s[..i]), n, curr);
    ChainFrame(links, links[n], s[i + 1..], n, curr);
    assert s[..i + 1] == s[..i] + [n];
    assert Rev(s[..i + 1]) == [n] + Rev(s[..i]);
  }

  /** `NodeIterable.reverse()`: walk the detached chain once, pointing each
      node's `next` back at the node before it, and restart the view at the
      former last node. Afterwards the view's chain is the original chain
      reversed and still ends at END; only the chain's own `next` links
      change, and no `count` changes. */
  method Reverse(h: Heap, v: View, ghost s: seq<Node>) returns (h': Heap, v': View)
    requires WellFormed(h)
    requires ChainFrom(h.next, v.start, s)
    ensures WellFormed(h')
    ensures ChainFrom(h'.next, v'.start, Rev(s))
    ensures h'.next.Keys == h.next.Keys
    ensures forall m :: m in h.next && m !in s ==> h'.next[m] == h.next[m]
    ensures h'.count == h.count
  {
    ChainDistinct(h.next, v.start, s);
    ChainInDomain(h.next, v.start, s);
    var links := h.next;
    var curr := END;
    var next := v.start;
    ghost var i := 0;
    while next != END
      invariant 0 <= i <= |s|
      invariant next == FirstOr(s[i..])
      invariant ChainFrom(links, curr, Rev(s[..i]))
      invariant ChainFrom(links, next, s[i..])
      invariant links.Keys == h.next.Keys
      invariant END in links && links[END] == END
      invariant forall m :: m in h.next && m !in s[..i] ==> links[m] == h.next[m]
      decreases |s| - i
    {
      var n := next;
      ReverseStep(links, curr, s, i);
      next := links[n];
      links := links[n := curr];
      curr := n;
      assert s[..i + 1] == s[..i] + [n];
      i := i + 1;
    }
    assert s[..i] == s;
    h' := Heap(links, h.count);
    v' := View(curr);
  }
}
