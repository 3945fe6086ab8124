/** The intrusive link structure underneath the stack: node identities, the
    END sentinel, the heap of `next` links and `count` fields, Java's 32-bit
    `int` arithmetic, and the chain abstraction obtained by following `next`
    from a starting node down to END. */
module Links {

  /** Nodes are identified by number; node 0 is the END sentinel. */
  type Node = nat

  const END: Node := 0

  const TWO_31: int := 0x8000_0000
  const TWO_32: int := 0x1_0000_0000

  /** Java `int` arithmetic: the two's complement value congruent to `x`
      modulo 2^32. */
  function WrapInt(x: int): (r: int)
    ensures -TWO_31 <= r < TWO_31
    ensures (r - x) % TWO_32 == 0
  {
    (x + TWO_31) % TWO_32 - TWO_31
  }

  /** Values that already fit in an `int` are left alone. */
  lemma WrapIntSmall(x: int)
    requires -TWO_31 <= x < TWO_31
    ensures WrapInt(x) == x
  {
  }

  /** Adding one to an already wrapped value is the same as wrapping the
      successor: a chain of `count = prev.count + 1` assignments computes the
      length modulo 2^32. */
  lemma WrapIntIncrement(x: int)
    ensures WrapInt(WrapInt(x) + 1) == WrapInt(x + 1)
  {
  }

  /** The fields of every node. A node absent from `next` still has
      `next == null` (it has never been linked); a node absent from `count`
      has Java's default count 0. */
  datatype Heap = Heap(next: map<Node, Node>, count: map<Node, int>)

  /** `next` has been set: the node has been published at some point. */
  predicate Linked(h: Heap, n: Node)
  {
    n in h.next
  }

  function Count(h: Heap, n: Node): int
  {
    if n in h.count then h.count[n] else 0
  }

  /** END's `next` is END itself and its count is the default 0. */
  ghost predicate WellFormed(h: Heap)
  {
    && END in h.next
    && h.next[END] == END
    && Count(h, END) == 0
  }

  /** The heap before any node has been pushed: only END exists. */
  function InitialHeap(): (h: Heap)
    ensures WellFormed(h)
    ensures forall n :: Linked(h, n) <==> n == END
  {
    Heap(map[END := END], map[])
  }

  /** The heaps agree on every node other than `n`. */
  ghost predicate SameExcept(h: Heap, h': Heap, n: Node)
  {
    && (forall m :: m != n ==> (m in h'.next <==> m in h.next))
    && (forall m :: m in h.next && m in h'.next && m != n ==> h'.next[m] == h.next[m])
    && (forall m :: m != n ==> Count(h', m) == Count(h, m))
  }

  /** The first node of a chain, or END for the empty chain. */
  function FirstOr(s: seq<Node>): Node
  {
    if s == [] then END else s[0]
  }

  /** Following `next` from `start` visits exactly the non-END nodes of `s`,
      in order, and then reaches END. */
  ghost predicate ChainFrom(next: map<Node, Node>, start: Node, s: seq<Node>)
    decreases |s|
  {
    if s == [] then start == END
    else
      && start == s[0]
      && start != END
      && start in next
      && ChainFrom(next, next[start], s[1..])
  }

  /** Every node on a chain is linked and is not END. */
  lemma {:induction false} ChainInDomain(next: map<Node, Node>, start: Node, s: seq<Node>)
    requires ChainFrom(next, start, s)
    ensures forall i :: 0 <= i < |s| ==> s[i] in next && s[i] != END
    decreases |s|
  {
    if s != [] {
      ChainInDomain(next, next[start], s[1..]);
      assert forall i :: 1 <= i < |s| ==> s[i] == s[1..][i - 1];
    }
  }

  /** Re-linking a node that is not on a chain leaves the chain intact. */
  lemma {:induction false} ChainFrame(next: map<Node, Node>, start: Node, s: seq<Node>, n: Node, v: Node)
    requires ChainFrom(next, start, s)
    requires n !in s
    ensures ChainFrom(next[n := v], start, s)
    decreases |s|
  {
    if s != [] {
      assert n != s[0];
      assert n !in s[1..];
      ChainFrame(next, next[start], s[1..], n, v);
    }
  }

  /** A chain survives any change of links that leaves its own nodes'
      `next` alone. */
  lemma {:induction false} ChainSurvives(next: map<Node, Node>, next': map<Node, Node>, start: Node, t: seq<Node>, s: seq<Node>)
    requires ChainFrom(next, start, t)
    requires forall m :: m in next && m !in s ==> m in next' && next'[m] == next[m]
    requires forall i :: 0 <= i < |t| ==> t[i] !in s
    ensures ChainFrom(next', start, t)
    decreases |t|
  {
    if t != [] {
      assert t[0] !in s;
      forall i | 0 <= i < |t[1..]|
        ensures t[1..][i] !in s
      {
        assert t[1..][i] == t[i + 1];
      }
      ChainSurvives(next, next', next[start], t[1..], s);
    }
  }

  /** The chain from a node is determined by the node: the abstraction is a
      function of the heap. */
  lemma {:induction false} ChainUnique(next: map<Node, Node>, start: Node, s1: seq<Node>, s2: seq<Node>)
    requires ChainFrom(next, start, s1)
    requires ChainFrom(next, start, s2)
    ensures s1 == s2
    decreases |s1|
  {
    if s1 != [] && s2 != [] {
      ChainUnique(next, next[start], s1[1..], s2[1..]);
      assert s1 == [s1[0]] + s1[1..];
      assert s2 == [s2[0]] + s2[1..];
    }
  }

  /** Every suffix of a chain is the chain from its first node. */
  lemma {:induction false} ChainSuffix(next: map<Node, Node>, start: Node, s: seq<Node>, k: nat)
    requires ChainFrom(next, start, s)
    requires k <= |s|
    ensures ChainFrom(next, FirstOr(s[k..]), s[k..])
    decreases k
  {
    if k == 0 {
      assert s[0..] == s;
    } else {
      ChainSuffix(next, next[start], s[1..], k - 1);
      assert s[1..][k - 1..] == s[k..];
    }
  }

  /** No element occurs twice. */
  ghost predicate Distinct<T>(s: seq<T>)
  {
    forall i, j :: 0 <= i < j < |s| ==> s[i] != s[j]
  }

  /** A chain that ends at END never visits a node twice. */
  lemma ChainDistinct(next: map<Node, Node>, start: Node, s: seq<Node>)
    requires ChainFrom(next, start, s)
    ensures Distinct(s)
  {
    forall i, j | 0 <= i < j < |s|
      ensures s[i] != s[j]
    {
      ChainSuffix(next, start, s, i);
      ChainSuffix(next, start, s, j);
      if s[i] == s[j] {
        ChainUnique(next, s[i], s[i..], s[j..]);
      }
    }
  }

  /** The reversal of a sequence, characterised element by element. */
  function Rev<T>(s: seq<T>): (r: seq<T>)
    ensures |r| == |s|
    ensures forall i :: 0 <= i < |s| ==> r[i] == s[|s| - 1 - i]
  {
    if s == [] then [] else Rev(s[1..]) + [s[0]]
  }

  /** Reversing twice gives back the original order. */
  lemma RevRev<T>(s: seq<T>)
    ensures Rev(Rev(s)) == s
  {
  }

  /** Reversal keeps exactly the same elements. */
  lemma RevMembers<T>(s: seq<T>)
    ensures forall x :: x in Rev(s) <==> x in s
  {
  }
}
