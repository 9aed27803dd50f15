/** The Huffman tree. A node is a leaf holding one character or an
    internal node with exactly two children; the frequencies the Java
    `Node` carries matter only while the tree is built, so they live in a
    separate `FreqTree` that `Shape` strips. */
module Trees {
  import opened Basics

  datatype Tree = Leaf(sym: Char16) | Node(left: Tree, right: Tree)

  /** The leaf characters, left to right. */
  function Leaves(t: Tree): (cs: seq<Char16>)
    ensures |cs| > 0
  {
    match t
    case Leaf(c) => [c]
    case Node(l, r) => Leaves(l) + Leaves(r)
  }

  /** No character labels two leaves. */
  ghost predicate UniqueLeaves(t: Tree) {
    forall c :: multiset(Leaves(t))[c] <= 1
  }

  lemma UniqueChildren(l: Tree, r: Tree)
    requires UniqueLeaves(Node(l, r))
    ensures UniqueLeaves(l) && UniqueLeaves(r)
    ensures forall c :: c in Leaves(l) ==> c !in Leaves(r)
  {
    var ml, mr := multiset(Leaves(l)), multiset(Leaves(r));
    assert multiset(Leaves(Node(l, r))) == ml + mr;
    forall c ensures ml[c] <= 1 && mr[c] <= 1 && (c in Leaves(l) ==> c !in Leaves(r)) {
      assert multiset(Leaves(Node(l, r)))[c] == ml[c] + mr[c];
    }
  }

  /** A tree whose leaves are pairwise distinct has as many distinct
      characters as leaves: exactly one for a leaf, at least two otherwise. */
  lemma {:induction false} SymbolCount(t: Tree)
    requires UniqueLeaves(t)
    ensures t.Leaf? <==> |set c | c in Leaves(t)| == 1
  {
    var cs := set c | c in Leaves(t);
    match t
    case Leaf(a) =>
      assert cs == {a};
    case Node(l, r) =>
      UniqueChildren(l, r);
      var a, b := Leaves(l)[0], Leaves(r)[0];
      assert a in cs && b in cs && a != b;
      assert a in cs - {b};
      assert |cs - {b}| == |cs| - 1;
  }

  /** A tree node as `builtTree` handles it: with its frequency. */
  datatype FreqTree =
    | FreqLeaf(elem: Char16, freq: nat)
    | FreqNode(freq: nat, left: FreqTree, right: FreqTree)

  function Shape(t: FreqTree): (s: Tree)
    ensures t.FreqLeaf? <==> s.Leaf?
  {
    match t
    case FreqLeaf(c, _) => Leaf(c)
    case FreqNode(_, l, r) => Node(Shape(l), Shape(r))
  }

  /** The frequency invariant of a tree built from `text`: a leaf's
      frequency is the number of occurrences of its character, an internal
      node's frequency is the sum of its children's. */
  ghost predicate Weighted(t: FreqTree, text: Text) {
    match t
    case FreqLeaf(c, f) => f == multiset(text)[c]
    case FreqNode(f, l, r) => f == l.freq + r.freq && Weighted(l, text) && Weighted(r, text)
  }

  /** The leaf characters of a queue of trees, as a multiset. */
  function Bag(q: seq<FreqTree>): multiset<Char16> {
    if q == [] then multiset{} else multiset(Leaves(Shape(q[0]))) + Bag(q[1..])
  }

  lemma {:induction false} BagAppend(a: seq<FreqTree>, b: seq<FreqTree>)
    ensures Bag(a + b) == Bag(a) + Bag(b)
  {
    if a == [] {
      assert a + b == b;
    } else {
      assert (a + b)[1..] == a[1..] + b;
      BagAppend(a[1..], b);
    }
  }

  /** Taking element `k` out of a queue takes its leaves out of the bag. */
  lemma BagRemove(q: seq<FreqTree>, k: nat)
    requires k < |q|
    ensures Bag(q) == Bag(q[..k] + q[k + 1..]) + multiset(Leaves(Shape(q[k])))
  {
    var front, back := q[..k], q[k + 1..];
    Split(q, k);
    BagAppend(front, [q[k]] + back);
    BagAppend(front, back);
    BagCons(q[k], back);
  }

  lemma Split(q: seq<FreqTree>, k: nat)
    requires k < |q|
    ensures q == q[..k] + ([q[k]] + q[k + 1..])
  {
  }

  lemma BagCons(t: FreqTree, q: seq<FreqTree>)
    ensures Bag([t] + q) == multiset(Leaves(Shape(t))) + Bag(q)
  {
    assert ([t] + q)[1..] == q;
  }
}
