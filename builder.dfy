/** `builtTree`: count the in-range characters of the text, queue one leaf
    per distinct character, and merge the two lowest-frequency trees until
    one is left. Which of several equal-frequency trees the Java
    `PriorityQueue` hands out first depends on `HashMap` iteration and heap
    sifting inside the Java library; here any minimum may be taken, so every
    result stated below holds whatever the tie-break. */
module TreeBuilder {
  import opened Basics
  import opened Trees

  /** The counting loop: one entry per distinct in-range character, holding
      its number of occurrences. */
  method CountFrequencies(text: Text) returns (f: map<Char16, nat>)
    ensures f.Keys == Symbols(text)
    ensures forall c :: c in f ==> f[c] == multiset(text)[c]
  {
    f := map[];
    var i := 0;
    while i < |text|
      invariant 0 <= i <= |text|
      invariant f.Keys == Symbols(text[..i])
      invariant forall c :: c in f ==> f[c] == multiset(text[..i])[c]
    {
      var c := text[i];
      assert text[..i + 1] == text[..i] + [c];
      if InRange(c) {
        var old_count := if c in f then f[c] else 0;
        f := f[c := old_count + 1];
      }
      i := i + 1;
    }
    assert text[..i] == text;
  }

  /** What `PriorityQueue.poll` picks: the index of a tree whose frequency
      no other tree in the queue undercuts. */
  method PollMin(q: seq<FreqTree>) returns (k: nat)
    requires |q| > 0
    ensures k < |q|
    ensures forall j :: 0 <= j < |q| ==> q[k].freq <= q[j].freq
  {
    k := 0;
    var i := 1;
    while i < |q|
      invariant k < i <= |q|
      invariant forall j :: 0 <= j < i ==> q[k].freq <= q[j].freq
    {
      if q[i].freq < q[k].freq {
        k := i;
      }
      i := i + 1;
    }
  }

  /** The invariant of the merge loop: every queued tree carries correct
      frequencies, and the queued leaves are the in-range characters of the
      text, each exactly once. */
  ghost predicate QueueInvariant(q: seq<FreqTree>, text: Text) {
    (forall t :: t in q ==> Weighted(t, text)) && Bag(q) == multiset(Symbols(text))
  }

  /** Removes element `k` of the queue, as `poll` does. */
  function Without(q: seq<FreqTree>, k: nat): (r: seq<FreqTree>)
    requires k < |q|
    ensures |r| == |q| - 1
    ensures forall t :: t in r ==> t in q
  {
    q[..k] + q[k + 1..]
  }

  /** The loop over `f.keySet()`: one leaf per key, in whatever order the
      map hands its keys out. */
  method QueueLeaves(f: map<Char16, nat>, text: Text) returns (q: seq<FreqTree>)
    requires f.Keys == Symbols(text)
    requires forall c :: c in f ==> f[c] == multiset(text)[c]
    ensures QueueInvariant(q, text)
    ensures |q| == |f.Keys|
  {
    q := [];
    var keys := f.Keys;
    while keys != {}
      invariant Queued(q, keys, f.Keys, text)
      decreases keys
    {
      var c :| c in keys;
      QueueLeaf(q, keys, f.Keys, c, f[c], text);
      q := q + [FreqLeaf(c, f[c])];
      keys := keys - {c};
    }
    assert f.Keys - keys == f.Keys;
  }

  /** The invariant of the leaf loop: the characters of `all` not left in
      `keys` are queued, each as one correctly weighted leaf. */
  ghost predicate Queued(q: seq<FreqTree>, keys: set<Char16>, all: set<Char16>, text: Text) {
    keys <= all &&
    (forall t :: t in q ==> Weighted(t, text)) &&
    Bag(q) == multiset(all - keys) &&
    |q| + |keys| == |all|
  }

  /** Queueing the leaf of one more character keeps the loop invariant. */
  lemma QueueLeaf(q: seq<FreqTree>, keys: set<Char16>, all: set<Char16>, c: Char16, n: nat, text: Text)
    requires Queued(q, keys, all, text) && c in keys && n == multiset(text)[c]
    ensures Queued(q + [FreqLeaf(c, n)], keys - {c}, all, text)
  {
    var leaf := FreqLeaf(c, n);
    var q', keys' := q + [leaf], keys - {c};
    assert forall t :: t in q' ==> Weighted(t, text) by {
      forall t | t in q' ensures Weighted(t, text) {
        if t != leaf {
          assert t in q;
        }
      }
    }
    BagLeaf(q, c, n);
    OneMore(all, keys, c);
  }

  lemma BagLeaf(q: seq<FreqTree>, c: Char16, n: nat)
    ensures Bag(q + [FreqLeaf(c, n)]) == Bag(q) + multiset{c}
  {
    BagAppend(q, [FreqLeaf(c, n)]);
    assert Bag([FreqLeaf(c, n)]) == multiset{c};
  }

  /** Taking `c` out of the keys still to visit adds it to those visited. */
  lemma OneMore(all: set<Char16>, keys: set<Char16>, c: Char16)
    requires keys <= all && c in keys
    ensures multiset(all - (keys - {c})) == multiset(all - keys) + multiset{c}
    ensures |keys - {c}| == |keys| - 1
  {
    assert all - (keys - {c}) == (all - keys) + {c};
  }

  /** The `while (tree.size() > 1)` loop: poll two minimum-frequency trees
      and queue their sum. The Java `right != null` test always holds,
      because the queue held at least two trees. */
  method Merge(q0: seq<FreqTree>, ghost text: Text) returns (q: seq<FreqTree>)
    requires QueueInvariant(q0, text)
    ensures QueueInvariant(q, text)
    ensures |q| <= 1 && (q == [] <==> q0 == [])
  {
    q := q0;
    while |q| > 1
      invariant QueueInvariant(q, text)
      invariant q == [] <==> q0 == []
      decreases |q|
    {
      var i := PollMin(q);
      var left := q[i];
      var rest := Without(q, i);
      var j := PollMin(rest);
      var right := rest[j];
      var sum := FreqNode(left.freq + right.freq, left, right);
      MergeStep(q, i, rest, j, sum, text);
      q := Without(rest, j) + [sum];
    }
  }

  /** Polling two trees and queueing their sum keeps the queue invariant. */
  lemma MergeStep(q: seq<FreqTree>, i: nat, rest: seq<FreqTree>, j: nat, sum: FreqTree, text: Text)
    requires QueueInvariant(q, text)
    requires i < |q| && rest == Without(q, i) && j < |rest|
    requires sum == FreqNode(q[i].freq + rest[j].freq, q[i], rest[j])
    ensures QueueInvariant(Without(rest, j) + [sum], text)
  {
    var w := Without(rest, j);
    assert Weighted(sum, text) by {
      assert q[i] in q && rest[j] in q;
    }
    forall t | t in w + [sum] ensures Weighted(t, text) {
      if t != sum {
        assert t in w;
      }
    }
    var a, b := multiset(Leaves(Shape(q[i]))), multiset(Leaves(Shape(rest[j])));
    BagRemove(q, i);
    BagRemove(rest, j);
    BagAppend(w, [sum]);
    assert Bag([sum]) == a + b by {
      assert [sum][1..] == [];
      assert Leaves(Shape(sum)) == Leaves(Shape(q[i])) + Leaves(Shape(rest[j]));
    }
    assert Bag(w + [sum]) == Bag(q) by {
      assert Bag(w) + (a + b) == (Bag(w) + b) + a;
    }
  }

  /** The one tree left in the queue holds every in-range character once. */
  lemma LastTree(t: FreqTree, text: Text)
    requires QueueInvariant([t], text)
    ensures Weighted(t, text) && UniqueLeaves(Shape(t))
    ensures (set c | c in Leaves(Shape(t))) == Symbols(text)
    ensures multiset(Leaves(Shape(t))) == multiset(Symbols(text))
  {
    assert Bag([t]) == multiset(Leaves(Shape(t)));
    forall c ensures multiset(Leaves(Shape(t)))[c] <= 1 {
      assert multiset(Symbols(text))[c] <= 1;
    }
    assert forall c :: c in Leaves(Shape(t)) <==> c in multiset(Symbols(text));
  }

  /** `builtTree`. An empty text is rejected before anything is counted; a
      text without in-range characters leaves the queue empty, and the Java
      `peek` then returns null (`None` here). Otherwise the result is one
      tree whose leaves are exactly the distinct in-range characters, each
      once, with the frequency invariant at every node. */
  method BuiltTree(text: Text) returns (r: Result<Option<FreqTree>>)
    ensures text == [] <==> r == Err(IllegalArgument)
    ensures text != [] ==> r.Ok?
    ensures r.Ok? ==> (r.value.None? <==> Symbols(text) == {})
    ensures r.Ok? && r.value.Some? ==>
      var t := r.value.value;
      Weighted(t, text) && UniqueLeaves(Shape(t)) &&
      (set c | c in Leaves(Shape(t))) == Symbols(text) &&
      |Leaves(Shape(t))| == |Symbols(text)|
  {
    if |text| == 0 {
      return Err(IllegalArgument);
    }
    var f := CountFrequencies(text);
    var q := QueueLeaves(f, text);
    q := Merge(q, text);
    if q == [] {
      return Ok(None);
    }
    assert q == [q[0]];
    LastTree(q[0], text);
    assert |multiset(Leaves(Shape(q[0])))| == |Leaves(Shape(q[0]))|;
    assert |multiset(Symbols(text))| == |Symbols(text)|;
    return Ok(Some(q[0]));
  }
}
