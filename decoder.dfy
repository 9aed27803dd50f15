/** `decode`: walk the tree bit by bit from the root ('0' = left,
    '1' = right), emit the character of every leaf reached and restart at
    the root. A walk left unfinished when the bits run out is dropped. */
module Decoder {
  import opened Basics
  import opened Trees
  import opened CodeTable

  /** `prefix` followed by the decoded text, or the failure unchanged. */
  function Glue(prefix: Text, r: Result<Text>): Result<Text> {
    match r
    case Ok(t) => Ok(prefix + t)
    case Err(e) => Err(e)
  }

  /** What `decode` produces from the bits `code` when it stands at node
      `curr` of the tree rooted at `root`. Stepping from a leaf reads one of
      its null children, and the leaf test that follows dereferences it:
      that is the `NullPointer` case, reachable only when the root itself
      is a leaf. */
  function Walk(root: Tree, curr: Tree, code: Bits): (r: Result<Text>)
    ensures code == [] ==> r == Ok([])
    ensures r.Ok? ==> |r.value| <= |code|
    ensures code != [] && curr.Leaf? ==> r == Err(NullPointer)
    ensures r.Err? ==> r.failure == NullPointer && code != [] && (curr.Leaf? || root.Leaf?)
    decreases |code|
  {
    if code == [] then Ok([])
    else
      match curr
      case Leaf(_) => Err(NullPointer)
      case Node(l, r) =>
        var next := if !code[0] then l else r;
        if next.Leaf? then Glue([next.sym], Walk(root, root, code[1..]))
        else Walk(root, next, code[1..])
  }

  /** The loop of `decode`. */
  method Decode(root: Tree, code: Bits) returns (r: Result<Text>)
    ensures r == Walk(root, root, code)
  {
    var text: Text := [];
    var curr := root;
    var i := 0;
    assert code[i..] == code;
    GlueEmpty(Walk(root, root, code));
    while i < |code|
      invariant 0 <= i <= |code|
      invariant Glue(text, Walk(root, curr, code[i..])) == Walk(root, root, code)
    {
      assert code[i..][1..] == code[i + 1..];
      match curr
      case Leaf(_) =>
        // `curr.left` / `curr.right` is null and is dereferenced next.
        return Err(NullPointer);
      case Node(l, rt) =>
        curr := if !code[i] then l else rt;
        if curr.Leaf? {
          assert text + ([curr.sym] + []) == text + [curr.sym];
          GlueAssoc(text, [curr.sym], Walk(root, root, code[i + 1..]));
          text := text + [curr.sym];
          curr := root;
        }
      i := i + 1;
    }
    assert Walk(root, curr, code[i..]) == Ok([]);
    assert text + [] == text;
    return Ok(text);
  }

  lemma GlueEmpty(r: Result<Text>)
    ensures Glue([], r) == r
  {
    if r.Ok? {
      assert [] + r.value == r.value;
    }
  }

  lemma GlueAssoc(a: Text, b: Text, r: Result<Text>)
    ensures Glue(a, Glue(b, r)) == Glue(a + b, r)
  {
    if r.Ok? {
      assert a + (b + r.value) == (a + b) + r.value;
    }
  }

  /** Following a character's path from an internal node reaches its leaf:
      the character is emitted and the walk restarts at the root. */
  lemma {:induction false} WalkPath(root: Tree, sub: Tree, c: Char16, rest: Bits)
    requires sub.Node? && UniqueLeaves(sub) && c in Leaves(sub)
    ensures Walk(root, sub, PathIn(sub, c) + rest) == Glue([c], Walk(root, root, rest))
  {
    var l, r := sub.left, sub.right;
    UniqueChildren(l, r);
    var b := c !in Leaves(l);
    var child := if b then r else l;
    var p := PathIn(child, c);
    assert PathIn(sub, c) == [b] + p;
    ConcatAssoc([b], p, rest);
    WalkStep(root, l, r, b, p + rest);
    if child.Leaf? {
      assert p + rest == rest;
    } else {
      WalkPath(root, child, c, rest);
    }
  }

  /** One step of the walk from an internal node. */
  lemma WalkStep(root: Tree, l: Tree, r: Tree, b: bool, code: Bits)
    ensures Walk(root, Node(l, r), [b] + code) ==
      var next := if !b then l else r;
      if next.Leaf? then Glue([next.sym], Walk(root, root, code))
      else Walk(root, next, code)
  {
    assert ([b] + code)[1..] == code;
  }

  /** Decoding the encoding of a text over the leaves of a tree with at
      least two leaves, all distinct, gives the text back. */
  lemma {:induction false} WalkEncoding(t: Tree, text: Text)
    requires t.Node? && UniqueLeaves(t)
    requires forall c :: c in text ==> c in Leaves(t) && InRange(c)
    ensures forall c :: c in text ==> c in Codes(t)
    ensures Walk(t, t, Encoding(Codes(t), text)) == Ok(text)
  {
    forall c | c in Leaves(t) ensures c in Codes(t) && Codes(t)[c] == PathIn(t, c) {
      CodeIsPath(t, [], c);
      assert [] + PathIn(t, c) == PathIn(t, c);
    }
    WalkPaths(t, Codes(t), text);
  }

  /** `WalkEncoding` for any table that maps each leaf to its path. */
  lemma {:induction false} WalkPaths(t: Tree, codes: map<Char16, Bits>, text: Text)
    requires t.Node? && UniqueLeaves(t)
    requires forall c :: c in text ==> c in Leaves(t) && InRange(c)
    requires forall c :: c in Leaves(t) ==> c in codes && codes[c] == PathIn(t, c)
    ensures Walk(t, t, Encoding(codes, text)) == Ok(text)
  {
    if text != [] {
      var c, rest := text[0], text[1..];
      assert c in text;
      assert forall x :: x in rest ==> x in text;
      WalkPaths(t, codes, rest);
      assert Encoding(codes, text) == PathIn(t, c) + Encoding(codes, rest);
      WalkPath(t, t, c, Encoding(codes, rest));
      assert [c] + rest == text;
    }
  }

  /** The round trip of `decodeString` for a tree whose leaves are exactly
      the in-range characters of the text and that has at least two leaves:
      the text comes back with the characters of code 128 and above
      removed. */
  lemma DecodeRoundTrip(t: Tree, text: Text)
    requires t.Node? && UniqueLeaves(t) && (set c | c in Leaves(t)) == Symbols(text)
    ensures forall c :: c in text && InRange(c) ==> c in Codes(t)
    ensures Walk(t, t, Encoding(Codes(t), text)) == Ok(Filter(text))
  {
    forall c | c in Filter(text) ensures c in Leaves(t) && InRange(c) {
      assert c in Symbols(text);
    }
    WalkEncoding(t, Filter(text));
    EncodingIgnoresOutOfRange(Codes(t), text);
  }

  /** As written, a root that is a leaf cannot decode anything: a text of
      one distinct in-range character is encoded as one '1' per character,
      and decoding the first bit dereferences the root's null child. */
  lemma {:induction false} SingleLeafRoundTripFails(c: Char16, text: Text)
    requires InRange(c) && c in text && forall x :: x in text ==> x == c
    ensures Walk(Leaf(c), Leaf(c), Encoding(Codes(Leaf(c)), text)) == Err(NullPointer)
  {
    SingleSymbolEncoding(c, text);
    assert |text| > 0;
  }

  /** The evident intention for a root that is a leaf: its code "1" stands
      for one occurrence of its character, so every bit emits it. Trees with
      two or more leaves decode as before. */
  function DecodeCorrected(root: Tree, code: Bits): Result<Text> {
    if root.Leaf? then Ok(seq(|code|, _ => root.sym))
    else Walk(root, root, code)
  }

  /** With the correction the round trip holds for every tree built from a
      text, a single leaf included. */
  lemma CorrectedRoundTrip(t: Tree, text: Text)
    requires UniqueLeaves(t) && (set c | c in Leaves(t)) == Symbols(text)
    ensures forall c :: c in text && InRange(c) ==> c in Codes(t)
    ensures DecodeCorrected(t, Encoding(Codes(t), text)) == Ok(Filter(text))
  {
    match t
    case Node(_, _) =>
      DecodeRoundTrip(t, text);
    case Leaf(c) =>
      var f := Filter(text);
      assert c in (set x | x in Leaves(t));
      assert c in Symbols(text);
      forall x | x in f ensures x == c {
        assert x in Symbols(text);
      }
      EncodingIgnoresOutOfRange(Codes(t), text);
      SingleSymbolEncoding(c, f);
      assert seq(|f|, _ => c) == f;
  }
}
