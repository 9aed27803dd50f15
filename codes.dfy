/** `codeChars` and the encode loop of `codeString` / `huffman`: every leaf
    gets its root-to-leaf path as its code (left = '0', right = '1'; a root
    that is itself a leaf gets "1"), and a text is encoded by concatenating
    the codes of its in-range characters. */
module CodeTable {
  import opened Basics
  import opened Trees

  /** `codeChars(codes, node, s)` started on an empty map: a pre-order walk
      that puts each leaf's path. A later `put` of the same character
      overwrites an earlier one, which is what the right-biased map union
      does. */
  function CodeChars(t: Tree, path: Bits): (codes: map<Char16, Bits>)
    ensures codes.Keys == set c | c in Leaves(t)
    ensures forall c :: c in codes ==> |codes[c]| > 0 && IsPrefix(path, codes[c])
    ensures forall c :: c in codes && t.Node? ==> |codes[c]| > |path|
    ensures forall c :: c in codes ==> |codes[c]| <= |path| + |Leaves(t)|
  {
    match t
    case Leaf(c) => map[c := if |path| > 0 then path else [true]]
    case Node(l, r) =>
      var ml, mr := CodeChars(l, path + [false]), CodeChars(r, path + [true]);
      PrefixOfExtension(path, false, ml);
      PrefixOfExtension(path, true, mr);
      ml + mr
  }

  /** A code below `path + [b]` is also below `path`. */
  lemma PrefixOfExtension(path: Bits, b: bool, codes: map<Char16, Bits>)
    requires forall c :: c in codes ==> IsPrefix(path + [b], codes[c])
    ensures forall c :: c in codes ==> IsPrefix(path, codes[c]) && |codes[c]| > |path|
  {
    forall c | c in codes
      ensures IsPrefix(path, codes[c])
    {
      assert codes[c][..|path|] == codes[c][..|path| + 1][..|path|];
    }
  }

  /** The code table of a whole tree. */
  function Codes(t: Tree): (codes: map<Char16, Bits>)
    ensures codes.Keys == set c | c in Leaves(t)
    ensures forall c :: c in codes ==> 0 < |codes[c]| <= |Leaves(t)|
    ensures PrefixFree(codes)
  {
    CodesPrefixFree(t, []);
    CodeChars(t, [])
  }

  predicate IsPrefix(a: Bits, b: Bits) {
    |a| <= |b| && b[..|a|] == a
  }

  /** No code in the table is a prefix of another character's code. */
  ghost predicate PrefixFree(codes: map<Char16, Bits>) {
    forall c, d :: c in codes && d in codes && c != d ==> !IsPrefix(codes[c], codes[d])
  }

  /** Codes assigned below different edges differ at the edge's position,
      so neither is a prefix of the other. */
  lemma DivergentCodes(a: Bits, b: Bits, k: nat)
    requires |a| > k && |b| > k && a[k] != b[k]
    ensures !IsPrefix(a, b) && !IsPrefix(b, a)
  {
  }

  /** The table `codeChars` builds is prefix-free, whatever the tree. */
  lemma {:induction false} CodesPrefixFree(t: Tree, path: Bits)
    ensures PrefixFree(CodeChars(t, path))
  {
    match t
    case Leaf(_) =>
    case Node(l, r) =>
      var ml, mr := CodeChars(l, path + [false]), CodeChars(r, path + [true]);
      CodesPrefixFree(l, path + [false]);
      CodesPrefixFree(r, path + [true]);
      var m := ml + mr;
      forall c, d | c in m && d in m && c != d
        ensures !IsPrefix(m[c], m[d])
      {
        if (c in mr) != (d in mr) {
          var k := |path|;
          assert IsPrefix(path + [false], (if c in mr then m[d] else m[c]));
          assert IsPrefix(path + [true], (if c in mr then m[c] else m[d]));
          assert (path + [false])[k] != (path + [true])[k];
          DivergentCodes(m[c], m[d], k);
        }
      }
  }

  /** The path from the root of `t` down to the leaf holding `c`. */
  function PathIn(t: Tree, c: Char16): (p: Bits)
    requires c in Leaves(t)
    ensures t.Node? ==> |p| > 0
  {
    match t
    case Leaf(_) => []
    case Node(l, r) =>
      if c in Leaves(l) then [false] + PathIn(l, c) else [true] + PathIn(r, c)
  }

  /** In a tree with distinct leaves, a character's code is its
      root-to-leaf path (below the starting prefix); only a root that is a
      leaf falls back to "1". */
  lemma {:induction false} CodeIsPath(t: Tree, path: Bits, c: Char16)
    requires UniqueLeaves(t) && c in Leaves(t)
    ensures CodeChars(t, path)[c] ==
      if t.Leaf? && path == [] then [true] else path + PathIn(t, c)
  {
    match t
    case Leaf(_) =>
    case Node(l, r) =>
      UniqueChildren(l, r);
      var b := c !in Leaves(l);
      var child := if b then r else l;
      var below := path + [b];
      var mc := CodeChars(child, below);
      assert CodeChars(t, path)[c] == mc[c] by {
        if !b {
          assert c !in CodeChars(r, path + [true]);
        }
      }
      assert PathIn(t, c) == [b] + PathIn(child, c);
      if child.Node? {
        CodeIsPath(child, below, c);
      } else {
        assert PathIn(child, c) == [];
      }
      ConcatAssoc(path, [b], PathIn(child, c));
  }

  /** The encode loop's result: the codes of the in-range characters of
      `text`, in text order; other characters contribute nothing. */
  function Encoding(codes: map<Char16, Bits>, text: Text): (bits: Bits)
    requires forall c :: c in text && InRange(c) ==> c in codes
    ensures |bits| == CodeLength(codes, text)
  {
    if text == [] then []
    else (if InRange(text[0]) then codes[text[0]] else []) + Encoding(codes, text[1..])
  }

  lemma {:induction false} EncodingAppend(codes: map<Char16, Bits>, a: Text, b: Text)
    requires forall c :: c in a + b && InRange(c) ==> c in codes
    ensures Encoding(codes, a + b) == Encoding(codes, a) + Encoding(codes, b)
  {
    if a == [] {
      assert a + b == b;
    } else {
      assert (a + b)[1..] == a[1..] + b;
      EncodingAppend(codes, a[1..], b);
    }
  }

  /** Dropping the out-of-range characters first changes nothing. */
  lemma {:induction false} EncodingIgnoresOutOfRange(codes: map<Char16, Bits>, text: Text)
    requires forall c :: c in text && InRange(c) ==> c in codes
    ensures Encoding(codes, text) == Encoding(codes, Filter(text))
  {
    if text != [] {
      EncodingIgnoresOutOfRange(codes, text[1..]);
      var head := if InRange(text[0]) then [text[0]] else [];
      EncodingAppend(codes, head, Filter(text[1..]));
      if InRange(text[0]) {
        assert ([text[0]] + Filter(text[1..]))[1..] == Filter(text[1..]);
      } else {
        assert head + Filter(text[1..]) == Filter(text[1..]);
      }
    }
  }

  /** The length of an encoding is the sum of the lengths of the codes of
      the in-range characters. */
  function CodeLength(codes: map<Char16, Bits>, text: Text): nat
    requires forall c :: c in text && InRange(c) ==> c in codes
  {
    if text == [] then 0
    else (if InRange(text[0]) then |codes[text[0]]| else 0) + CodeLength(codes, text[1..])
  }

  /** When no code is longer than `k` bits, no encoding is longer than
      `k` bits per character. */
  lemma {:induction false} EncodingBound(codes: map<Char16, Bits>, text: Text, k: nat)
    requires forall c :: c in text && InRange(c) ==> c in codes
    requires forall c :: c in codes ==> |codes[c]| <= k
    ensures |Encoding(codes, text)| <= k * |text|
  {
    if text != [] {
      var rest := text[1..];
      assert forall c :: c in rest ==> c in text;
      EncodingBound(codes, rest, k);
      var head := if InRange(text[0]) then codes[text[0]] else [];
      assert |Encoding(codes, text)| == |head| + |Encoding(codes, rest)|;
      MulStep(k, |rest|);
    }
  }

  lemma MulStep(k: nat, n: nat)
    ensures k * (n + 1) == k + k * n
  {
  }

  /** A text made of one in-range character, whose tree is a single leaf,
      encodes to one '1' per character. */
  lemma {:induction false} SingleSymbolEncoding(c: Char16, text: Text)
    requires InRange(c) && forall x :: x in text ==> x == c
    ensures Encoding(Codes(Leaf(c)), text) == seq(|text|, _ => true)
  {
    if text != [] {
      assert text[0] in text;
      assert forall x :: x in text[1..] ==> x in text;
      SingleSymbolEncoding(c, text[1..]);
    }
  }

  /** The encode loop of `codeString` and `huffman`: append the code of
      every in-range character, in text order. */
  method EncodeText(codes: map<Char16, Bits>, text: Text) returns (code: Bits)
    requires forall c :: c in text && InRange(c) ==> c in codes
    ensures code == Encoding(codes, text)
  {
    code := [];
    var i := 0;
    while i < |text|
      invariant 0 <= i <= |text|
      invariant code == Encoding(codes, text[..i])
    {
      var c := text[i];
      assert text[..i + 1] == text[..i] + [c];
      EncodingAppend(codes, text[..i], [c]);
      if InRange(c) {
        code := code + codes[c];
      }
      i := i + 1;
    }
    assert text[..i] == text;
  }

  /** The tree ((E, n), (l, g)), one of those `builtTree` may build for
      "Engl", where all four frequencies tie. */
  function EnglTree(): Tree {
    Node(Node(Leaf(69), Leaf(110)), Node(Leaf(108), Leaf(103)))
  }

  /** Under ((E, n), (l, g)): E = "00", n = "01", l = "10", g = "11". */
  lemma EnglCodes()
    ensures var codes := Codes(EnglTree());
      codes.Keys == {69, 110, 108, 103} &&
      codes[69] == [false, false] && codes[110] == [false, true] &&
      codes[108] == [true, false] && codes[103] == [true, true]
  {
    EnglHalves();
    EnglTable(Codes(EnglTree()));
  }

  lemma EnglTable(codes: map<Char16, Bits>)
    requires codes ==
      map[69 := [false, false], 110 := [false, true]] + map[108 := [true, false], 103 := [true, true]]
    ensures codes.Keys == {69, 110, 108, 103}
    ensures codes[69] == [false, false] && codes[110] == [false, true]
    ensures codes[108] == [true, false] && codes[103] == [true, true]
  {
    var ml: map<Char16, Bits> := map[69 := [false, false], 110 := [false, true]];
    var mr: map<Char16, Bits> := map[108 := [true, false], 103 := [true, true]];
    UnionLookup(ml, mr, 69);
    UnionLookup(ml, mr, 110);
  }

  /** The code table of ((E, n), (l, g)) is the union of its two halves. */
  lemma EnglHalves()
    ensures Codes(EnglTree()) ==
      map[69 := [false, false], 110 := [false, true]] + map[108 := [true, false], 103 := [true, true]]
  {
    var l, r := Node(Leaf(69), Leaf(110)), Node(Leaf(108), Leaf(103));
    assert [] + [false] == [false] && [] + [true] == [true];
    assert Codes(EnglTree()) == CodeChars(l, [false]) + CodeChars(r, [true]);
    PairCodes(69, 110, false);
    PairCodes(108, 103, true);
  }

  /** A key only in the left map keeps its left value in the union. */
  lemma UnionLookup(ml: map<Char16, Bits>, mr: map<Char16, Bits>, c: Char16)
    requires c in ml && c !in mr
    ensures (ml + mr)[c] == ml[c]
  {
  }

  /** The codes of two sibling leaves below the edge `b`. */
  lemma PairCodes(x: Char16, y: Char16, b: bool)
    requires x != y
    ensures var codes := CodeChars(Node(Leaf(x), Leaf(y)), [b]);
      codes == map[x := [b, false], y := [b, true]]
  {
    assert [b] + [false] == [b, false] && [b] + [true] == [b, true];
  }

  lemma EncodingOfOne(codes: map<Char16, Bits>, c: Char16)
    requires InRange(c) && c in codes
    ensures Encoding(codes, [c]) == codes[c]
  {
    assert [c][1..] == [];
  }

  lemma EnglPair(codes: map<Char16, Bits>, x: Char16, y: Char16)
    requires InRange(x) && InRange(y) && x in codes && y in codes
    ensures Encoding(codes, [x, y]) == codes[x] + codes[y]
  {
    EncodingOfOne(codes, x);
    EncodingOfOne(codes, y);
    EncodingAppend(codes, [x], [y]);
    assert [x] + [y] == [x, y];
  }

  lemma Concat22(a: bool, b: bool, c: bool, d: bool)
    ensures [a, b] + [c, d] == [a, b, c, d]
  {
  }

  lemma Concat44(x: Bits, y: Bits)
    requires |x| == 4 && |y| == 4
    ensures x + y == [x[0], x[1], x[2], x[3], y[0], y[1], y[2], y[3]]
  {
  }

  /** "Engl" (E = 69, n = 110, g = 103, l = 108) encodes to "00011110"
      under that tree, and "E" alone to "1". */
  lemma EnglVector()
    ensures Encoding(Codes(EnglTree()), [69, 110, 103, 108])
         == [false, false, false, true, true, true, true, false]
    ensures Encoding(Codes(Leaf(69)), [69]) == [true]
  {
    EnglCodes();
    EnglEncoding(Codes(EnglTree()));
    EncodingOfOne(Codes(Leaf(69)), 69);
  }

  /** "Engl" under any table with E = "00", n = "01", l = "10", g = "11". */
  lemma EnglEncoding(codes: map<Char16, Bits>)
    requires 69 in codes && 110 in codes && 108 in codes && 103 in codes
    requires codes[69] == [false, false] && codes[110] == [false, true]
    requires codes[108] == [true, false] && codes[103] == [true, true]
    ensures Encoding(codes, [69, 110, 103, 108]) == [false, false, false, true, true, true, true, false]
  {
    EnglPair(codes, 69, 110);
    EnglPair(codes, 103, 108);
    EncodingAppend(codes, [69, 110], [103, 108]);
    assert [69, 110] + [103, 108] == [69, 110, 103, 108];
    Concat22(false, false, false, true);
    Concat22(true, true, true, false);
    Concat44([false, false, false, true], [true, true, true, false]);
  }
}
