/** The tree artifact written by `saveNode` and read by `readNode`: a
    pre-order walk; a leaf is the boolean byte 1 followed by its character
    as two big-endian bytes (`writeChar`), an internal node is the boolean
    byte 0 followed by its left and then its right subtree. No frequency and
    no length is written. */
module TreeCodec {
  import opened Basics
  import opened Trees

  /** `writeChar`: the high byte, then the low byte. */
  function CharBytes(c: Char16): (bytes: seq<bv8>)
    ensures |bytes| == 2 && ReadChar(bytes[0], bytes[1]) == c
  {
    [ByteOf(c as int / 256), ByteOf(c as int % 256)]
  }

  /** `readChar`: `(b1 << 8) + b2`. The high byte of the character read
      is the first byte and its low byte the second, which are the bytes
      `writeChar` would write for it. */
  function ReadChar(hi: bv8, lo: bv8): (c: Char16)
    ensures c as int / 256 == hi as int && c as int % 256 == lo as int
  {
    HighLow(hi as int, lo as int);
    (hi as int * 256 + lo as int) as Char16
  }

  lemma HighLow(hi: int, lo: int)
    requires 0 <= lo < 256
    ensures (hi * 256 + lo) / 256 == hi && (hi * 256 + lo) % 256 == lo
  {
  }

  /** `saveNode`. Every leaf takes three bytes and every internal node one,
      and a tree with n leaves has n - 1 internal nodes. */
  function SaveNode(t: Tree): (bytes: seq<bv8>)
    ensures |bytes| == 4 * |Leaves(t)| - 1
  {
    match t
    case Leaf(c) => [1] + CharBytes(c)
    case Node(l, r) => [0] + SaveNode(l) + SaveNode(r)
  }

  /** `readNode`: the tree read from the front of `data` and the bytes left
      after it. `readBoolean` takes any non-zero byte for `true`, so every
      byte value is a valid marker; the only failure is running out of bytes
      (an `EOFException`, which the Java code rethrows). */
  function ReadNode(data: seq<bv8>): (r: Result<(Tree, seq<bv8>)>)
    ensures r.Ok? ==> |r.value.1| < |data|
    ensures r.Err? ==> r.failure == EndOfFile
    decreases |data|
  {
    if |data| == 0 then Err(EndOfFile)
    else if data[0] != 0 then
      if |data| < 3 then Err(EndOfFile)
      else Ok((Leaf(ReadChar(data[1], data[2])), data[3..]))
    else
      match ReadNode(data[1..])
      case Err(e) => Err(e)
      case Ok((left, rest)) =>
        match ReadNode(rest)
        case Err(e) => Err(e)
        case Ok((right, rest')) => Ok((Node(left, right), rest'))
  }

  /** What `readNode` leaves in the stream is what follows the bytes it
      consumed. */
  lemma {:induction false} ReadConsumesPrefix(data: seq<bv8>)
    ensures ReadNode(data).Ok? ==> Suffix(ReadNode(data).value.1, data)
    decreases |data|
  {
    if |data| > 0 && data[0] == 0 {
      var tail := data[1..];
      ReadConsumesPrefix(tail);
      if ReadNode(tail).Ok? {
        ReadConsumesPrefix(ReadNode(tail).value.1);
        InnerSuffix(data);
      }
    }
  }

  /** `rest` is what is left of `data` after some of its first bytes. */
  predicate Suffix(rest: seq<bv8>, data: seq<bv8>) {
    |rest| <= |data| && rest == data[|data| - |rest|..]
  }

  /** The step of `ReadConsumesPrefix` for an internal node. */
  lemma InnerSuffix(data: seq<bv8>)
    requires |data| > 0 && data[0] == 0
    requires ReadNode(data[1..]).Ok? && Suffix(ReadNode(data[1..]).value.1, data[1..])
    requires var rest := ReadNode(data[1..]).value.1;
             ReadNode(rest).Ok? ==> Suffix(ReadNode(rest).value.1, rest)
    ensures ReadNode(data).Ok? ==> Suffix(ReadNode(data).value.1, data)
  {
    var rest := ReadNode(data[1..]).value.1;
    if ReadNode(rest).Ok? {
      var rest' := ReadNode(rest).value.1;
      assert ReadNode(data).value.1 == rest';
      SuffixTrans(rest', rest, data[1..]);
      SuffixTrans(rest', data[1..], data);
    }
  }

  lemma SuffixTrans(a: seq<bv8>, b: seq<bv8>, c: seq<bv8>)
    requires Suffix(a, b) && Suffix(b, c)
    ensures Suffix(a, c)
  {
    assert c[|c| - |b|..][|b| - |a|..] == c[|c| - |a|..];
  }

  /** `readTree`: the root read from the tree artifact; bytes after the
      tree are never looked at. */
  function ReadTree(data: seq<bv8>): (r: Result<Tree>)
    ensures r.Err? <==> ReadNode(data).Err?
    ensures r.Err? ==> r.failure == EndOfFile
    ensures |data| < 3 ==> r == Err(EndOfFile)
    ensures |data| >= 3 && data[0] != 0 ==> r == Ok(Leaf(ReadChar(data[1], data[2])))
  {
    match ReadNode(data)
    case Ok((t, _)) => Ok(t)
    case Err(e) => Err(e)
  }

  /** Reading back what `saveNode` wrote rebuilds the same tree and stops
      exactly at its end. */
  lemma {:induction false} ReadSaved(t: Tree, rest: seq<bv8>)
    ensures ReadNode(SaveNode(t) + rest) == Ok((t, rest))
  {
    match t
    case Leaf(c) =>
      ReadSavedLeaf(c, rest);
    case Node(l, r) =>
      var sl, sr := SaveNode(l), SaveNode(r);
      ConcatAssoc([0] + sl, sr, rest);
      ConcatAssoc([0], sl, sr + rest);
      InnerMarker(sl + (sr + rest));
      ReadSaved(l, sr + rest);
      ReadSaved(r, rest);
  }

  lemma ReadSavedLeaf(c: Char16, rest: seq<bv8>)
    ensures ReadNode(SaveNode(Leaf(c)) + rest) == Ok((Leaf(c), rest))
  {
    var data := SaveNode(Leaf(c)) + rest;
    var bytes := CharBytes(c);
    assert data == [1, bytes[0], bytes[1]] + rest;
    assert data[3..] == rest;
  }

  lemma TreeRoundTrip(t: Tree, rest: seq<bv8>)
    ensures ReadTree(SaveNode(t) + rest) == Ok(t)
  {
    ReadSaved(t, rest);
  }

  /** A tree artifact cut short anywhere fails with an end-of-file error
      rather than giving a partial tree. */
  lemma {:induction false} TruncatedFails(t: Tree, k: nat)
    requires k < |SaveNode(t)|
    ensures ReadNode(SaveNode(t)[..k]) == Err(EndOfFile)
  {
    match t
    case Leaf(c) =>
      TruncatedLeaf(c, k);
    case Node(l, r) =>
      if k > 0 {
        var m := k - 1 - |SaveNode(l)|;
        if m < 0 {
          TruncatedFails(l, k - 1);
          TruncatedLeft(l, r, k);
        } else {
          TruncatedFails(r, m);
          TruncatedRight(l, r, k);
        }
      }
  }

  lemma TruncatedLeaf(c: Char16, k: nat)
    requires k < |SaveNode(Leaf(c))|
    ensures ReadNode(SaveNode(Leaf(c))[..k]) == Err(EndOfFile)
  {
  }

  /** Cut inside the left subtree: reading the left subtree fails. */
  lemma TruncatedLeft(l: Tree, r: Tree, k: nat)
    requires 0 < k <= |SaveNode(l)|
    requires ReadNode(SaveNode(l)[..k - 1]) == Err(EndOfFile)
    ensures ReadNode(SaveNode(Node(l, r))[..k]) == Err(EndOfFile)
  {
    var sl := SaveNode(l);
    TakeLeft(sl, SaveNode(r), k);
    InnerMarker(sl[..k - 1]);
  }

  /** Cut inside the right subtree: the left one is read whole, then
      reading the right subtree fails. */
  lemma TruncatedRight(l: Tree, r: Tree, k: nat)
    requires |SaveNode(l)| < k < |SaveNode(Node(l, r))|
    requires ReadNode(SaveNode(r)[..k - 1 - |SaveNode(l)|]) == Err(EndOfFile)
    ensures ReadNode(SaveNode(Node(l, r))[..k]) == Err(EndOfFile)
  {
    var sl, sr := SaveNode(l), SaveNode(r);
    var cut := sr[..k - 1 - |sl|];
    TakeRight(sl, sr, k);
    ReadSaved(l, cut);
    InnerMarker(sl + cut);
  }

  /** An internal-node marker followed by `rest`: read the left subtree,
      then the right one, from `rest`. */
  lemma InnerMarker(rest: seq<bv8>)
    ensures ReadNode([0] + rest) ==
      match ReadNode(rest)
      case Err(e) => Err(e)
      case Ok((left, rest')) =>
        match ReadNode(rest')
        case Err(e) => Err(e)
        case Ok((right, rest'')) => Ok((Node(left, right), rest''))
  {
    assert ([0] + rest)[1..] == rest;
  }

  /** The first `n` bytes of an internal node whose left part is `a`, when
      the cut falls inside `a`. */
  lemma TakeLeft(a: seq<bv8>, b: seq<bv8>, n: nat)
    requires 0 < n <= |a|
    ensures ([0] + a + b)[..n] == [0] + a[..n - 1]
  {
  }

  /** The first `n` bytes of an internal node whose parts are `a` and `b`,
      when the cut falls inside `b`. */
  lemma TakeRight(a: seq<bv8>, b: seq<bv8>, n: nat)
    requires |a| < n <= |a| + |b|
    ensures ([0] + a + b)[..n] == [0] + (a + b[..n - 1 - |a|])
  {
    assert ([0] + a + b)[..n] == [0] + a + b[..n - 1 - |a|];
  }
}
