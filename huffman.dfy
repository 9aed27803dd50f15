/** The public entry points of `Huffman`: `codeString` and `decodeString`,
    which work on strings, and `huffman`, whose compressing branch turns a
    text into a code artifact and a tree artifact and whose decompressing
    branch turns those back into a text. The `text` and `root` fields the
    Java object keeps between calls are passed and returned as values here,
    and the contents of `code.bin` and `tree.bin` are byte sequences. */
module Huffman {
  import opened Basics
  import opened Trees
  import opened TreeBuilder
  import opened CodeTable
  import opened Decoder
  import opened TreeCodec
  import opened CodeArtifact

  /** What encoding leaves behind: the root stored in the `root` field
      (null when the text has no in-range character) and the bits. */
  datatype Encoded = Encoded(root: Option<Tree>, code: Bits)

  /** What compressing leaves behind: the bytes of `tree.bin`, the bytes of
      `code.bin`, and the number of bits `huffman` returns. */
  datatype Artifacts = Artifacts(tree: seq<bv8>, code: seq<bv8>, bits: nat)

  /** The codes `codeChars` collects from a root that may be null. */
  function CodesOf(root: Option<Tree>): map<Char16, Bits> {
    if root.Some? then Codes(root.value) else map[]
  }

  /** `root` is what `builtTree` gives for `text`: null exactly when the
      text has no in-range character, and otherwise a tree whose leaves are
      the distinct in-range characters of the text, each once. */
  ghost predicate TreeFor(root: Option<Tree>, text: Text) {
    (root.None? <==> Symbols(text) == {}) &&
    (forall c :: c in text && InRange(c) ==> c in CodesOf(root)) &&
    (root.Some? ==>
      UniqueLeaves(root.value) &&
      (set c | c in Leaves(root.value)) == Symbols(text) &&
      |Leaves(root.value)| == |Symbols(text)|)
  }

  /** Builds the tree, collects its codes and appends the code of every
      in-range character of the text: the steps `codeString` and the
      compressing branch of `huffman` share. */
  method Encode(text: Text) returns (r: Result<Encoded>)
    ensures text == [] <==> r == Err(IllegalArgument)
    ensures text != [] ==> r.Ok?
    ensures r.Ok? ==> TreeFor(r.value.root, text)
    ensures r.Ok? ==> r.value.code == Encoding(CodesOf(r.value.root), text)
  {
    var built := BuiltTree(text);
    if built.Err? {
      return Err(built.failure);
    }
    var root := if built.value.Some? then Some(Shape(built.value.value)) else None;
    var codes := CodesOf(root);
    forall c | c in text && InRange(c) ensures c in codes {
      assert c in Symbols(text);
    }
    var code := EncodeText(codes, text);
    return Ok(Encoded(root, code));
  }

  /** `codeString`: a null or empty string is rejected; any other string
      is encoded with the tree built from it. */
  method CodeString(s: Option<Text>) returns (r: Result<Encoded>)
    ensures s.None? || s == Some([]) <==> r == Err(IllegalArgument)
    ensures s.Some? && s.value != [] ==> r.Ok?
    ensures r.Ok? ==> s.Some? && TreeFor(r.value.root, s.value)
    ensures r.Ok? ==> r.value.code == Encoding(CodesOf(r.value.root), s.value)
  {
    if s.None? {
      return Err(IllegalArgument);
    }
    r := Encode(s.value);
  }

  /** A text without in-range characters encodes to no bits at all. */
  lemma NothingToEncode(codes: map<Char16, Bits>, text: Text)
    requires Symbols(text) == {}
    ensures forall c :: c in text && InRange(c) ==> c in codes
    ensures Encoding(codes, text) == []
  {
    assert forall c :: c in text && InRange(c) ==> c in Symbols(text);
    NoSymbols(text);
    EncodingIgnoresOutOfRange(codes, text);
  }

  /** Decoding with the tree built from a text the encoding of that text:
      the in-range characters come back, except that a tree made of a single
      leaf fails on the first bit. */
  lemma RoundTripOutcome(t: Tree, text: Text)
    requires UniqueLeaves(t) && (set c | c in Leaves(t)) == Symbols(text)
    ensures forall c :: c in text && InRange(c) ==> c in Codes(t)
    ensures Walk(t, t, Encoding(Codes(t), text)) ==
      if |Symbols(text)| == 1 then Err(NullPointer) else Ok(Filter(text))
  {
    SymbolCount(t);
    forall c | c in text && InRange(c) ensures c in Codes(t) {
      assert c in Symbols(text);
    }
    match t
    case Node(_, _) =>
      DecodeRoundTrip(t, text);
    case Leaf(c) =>
      var f := Filter(text);
      assert c in (set x | x in Leaves(t));
      assert c in f;
      forall x | x in f ensures x == c {
        assert x in Symbols(text);
      }
      EncodingIgnoresOutOfRange(Codes(t), text);
      SingleLeafRoundTripFails(c, f);
  }

  /** `decodeString`: encode, then decode with the tree just built. The
      in-range characters come back whenever the text has at least two
      distinct ones; with exactly one, decoding dereferences a null child. */
  method DecodeString(s: Option<Text>) returns (r: Result<Text>)
    ensures r == if s.None? || s.value == [] then Err(IllegalArgument)
                 else if |Symbols(s.value)| == 1 then Err(NullPointer)
                 else Ok(Filter(s.value))
  {
    var encoded := CodeString(s);
    if encoded.Err? {
      return Err(encoded.failure);
    }
    var text := s.value;
    match encoded.value.root
    case None =>
      // The root is null and the code is empty, so the loop of `decode`
      // does not run.
      NoSymbols(text);
      r := Ok([]);
    case Some(root) =>
      r := Decode(root, encoded.value.code);
      RoundTripOutcome(root, text);
  }

  /** Every code of a tree built from a text is at most as long as the
      tree has leaves, and there are at most 128 of those, so a text of
      fewer than 2^24 characters encodes to fewer than 2^31 bits: the count
      fits the `int` that `saveCode` writes. */
  lemma CodeFits(root: Option<Tree>, text: Text)
    requires TreeFor(root, text) && |text| < 0x100_0000
    ensures |Encoding(CodesOf(root), text)| < 0x8000_0000
  {
    match root
    case None =>
      NothingToEncode(map[], text);
    case Some(t) =>
      var n := |Leaves(t)|;
      SymbolsBound(text);
      EncodingBound(Codes(t), text, n);
      assert n * |text| <= 128 * |text| by {
        MulMonotone(n, 128, |text|);
      }
  }

  lemma MulMonotone(a: nat, b: nat, k: nat)
    requires a <= b
    ensures a * k <= b * k
  {
  }

  /** The decompressing branch of `huffman`, as a function of the two
      artifacts: read the tree, then the code, then decode. An empty or
      short `tree.bin` or `code.bin` ends in an end-of-file error. */
  function Decompressed(treeBytes: seq<bv8>, codeBytes: seq<bv8>): (r: Result<Text>)
    ensures treeBytes == [] ==> r == Err(EndOfFile)
    ensures ReadTree(treeBytes).Ok? && |codeBytes| < 4 ==> r == Err(EndOfFile)
  {
    match ReadTree(treeBytes)
    case Err(e) => Err(e)
    case Ok(root) =>
      match ParseCode(codeBytes)
      case Err(e) => Err(e)
      case Ok(code) => Walk(root, root, code)
  }

  /** The same pipeline with the corrected decoder. */
  function DecompressedCorrected(treeBytes: seq<bv8>, codeBytes: seq<bv8>): Result<Text> {
    match ReadTree(treeBytes)
    case Err(e) => Err(e)
    case Ok(root) =>
      match ParseCode(codeBytes)
      case Err(e) => Err(e)
      case Ok(code) => DecodeCorrected(root, code)
  }

  /** The decompressing branch of `huffman`: `readTree`, `readCoded`, then
      `decode`. The decoded text is what `saveDecoded` writes; its length is
      what `huffman` returns. */
  method Decompress(treeBytes: seq<bv8>, codeBytes: seq<bv8>) returns (r: Result<Text>)
    ensures r == Decompressed(treeBytes, codeBytes)
  {
    var root := ReadTree(treeBytes);
    if root.Err? {
      return Err(root.failure);
    }
    var code := ReadCoded(codeBytes);
    if code.Err? {
      return Err(code.failure);
    }
    r := Decode(root.value, code.value);
  }

  /** The compressing branch of `huffman` on the text read from `text.txt`:
      encode, write `code.bin` (`saveCode`), then write `tree.bin`
      (`saveTree`). An empty text is rejected; a text without in-range
      characters has a null root, which `saveNode` dereferences after
      `code.bin` has been written. Otherwise decompressing the artifacts
      gives back the in-range characters, except for a text with a single
      distinct one, which fails as `decode` does; with the corrected decoder
      every text comes back. */
  method Compress(text: Text) returns (r: Result<Artifacts>)
    requires |text| < 0x100_0000
    ensures text == [] ==> r == Err(IllegalArgument)
    ensures text != [] && Symbols(text) == {} ==> r == Err(NullPointer)
    ensures Symbols(text) != {} ==> r.Ok?
    ensures r.Ok? ==> ParseCode(r.value.code).Ok? && |ParseCode(r.value.code).value| == r.value.bits
    ensures r.Ok? ==>
              Decompressed(r.value.tree, r.value.code) ==
              if |Symbols(text)| == 1 then Err(NullPointer) else Ok(Filter(text))
    ensures r.Ok? ==> DecompressedCorrected(r.value.tree, r.value.code) == Ok(Filter(text))
    ensures r.Ok? ==>
              exists t :: TreeFor(Some(t), text) && r.value.tree == SaveNode(t) &&
                          ParseCode(r.value.code) == Ok(Encoding(Codes(t), text)) &&
                          r.value.bits == |Encoding(Codes(t), text)|
  {
    var encoded := Encode(text);
    if encoded.Err? {
      return Err(encoded.failure);
    }
    var root, code := encoded.value.root, encoded.value.code;
    CodeFits(root, text);
    var codeBytes := SaveCode(code);
    if root.None? {
      // `saveNode` reads the fields of the null root.
      return Err(NullPointer);
    }
    var t := root.value;
    var treeBytes := SaveNode(t);
    assert treeBytes + [] == treeBytes;
    TreeRoundTrip(t, []);
    RoundTripOutcome(t, text);
    CorrectedRoundTrip(t, text);
    assert TreeFor(Some(t), text);
    return Ok(Artifacts(treeBytes, codeBytes, |code|));
  }
}
