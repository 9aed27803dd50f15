/** Values shared by every part of the Huffman coder: Java characters,
    bit strings, bytes, and the failures the Java code raises. */
module Basics {

  /** A Java `char`: one UTF-16 code unit. */
  newtype Char16 = c: int | 0 <= c < 0x1_0000

  /** A Java `String`, as its sequence of code units. */
  type Text = seq<Char16>

  /** A string of '0'/'1' characters as the coder builds it; `true` stands for '1'. */
  type Bits = seq<bool>

  /** The exceptions the coder lets escape, named after the Java ones. */
  datatype Failure =
    | IllegalArgument    // empty or null text handed to the coder
    | EndOfFile          // a stream ended in the middle of a value
    | NegativeArraySize  // a bit count so negative that no buffer can be allocated
    | NullPointer        // a null child or root is dereferenced

  datatype Result<+T> = Ok(value: T) | Err(failure: Failure)

  datatype Option<+T> = None | Some(value: T)

  /** The byte whose unsigned value is `n`, built bit by bit from the most
      significant end, so that only the byte-to-integer direction of the
      conversion is ever used. */
  function ByteOf(n: int): (b: bv8)
    requires 0 <= n < 256
    ensures b as int == n
    decreases n
  {
    if n == 0 then 0 else Push(ByteOf(n / 2), n % 2 == 1)
  }

  /** `b` shifted left by one with `bit` as the new lowest bit. */
  function Push(b: bv8, bit: bool): (r: bv8)
    requires b as int < 128
    ensures r as int == 2 * (b as int) + (if bit then 1 else 0)
  {
    (b << 1) | (if bit then 1 else 0)
  }

  /** Only characters whose code is below 128 are counted and encoded. */
  predicate InRange(c: Char16) {
    c < 128
  }

  /** The in-range characters of `s`, in order. */
  function Filter(s: Text): (r: Text)
    ensures |r| <= |s|
    ensures forall c :: c in r <==> c in s && InRange(c)
  {
    if s == [] then []
    else (if InRange(s[0]) then [s[0]] else []) + Filter(s[1..])
  }

  /** The distinct in-range characters of `s`. */
  function Symbols(s: Text): set<Char16> {
    set c | c in s && InRange(c)
  }

  /** A text without in-range characters filters down to nothing. */
  lemma {:induction false} NoSymbols(s: Text)
    requires Symbols(s) == {}
    ensures Filter(s) == []
  {
    if s != [] {
      var c := s[0];
      assert c in s;
      assert InRange(c) ==> c in Symbols(s);
      assert forall c :: c in s[1..] ==> c in s;
      NoSymbols(s[1..]);
    }
  }

  /** There are 128 in-range characters, so no text has more distinct ones. */
  lemma SymbolsBound(s: Text)
    ensures |Symbols(s)| <= 128
  {
    var all := set c: Char16 | Below(c, 128);
    RangeCard(128);
    assert Symbols(s) <= all;
    assert |all - Symbols(s)| + |Symbols(s)| == |all|;
  }

  predicate Below(c: Char16, n: int) {
    c as int < n
  }

  lemma {:induction false} RangeCard(n: nat)
    requires n <= 128
    ensures |set c: Char16 | Below(c, n)| == n
  {
    if n > 0 {
      RangeCard(n - 1);
      var m := n - 1;
      var below := set c: Char16 | Below(c, m);
      assert (set c: Char16 | Below(c, n)) == below + {m as Char16};
    }
  }

  /** Concatenation is associative. */
  lemma ConcatAssoc<T>(a: seq<T>, b: seq<T>, c: seq<T>)
    ensures a + (b + c) == (a + b) + c
  {
  }

  lemma {:induction false} FilterAppend(a: Text, b: Text)
    ensures Filter(a + b) == Filter(a) + Filter(b)
  {
    if a == [] {
      assert a + b == b;
    } else {
      assert (a + b)[1..] == a[1..] + b;
      FilterAppend(a[1..], b);
    }
  }
}
