/**
 Shared vocabulary of the model: optional values, results, bytes and the
 small sequence helpers that several components use (Python's negative
 slicing, "keep the last n entries").
 */
module Basics {

  /** A value that may be absent (Python's `None`). */
  datatype Option<+T> = None | Some(value: T)

  /** The outcome of an operation that may raise. */
  datatype Result<+T, +E> = Ok(value: T) | Err(error: E)

  /** An octet. */
  type Byte = b: int | 0 <= b < 256

  type Bytes = seq<Byte>

  /** 256 to the power `w`: the number of values a `w`-byte field holds. */
  function Pow256(w: nat): (r: nat)
    ensures r >= 1
  {
    if w == 0 then 1 else 256 * Pow256(w - 1)
  }

  /** 2^32, the range of a Python `struct` "I" field. */
  const U32: nat := 0x1_0000_0000

  /** 2^64, the range of a Python `struct` "Q" field. */
  const U64: nat := 0x1_0000_0000_0000_0000

  /** Python's `s[-n:]` for `n >= 0`: the last `n` elements (all of them if fewer). */
  function LastN<T>(s: seq<T>, n: nat): (r: seq<T>)
    ensures |r| == if |s| < n then |s| else n
    ensures s == s[..|s| - |r|] + r
  {
    if |s| <= n then s else s[|s| - n..]
  }

  /** Trimming to the last `n` before appending more does not change the last `n` of the whole. */
  lemma LastNOfLastN<T>(a: seq<T>, b: seq<T>, n: nat)
    ensures LastN(LastN(a, n) + b, n) == LastN(a + b, n)
  {
    var a' := LastN(a, n);
    if |a| > n {
      var k := |a| - n;
      assert a + b == a[..k] + (a' + b);
      var whole := a + b;
      var trimmed := a' + b;
      assert |whole| == k + |trimmed|;
      assert whole[|whole| - n..] == trimmed[|trimmed| - n..];
    }
  }

  /** `h + es` is `h` extended by the first element of `es`, then by the rest. */
  lemma AppendFirst<T>(h: seq<T>, es: seq<T>)
    requires |es| > 0
    ensures h + es == (h + [es[0]]) + es[1..]
  {
    assert es == [es[0]] + es[1..];
  }

  lemma ConcatAssoc<T>(a: seq<T>, b: seq<T>, c: seq<T>)
    ensures a + b + c == a + (b + c)
  {
  }

  /** Python's `s[k:]` for any integer `k` (a negative `k` counts from the end). */
  function PySliceFrom<T>(s: seq<T>, k: int): (r: seq<T>)
    ensures k >= 0 ==> r == s[(if k <= |s| then k else |s|)..]
    ensures k < 0 ==> r == s[(if -k <= |s| then |s| + k else 0)..]
  {
    if k >= 0 then (if k <= |s| then s[k..] else [])
    else (if -k <= |s| then s[|s| + k..] else s)
  }

  /** The position of the first occurrence of `x` (Python's `list.index`). */
  function IndexOf<T(==)>(s: seq<T>, x: T): (i: nat)
    requires x in s
    ensures i < |s| && s[i] == x && x !in s[..i]
  {
    if s[0] == x then 0
    else
      assert x in s[1..] by { var k :| 0 <= k < |s| && s[k] == x; assert s[1..][k - 1] == x; }
      var j := IndexOf(s[1..], x);
      assert s[..j + 1] == [s[0]] + s[1..][..j];
      j + 1
  }

  /** Removes the first occurrence of `x` (Python's `list.remove`, when `x` is present). */
  function RemoveFirst<T(==)>(s: seq<T>, x: T): (r: seq<T>)
    ensures x !in s ==> r == s
    ensures x in s ==> |r| == |s| - 1 && r == s[..IndexOf(s, x)] + s[IndexOf(s, x) + 1..]
    ensures forall y :: y in r ==> y in s
    ensures forall y :: y in s && y != x ==> y in r
  {
    if |s| == 0 then []
    else if s[0] == x then s[1..]
    else
      var rest := RemoveFirst(s[1..], x);
      assert s == [s[0]] + s[1..];
      if x in s[1..] then RemoveFirstPastHead(s, x, rest); [s[0]] + rest
      else [s[0]] + rest
  }

  /** Removing past a head that differs from `x` keeps the head in front. */
  lemma RemoveFirstPastHead<T>(s: seq<T>, x: T, rest: seq<T>)
    requires |s| > 0 && s[0] != x && x in s[1..]
    requires rest == s[1..][..IndexOf(s[1..], x)] + s[1..][IndexOf(s[1..], x) + 1..]
    ensures [s[0]] + rest == s[..IndexOf(s, x)] + s[IndexOf(s, x) + 1..]
  {
    var j := IndexOf(s[1..], x);
    assert IndexOf(s, x) == j + 1;
    SpliceAfterHead(s, j);
  }

  /** Deleting position `j` of the tail is deleting position `j + 1` of the whole. */
  lemma SpliceAfterHead<T>(s: seq<T>, j: nat)
    requires j + 1 < |s|
    ensures [s[0]] + (s[1..][..j] + s[1..][j + 1..]) == s[..j + 1] + s[j + 2..]
  {
    assert s[..j + 1] == [s[0]] + s[1..][..j];
    assert s[j + 2..] == s[1..][j + 1..];
  }
}
