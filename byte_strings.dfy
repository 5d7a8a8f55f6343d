/**
 * Byte strings and the suffix search that the matcher is built on.
 * Patterns and texts are handled as their bytes, as the source does with `as_bytes()`.
 */
module ByteStrings {

  /** One byte of a pattern or a text, the index of one of a node's 256 child slots. */
  type byte = x: int | 0 <= x < 256

  type bytes = seq<byte>

  predicate IsPrefix(u: bytes, w: bytes) {
    |u| <= |w| && w[..|u|] == u
  }

  predicate IsSuffix(u: bytes, w: bytes) {
    |u| <= |w| && w[|w| - |u|..] == u
  }

  /** `p` occurs somewhere inside `t`. */
  predicate OccursIn(p: bytes, t: bytes) {
    exists i :: 0 <= i <= |t| && IsPrefix(p, t[i..])
  }

  /** The longest suffix of `s` that starts at position `k` or later and belongs to `W`. */
  function LongestSuffixFrom(W: set<bytes>, s: bytes, k: nat): (r: bytes)
    requires [] in W && k <= |s|
    ensures r in W && |r| <= |s| - k
    decreases |s| - k
  {
    if k == |s| then []
    else if s[k..] in W then s[k..]
    else LongestSuffixFrom(W, s, k + 1)
  }

  /** `LongestSuffixFrom(W, s, k)` is a suffix of `s`. */
  lemma {:induction false} LongestSuffixFromIsSuffix(W: set<bytes>, s: bytes, k: nat)
    requires [] in W && k <= |s|
    ensures IsSuffix(LongestSuffixFrom(W, s, k), s)
    decreases |s| - k
  {
    if k < |s| && s[k..] !in W {
      LongestSuffixFromIsSuffix(W, s, k + 1);
    }
  }

  /** Every suffix of `s` in `W` starting at position `k` or later is at most as long as
      `LongestSuffixFrom(W, s, k)`. */
  lemma {:induction false} LongestSuffixFromMaximal(W: set<bytes>, s: bytes, k: nat, u: bytes)
    requires [] in W && k <= |s| && u in W && IsSuffix(u, s) && |u| <= |s| - k
    ensures |u| <= |LongestSuffixFrom(W, s, k)|
    decreases |s| - k
  {
    if k < |s| && s[k..] !in W && |u| < |s| - k {
      LongestSuffixFromMaximal(W, s, k + 1, u);
    }
  }

  /** The longest suffix of `s` that belongs to `W` (the empty string always does). */
  function LongestSuffix(W: set<bytes>, s: bytes): (r: bytes)
    requires [] in W
    ensures r in W && |r| <= |s|
  {
    LongestSuffixFrom(W, s, 0)
  }

  /** `LongestSuffix(W, s)` is a suffix of `s`. */
  lemma LongestSuffixIsSuffix(W: set<bytes>, s: bytes)
    requires [] in W
    ensures IsSuffix(LongestSuffix(W, s), s)
  {
    LongestSuffixFromIsSuffix(W, s, 0);
  }

  /** No suffix of `s` in `W` is longer than `LongestSuffix(W, s)`. */
  lemma LongestSuffixMaximal(W: set<bytes>, s: bytes, u: bytes)
    requires [] in W && u in W && IsSuffix(u, s)
    ensures |u| <= |LongestSuffix(W, s)|
  {
    LongestSuffixFromMaximal(W, s, 0, u);
  }

  /** A suffix of `s` in `W` with no longer suffix of `s` in `W` is the longest one. */
  lemma LongestSuffixUnique(W: set<bytes>, s: bytes, w: bytes)
    requires [] in W && w in W && IsSuffix(w, s)
    requires forall u {:trigger IsSuffix(u, s)} :: u in W && IsSuffix(u, s) ==> |u| <= |w|
    ensures LongestSuffix(W, s) == w
  {
    var r := LongestSuffix(W, s);
    LongestSuffixIsSuffix(W, s);
    LongestSuffixMaximal(W, s, w);
    assert s[|s| - |r|..] == r && s[|s| - |w|..] == w;
  }

  /** No suffix of `s` longer than its longest suffix in `W` belongs to `W`. */
  lemma LongerSuffixNotIn(W: set<bytes>, s: bytes, j: nat)
    requires [] in W && j < |s| - |LongestSuffix(W, s)|
    ensures s[j..] !in W
  {
    if s[j..] in W {
      LongestSuffixMaximal(W, s, s[j..]);
    }
  }

  /** A member of `W` is its own longest suffix in `W`. */
  lemma LongestSuffixOfMember(W: set<bytes>, s: bytes)
    requires [] in W && s in W
    ensures LongestSuffix(W, s) == s
  {
    LongestSuffixMaximal(W, s, s);
    assert s[0..] == s;
  }

  lemma SuffixTransitive(u: bytes, v: bytes, w: bytes)
    requires IsSuffix(u, v) && IsSuffix(v, w)
    ensures IsSuffix(u, w)
  {
    assert w[|w| - |u|..] == w[|w| - |v|..][|v| - |u|..];
  }

  /** Taking one more byte of a string extends the prefix taken so far by that byte. */
  lemma TakeOneMore(t: bytes, j: nat)
    requires j < |t|
    ensures t[..j + 1] == t[..j] + [t[j]]
  {
  }

  /** Dropping the first byte commutes with appending a byte to a non-empty string. */
  lemma DropFirstAppend(w: bytes, b: byte)
    requires w != []
    ensures (w + [b])[1..] == w[1..] + [b]
  {
  }
}
