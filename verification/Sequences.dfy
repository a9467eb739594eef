/** Parts of sequences. */
module Sequences {
  /** `s[n..]`, element by element: what the verifier knows about slices of slices never
      ends when a slice may be the whole sequence. */
  function From<T>(s: seq<T>, n: nat): (r: seq<T>)
    requires n <= |s|
    ensures |r| == |s| - n
  {
    seq(|s| - n, i requires 0 <= i < |s| - n => s[n + i])
  }

  lemma FromIsSlice<T>(s: seq<T>, n: nat)
    requires n <= |s|
    ensures From(s, n) == s[n..]
  {
  }

  /** The first `k` elements from `n` on follow those before. */
  lemma FrontAndFrom<T>(s: seq<T>, n: nat, k: nat)
    requires n + k <= |s|
    ensures s[..n] + From(s, n)[..k] == s[..n + k]
  {
    FromIsSlice(s, n);
  }

  lemma FromFrom<T>(s: seq<T>, n: nat, k: nat)
    requires n + k <= |s|
    ensures From(From(s, n), k) == From(s, n + k)
  {
    FromIsSlice(s, n);
    FromIsSlice(From(s, n), k);
    FromIsSlice(s, n + k);
  }

  lemma FromAppend<T>(s: seq<T>, n: nat, t: seq<T>)
    requires n <= |s|
    ensures From(s + t, n) == From(s, n) + t
  {
    FromIsSlice(s, n);
    FromIsSlice(s + t, n);
    assert (s + t)[n..] == s[n..] + t;
  }

  lemma FromBehind<T>(a: seq<T>, b: seq<T>)
    ensures From(a + b, |a|) == b
  {
    FromIsSlice(a + b, |a|);
  }

  /** `a + b`, element by element. */
  function Both<T>(a: seq<T>, b: seq<T>): (r: seq<T>)
    ensures |r| == |a| + |b|
  {
    seq(|a| + |b|, i requires 0 <= i < |a| + |b| => if i < |a| then a[i] else b[i - |a|])
  }

  lemma BothIsAppend<T>(a: seq<T>, b: seq<T>)
    ensures Both(a, b) == a + b
  {
  }

  /** `s` without its element `k`. */
  function Without<T>(s: seq<T>, k: nat): (r: seq<T>)
    requires k < |s|
    ensures r == s[..k] + s[k + 1..]
  {
    seq(|s| - 1, i requires 0 <= i < |s| - 1 => if i < k then s[i] else s[i + 1])
  }
}
