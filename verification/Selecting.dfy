/** Passes over a list that leave out the elements whose flag is set. */
module Selecting {

  /** Those of the first `k` elements whose flag is `want`. */
  function Select<T>(s: seq<T>, flags: seq<bool>, want: bool, k: nat): seq<T>
    requires k <= |s| && k <= |flags|
  {
    if k == 0 then []
    else Select(s, flags, want, k - 1) + if flags[k - 1] == want then [s[k - 1]] else []
  }

  lemma {:induction false} SelectFrom<T>(s: seq<T>, flags: seq<bool>, want: bool, k: nat)
    requires k <= |s| && k <= |flags|
    ensures forall x :: x in Select(s, flags, want, k) ==> x in s
  {
    if k > 0 {
      SelectFrom(s, flags, want, k - 1);
    }
  }

  /** Flags that come later make no difference. */
  lemma {:induction false} SelectMoreFlags<T>(s: seq<T>, flags: seq<bool>, more: seq<bool>, want: bool, k: nat)
    requires k <= |s| && k <= |flags|
    ensures Select(s, flags + more, want, k) == Select(s, flags, want, k)
  {
    if k > 0 {
      SelectMoreFlags(s, flags, more, want, k - 1);
    }
  }

  /** The list when the first `k` elements of `s` have been dealt with. */
  ghost function After<T>(s: seq<T>, flags: seq<bool>, k: nat): seq<T>
    requires k <= |s| && k <= |flags|
  {
    Select(s, flags, false, k) + s[k..]
  }

  /** Element `k` is the first not dealt with; leaving it out or keeping it brings the list to `k + 1`. */
  lemma AfterStep<T>(s: seq<T>, flags: seq<bool>, k: nat)
    requires k < |s| && k < |flags|
    ensures var q, i := After(s, flags, k), |Select(s, flags, false, k)|;
            && i < |q| && q[i] == s[k]
            && (i + 1 < |q| <==> k + 1 < |s|) && (k + 1 < |s| ==> q[i + 1] == s[k + 1])
            && After(s, flags, k + 1) == if flags[k] then q[..i] + q[i + 1..] else q
  {
    assert s[k..] == [s[k]] + s[k + 1..];
  }

  lemma AfterFrom<T>(s: seq<T>, flags: seq<bool>, k: nat)
    requires k <= |s| && k <= |flags|
    ensures forall x :: x in After(s, flags, k) ==> x in s
  {
    SelectFrom(s, flags, false, k);
  }

  lemma AfterEnds<T>(s: seq<T>, flags: seq<bool>)
    requires |s| <= |flags|
    ensures After(s, flags, 0) == s
    ensures After(s, flags, |s|) == Select(s, flags, false, |s|)
  {
  }
}
