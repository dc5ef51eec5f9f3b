/** Byte strings, and their unique division into newline-terminated lines. */
module Bytes {

  newtype byte = x: int | 0 <= x < 256

  const NEWLINE: byte := 10

  /** All strings of `ss`, one after the other. */
  function Flatten<T>(ss: seq<seq<T>>): seq<T> {
    if ss == [] then [] else ss[0] + Flatten(ss[1..])
  }

  lemma {:induction false} FlattenAppend<T>(a: seq<seq<T>>, b: seq<seq<T>>)
    ensures Flatten(a + b) == Flatten(a) + Flatten(b)
  {
    if a == [] {
      assert a + b == b;
    } else {
      FlattenAppend(a[1..], b);
      assert (a + b)[1..] == a[1..] + b;
      assert a[0] + (Flatten(a[1..]) + Flatten(b)) == Flatten(a) + Flatten(b);
    }
  }

  lemma FlattenOne<T>(x: seq<T>)
    ensures Flatten([x]) == x
  {
    assert [x][1..] == [];
  }

  lemma ConsAppend<T>(x: T, a: seq<T>, b: seq<T>)
    ensures [x] + (a + b) == ([x] + a) + b
  {
  }

  lemma FlattenCons<T>(x: seq<T>, a: seq<seq<T>>, t: seq<T>)
    ensures Flatten([x] + a) + t == x + (Flatten(a) + t)
  {
    assert ([x] + a)[1..] == a;
  }

  lemma FlattenSnoc<T>(a: seq<seq<T>>, x: seq<T>)
    ensures Flatten(a + [x]) == Flatten(a) + x
  {
    FlattenAppend(a, [x]);
    FlattenOne(x);
  }

  /** Sum of a list of sizes. */
  function Sum(ns: seq<nat>): nat {
    if ns == [] then 0 else ns[0] + Sum(ns[1..])
  }

  lemma {:induction false} SumAppend(a: seq<nat>, b: seq<nat>)
    ensures Sum(a + b) == Sum(a) + Sum(b)
  {
    if a == [] {
      assert a + b == b;
    } else {
      SumAppend(a[1..], b);
      assert (a + b)[1..] == a[1..] + b;
    }
  }

  lemma SumSnoc(a: seq<nat>, n: nat)
    ensures Sum(a + [n]) == Sum(a) + n
  {
    SumAppend(a, [n]);
    assert [n][1..] == [];
  }

  /** A prefix never sums to more than the whole. */
  lemma SumPrefix(a: seq<nat>, k: nat)
    requires k <= |a|
    ensures Sum(a[..k]) <= Sum(a)
    ensures k < |a| ==> Sum(a[..k + 1]) == Sum(a[..k]) + a[k] <= Sum(a)
  {
    SumAppend(a[..k], a[k..]);
    assert a == a[..k] + a[k..];
    if k < |a| {
      SumSnoc(a[..k], a[k]);
      assert a[..k + 1] == a[..k] + [a[k]];
      SumAppend(a[..k + 1], a[k + 1..]);
      assert a == a[..k + 1] + a[k + 1..];
    }
  }

  function Sizes<T>(ss: seq<seq<T>>): seq<nat> {
    seq(|ss|, i requires 0 <= i < |ss| => |ss[i]|)
  }

  lemma {:induction false} SumOfSizes<T>(ss: seq<seq<T>>)
    ensures Sum(Sizes(ss)) == |Flatten(ss)|
  {
    if ss != [] {
      SumOfSizes(ss[1..]);
      assert Sizes(ss)[1..] == Sizes(ss[1..]);
    }
  }

  /** Position of the first newline, or the length when there is none (memchr). */
  function FirstNewline(s: seq<byte>): (k: nat)
    ensures k <= |s|
    ensures NEWLINE !in s[..k]
    ensures k < |s| ==> s[k] == NEWLINE
  {
    if s == [] || s[0] == NEWLINE then 0 else 1 + FirstNewline(s[1..])
  }

  lemma FirstNewlineAbsent(s: seq<byte>)
    ensures FirstNewline(s) == |s| <==> NEWLINE !in s
  {
    assert s[..|s|] == s;
  }

  /** A line carries exactly one newline, at its end. */
  predicate IsLine(s: seq<byte>) {
    s != [] && s[|s| - 1] == NEWLINE && NEWLINE !in s[..|s| - 1]
  }

  predicate AllLines(ls: seq<seq<byte>>) {
    forall i :: 0 <= i < |ls| ==> IsLine(ls[i])
  }

  /** The complete lines of a byte stream, in order. */
  function Lines(s: seq<byte>): seq<seq<byte>>
    decreases |s|
  {
    var k := FirstNewline(s);
    if k == |s| then [] else [s[..k + 1]] + Lines(s[k + 1..])
  }

  /** What follows the last complete line. */
  function Tail(s: seq<byte>): seq<byte>
    decreases |s|
  {
    var k := FirstNewline(s);
    if k == |s| then s else Tail(s[k + 1..])
  }

  /** A stream with a newline is its first line followed by the rest of the stream. */
  lemma CutFirstLine(s: seq<byte>) returns (l: seq<byte>, t: seq<byte>)
    requires FirstNewline(s) < |s|
    ensures s == l + t && IsLine(l)
    ensures l == s[..FirstNewline(s) + 1]
    ensures Lines(s) == [l] + Lines(t) && Tail(s) == Tail(t)
  {
    var k := FirstNewline(s);
    l, t := s[..k + 1], s[k + 1..];
    assert l[..k] == s[..k];
  }

  /** Lines and tail together are the stream: nothing is lost, added or reordered. */
  lemma {:induction false} SplitRestores(s: seq<byte>)
    ensures Flatten(Lines(s)) + Tail(s) == s
    decreases |s|
  {
    if FirstNewline(s) < |s| {
      var l, t := CutFirstLine(s);
      SplitRestores(t);
      FlattenCons(l, Lines(t), Tail(t));
    }
  }

  /** Each piece is a line, and no complete line is left in the tail. */
  lemma {:induction false} SplitShape(s: seq<byte>)
    ensures AllLines(Lines(s))
    ensures NEWLINE !in Tail(s)
    decreases |s|
  {
    if FirstNewline(s) == |s| {
      FirstNewlineAbsent(s);
    } else {
      var l, t := CutFirstLine(s);
      SplitShape(t);
    }
  }

  lemma {:induction false} FirstNewlineOfLine(l: seq<byte>, t: seq<byte>)
    requires IsLine(l)
    ensures FirstNewline(l + t) == |l| - 1
  {
    if |l| > 1 {
      assert l[0] == l[..|l| - 1][0];
      assert l[1..][..|l| - 2] == l[..|l| - 1][1..];
      FirstNewlineOfLine(l[1..], t);
      assert (l + t)[1..] == l[1..] + t;
    }
  }

  lemma SplitAfterLine(l: seq<byte>, t: seq<byte>)
    requires IsLine(l)
    ensures Lines(l + t) == [l] + Lines(t) && Tail(l + t) == Tail(t)
  {
    FirstNewlineOfLine(l, t);
    assert (l + t)[..|l|] == l;
    assert (l + t)[|l|..] == t;
  }

  /** The division is the only one: lines put in front of any string come out first. */
  lemma {:induction false} SplitOfLines(ls: seq<seq<byte>>, t: seq<byte>)
    requires AllLines(ls)
    ensures Lines(Flatten(ls) + t) == ls + Lines(t)
    ensures Tail(Flatten(ls) + t) == Tail(t)
  {
    if ls == [] {
      assert Flatten(ls) + t == t;
    } else {
      var l, ls' := ls[0], ls[1..];
      assert ls == [l] + ls';
      SplitOfLines(ls', t);
      SplitAfterLine(l, Flatten(ls') + t);
      FlattenCons(l, ls', t);
      ConsAppend(l, ls', Lines(t));
    }
  }

  function Newlines(s: seq<byte>): nat {
    multiset(s)[NEWLINE]
  }

  lemma NewlinesOfLine(l: seq<byte>)
    requires IsLine(l)
    ensures Newlines(l) == 1
  {
    assert l == l[..|l| - 1] + [NEWLINE];
    assert multiset(l[..|l| - 1])[NEWLINE] == 0;
  }

  /** There are as many complete lines as newlines. */
  lemma {:induction false} LinesCountNewlines(s: seq<byte>)
    ensures |Lines(s)| == Newlines(s)
    decreases |s|
  {
    if FirstNewline(s) == |s| {
      FirstNewlineAbsent(s);
    } else {
      var l, t := CutFirstLine(s);
      LinesCountNewlines(t);
      NewlinesOfLine(l);
    }
  }
}
