/** LINQ-style helpers of CollectionUtils.cs, over finite sequences. A .NET enumerable is a
    `seq`, a predicate a total function, and an ICollection a `Collection` object. */
module CollectionUtils {

  /** Enumerable.Any(predicate) */
  function Any<T>(s: seq<T>, p: T -> bool): (r: bool)
    ensures r <==> exists i :: 0 <= i < |s| && p(s[i])
  {
    if s == [] then false
    else p(s[0]) || Any(s[1..], p)
  }

  /** Empty: !enumerable.Any(). True exactly for the empty sequence. */
  function Empty<T>(s: seq<T>): (r: bool)
    ensures r <==> |s| == 0
  {
    !Any(s, _ => true)
  }

  /** Enumerable.Where(predicate): the elements satisfying p, in source order. */
  function Where<T>(s: seq<T>, p: T -> bool): (r: seq<T>)
    ensures |r| <= |s|
    ensures forall i :: 0 <= i < |r| ==> r[i] in s && p(r[i])
    ensures forall i :: 0 <= i < |s| && p(s[i]) ==> s[i] in r
  {
    if s == [] then []
    else (if p(s[0]) then [s[0]] else []) + Where(s[1..], p)
  }

  /** WhereNot(predicate): source.Where(t => !predicate(t)). */
  function WhereNot<T>(s: seq<T>, p: T -> bool): (r: seq<T>)
    ensures forall i :: 0 <= i < |r| ==> r[i] in s && !p(r[i])
    ensures forall i :: 0 <= i < |s| && !p(s[i]) ==> s[i] in r
  {
    Where(s, x => !p(x))
  }

  lemma WhereNotIsSubsequence<T>(s: seq<T>, p: T -> bool)
    ensures IsSubsequence(WhereNot(s, p), s)
  {
    WhereIsSubsequence(s, x => !p(x));
  }

  /** Where distributes over concatenation. */
  lemma {:induction false} WhereAppend<T>(a: seq<T>, b: seq<T>, p: T -> bool)
    ensures Where(a + b, p) == Where(a, p) + Where(b, p)
  {
    if a != [] {
      WhereAppend(a[1..], b, p);
      assert (a + b)[1..] == a[1..] + b;
    } else {
      assert a + b == b;
    }
  }

  /** `a` is obtained from `b` by deleting elements: order is preserved. */
  ghost predicate IsSubsequence<T>(a: seq<T>, b: seq<T>)
    decreases |b|
  {
    if a == [] then true
    else if b == [] then false
    else (a[0] == b[0] && IsSubsequence(a[1..], b[1..])) || IsSubsequence(a, b[1..])
  }

  lemma {:induction false} SubsequenceReflexive<T>(a: seq<T>)
    ensures IsSubsequence(a, a)
  {
    if a != [] {
      SubsequenceReflexive(a[1..]);
    }
  }

  lemma {:induction false} SubsequenceTransitive<T>(a: seq<T>, b: seq<T>, c: seq<T>)
    requires IsSubsequence(a, b) && IsSubsequence(b, c)
    ensures IsSubsequence(a, c)
    decreases |c|
  {
    if a != [] && c != [] {
      if IsSubsequence(b, c[1..]) {
        SubsequenceTransitive(a, b, c[1..]);
      } else {
        assert b[0] == c[0] && IsSubsequence(b[1..], c[1..]);
        if a[0] == b[0] && IsSubsequence(a[1..], b[1..]) {
          SubsequenceTransitive(a[1..], b[1..], c[1..]);
        } else {
          SubsequenceTransitive(a, b[1..], c[1..]);
        }
      }
    }
  }

  /** Deleting the element at i leaves a subsequence. */
  lemma {:induction false} SubsequenceDelete<T>(a: seq<T>, i: nat)
    requires i < |a|
    ensures IsSubsequence(a[..i] + a[i + 1..], a)
  {
    if i == 0 {
      SubsequenceReflexive(a[1..]);
      assert a[..0] + a[1..] == a[1..];
    } else {
      SubsequenceDelete(a[1..], i - 1);
      var d := a[..i] + a[i + 1..];
      assert d[0] == a[0];
      assert d[1..] == a[1..][..i - 1] + a[1..][i..];
    }
  }

  /** Every element of a subsequence is an element of the sequence. */
  lemma {:induction false} SubsequenceMembers<T>(a: seq<T>, b: seq<T>)
    requires IsSubsequence(a, b)
    ensures forall x :: x in a ==> x in b
    decreases |b|
  {
    if a != [] {
      if a[0] == b[0] && IsSubsequence(a[1..], b[1..]) {
        SubsequenceMembers(a[1..], b[1..]);
        assert forall x :: x in a ==> x == a[0] || x in a[1..];
      } else {
        SubsequenceMembers(a, b[1..]);
      }
    }
  }

  /** Where and WhereNot split the source: together they hold every element exactly as
      often as the source does ... */
  lemma {:induction false} WherePartitionCounts<T>(s: seq<T>, p: T -> bool)
    ensures multiset(Where(s, p)) + multiset(WhereNot(s, p)) == multiset(s)
  {
    if s != [] {
      var yes, no := Where(s[1..], p), WhereNot(s[1..], p);
      WherePartitionCounts(s[1..], p);
      assert s == [s[0]] + s[1..];
      if p(s[0]) {
        assert Where(s, p) == [s[0]] + yes;
        assert WhereNot(s, p) == no;
      } else {
        assert Where(s, p) == yes;
        assert WhereNot(s, p) == [s[0]] + no;
      }
    }
  }

  /** ... and each of them keeps its elements in source order. */
  lemma {:induction false} WhereIsSubsequence<T>(s: seq<T>, p: T -> bool)
    ensures IsSubsequence(Where(s, p), s)
  {
    if s != [] {
      WhereIsSubsequence(s[1..], p);
      if p(s[0]) {
        assert ([s[0]] + Where(s[1..], p))[1..] == Where(s[1..], p);
      } else {
        assert Where(s, p) == Where(s[1..], p);
      }
    }
  }

  /** The length of the longest prefix of s whose elements all satisfy q. */
  function WhileEnd<T>(s: seq<T>, q: T -> bool): (k: nat)
    ensures k <= |s|
    ensures forall i :: 0 <= i < k ==> q(s[i])
    ensures k < |s| ==> !q(s[k])
    decreases |s|
  {
    if s != [] && q(s[0]) then 1 + WhileEnd(s[1..], q) else 0
  }

  /** Enumerable.SkipWhile(predicate) */
  function SkipWhile<T>(s: seq<T>, q: T -> bool): (r: seq<T>)
    ensures |r| <= |s| && r == s[|s| - |r|..]
    ensures forall i :: 0 <= i < |s| - |r| ==> q(s[i])
    ensures r == [] || !q(r[0])
  {
    s[WhileEnd(s, q)..]
  }

  /** Enumerable.TakeWhile(predicate) */
  function TakeWhile<T>(s: seq<T>, q: T -> bool): (r: seq<T>)
    ensures |r| <= |s| && r == s[..|r|]
    ensures forall i :: 0 <= i < |r| ==> q(s[i])
    ensures |r| < |s| ==> !q(s[|r|])
  {
    s[..WhileEnd(s, q)]
  }

  /** SkipUntil(predicate): drops the elements before the first one satisfying p. */
  function SkipUntil<T>(s: seq<T>, p: T -> bool): (r: seq<T>)
    ensures |r| <= |s| && r == s[|s| - |r|..]
    ensures forall i :: 0 <= i < |s| - |r| ==> !p(s[i])
    ensures r == [] || p(r[0])
  {
    SkipWhile(s, t => !p(t))
  }

  /** TakeUntil(predicate): the elements before the first one satisfying p. */
  function TakeUntil<T>(s: seq<T>, p: T -> bool): (r: seq<T>)
    ensures |r| <= |s| && r == s[..|r|]
    ensures forall i :: 0 <= i < |r| ==> !p(s[i])
    ensures |r| < |s| ==> p(s[|r|])
  {
    TakeWhile(s, t => !p(t))
  }

  lemma TakeWhileThenSkipWhile<T>(s: seq<T>, q: T -> bool)
    ensures TakeWhile(s, q) + SkipWhile(s, q) == s
  {
    var k := WhileEnd(s, q);
    assert s[..k] + s[k..] == s;
  }

  /** TakeUntil and SkipUntil with one predicate cut the source at one place. */
  lemma TakeUntilThenSkipUntil<T>(s: seq<T>, p: T -> bool)
    ensures TakeUntil(s, p) + SkipUntil(s, p) == s
  {
    TakeWhileThenSkipWhile(s, t => !p(t));
  }

  /** The position of the first element at index >= k satisfying p(element, index), or |s|. */
  function FirstIndexFrom<T>(s: seq<T>, p: (T, int) -> bool, k: nat): (r: nat)
    requires k <= |s|
    ensures k <= r <= |s|
    ensures forall i :: k <= i < r ==> !p(s[i], i)
    ensures r < |s| ==> p(s[r], r)
    decreases |s| - k
  {
    if k == |s| || p(s[k], k) then k else FirstIndexFrom(s, p, k + 1)
  }

  /** SkipUntil((t, i) => ...): each element's predicate sees its position in the source. */
  function SkipUntilIndexed<T>(s: seq<T>, p: (T, int) -> bool): (r: seq<T>)
    ensures |r| <= |s| && r == s[|s| - |r|..]
    ensures forall i :: 0 <= i < |s| - |r| ==> !p(s[i], i)
    ensures r == [] || p(r[0], |s| - |r|)
  {
    s[FirstIndexFrom(s, p, 0)..]
  }

  /** TakeUntil((t, i) => ...): each element's predicate sees its position in the source. */
  function TakeUntilIndexed<T>(s: seq<T>, p: (T, int) -> bool): (r: seq<T>)
    ensures |r| <= |s| && r == s[..|r|]
    ensures forall i :: 0 <= i < |r| ==> !p(s[i], i)
    ensures |r| < |s| ==> p(s[|r|], |r|)
  {
    s[..FirstIndexFrom(s, p, 0)]
  }

  /** The positions j >= k of s whose (element, position) satisfies p, ascending. */
  ghost function Positions<T>(s: seq<T>, p: (T, int) -> bool, k: nat): (idx: seq<nat>)
    requires k <= |s|
    ensures forall m :: 0 <= m < |idx| ==> k <= idx[m] < |s| && p(s[idx[m]], idx[m])
    ensures forall m, n :: 0 <= m < n < |idx| ==> idx[m] < idx[n]
    ensures forall j :: k <= j < |s| && p(s[j], j) ==> j in idx
    decreases |s| - k
  {
    if k == |s| then []
    else (if p(s[k], k) then [k] else []) + Positions(s, p, k + 1)
  }

  /** The elements of s at the positions idx, in that order. */
  ghost function At<T>(s: seq<T>, idx: seq<nat>): (r: seq<T>)
    requires forall m :: 0 <= m < |idx| ==> idx[m] < |s|
    ensures |r| == |idx| && forall m :: 0 <= m < |idx| ==> r[m] == s[idx[m]]
  {
    seq(|idx|, m requires 0 <= m < |idx| => s[idx[m]])
  }

  lemma AtAppend<T>(s: seq<T>, a: seq<nat>, b: seq<nat>)
    requires forall m :: 0 <= m < |a| ==> a[m] < |s|
    requires forall m :: 0 <= m < |b| ==> b[m] < |s|
    ensures At(s, a + b) == At(s, a) + At(s, b)
  {
  }

  /** Where((t, i) => ...) over the positions from k on: exactly the elements whose
      (element, position) satisfies p, in source order. */
  function WhereIndexedFrom<T>(s: seq<T>, p: (T, int) -> bool, k: nat): (r: seq<T>)
    requires k <= |s|
    ensures |r| <= |s| - k
    ensures r == At(s, Positions(s, p, k))
    decreases |s| - k
  {
    if k == |s| then []
    else
      var tail := WhereIndexedFrom(s, p, k + 1);
      ghost var head: seq<nat> := if p(s[k], k) then [k] else [];
      ghost var rest := Positions(s, p, k + 1);
      assert Positions(s, p, k) == head + rest;
      AtAppend(s, head, rest);
      assert At(s, head) == (if p(s[k], k) then [s[k]] else []);
      (if p(s[k], k) then [s[k]] else []) + tail
  }

  /** WhereNot((t, i) => ...): exactly the elements whose (element, position) fails p, in
      source order. */
  function WhereNotIndexed<T>(s: seq<T>, p: (T, int) -> bool): (r: seq<T>)
    ensures |r| <= |s|
    ensures r == At(s, Positions(s, (t, i) => !p(t, i), 0))
  {
    WhereIndexedFrom(s, (t, i) => !p(t, i), 0)
  }

  /** The indexed WhereNot keeps an element exactly when its own (element, position) fails p:
      a position-independent predicate gives the plain WhereNot. */
  lemma {:induction false} WhereNotIndexedAgrees<T>(s: seq<T>, p: T -> bool, k: nat)
    requires k <= |s|
    ensures WhereIndexedFrom(s, (t, i) => !p(t), k) == WhereNot(s[k..], p)
    decreases |s| - k
  {
    if k < |s| {
      WhereNotIndexedAgrees(s, p, k + 1);
      assert s[k..][1..] == s[k + 1..];
    }
  }

  /** Enumerable.Reverse() */
  function Reverse<T>(s: seq<T>): (r: seq<T>)
    ensures |r| == |s|
    ensures forall i :: 0 <= i < |s| ==> r[i] == s[|s| - 1 - i]
  {
    seq(|s|, i requires 0 <= i < |s| => s[|s| - 1 - i])
  }

  /** Reversing a suffix one element longer puts that element last. */
  lemma ReverseStep<T>(s: seq<T>, j: nat)
    requires j < |s|
    ensures Reverse(s[j..]) == Reverse(s[j + 1..]) + [s[j]]
  {
  }

  /** The state after running `action` on each element in turn, starting from `init`. */
  function Fold<S, T>(s: seq<T>, action: (S, T) -> S, init: S): S
    decreases |s|
  {
    if s == [] then init else Fold(s[1..], action, action(init, s[0]))
  }

  lemma {:induction false} FoldSnoc<S, T>(s: seq<T>, x: T, action: (S, T) -> S, init: S)
    ensures Fold(s + [x], action, init) == action(Fold(s, action, init), x)
    decreases |s|
  {
    if s != [] {
      assert (s + [x])[1..] == s[1..] + [x];
      FoldSnoc(s[1..], x, action, action(init, s[0]));
    }
  }

  /** ForEach(action): runs the action once per element, in order. The action's effect is
      modelled as a transformer of the state it acts on. */
  method ForEach<S, T>(s: seq<T>, action: (S, T) -> S, init: S) returns (state: S)
    ensures state == Fold(s, action, init)
  {
    state := init;
    var i := 0;
    while i < |s|
      invariant 0 <= i <= |s|
      invariant state == Fold(s[..i], action, init)
    {
      FoldSnoc(s[..i], s[i], action, init);
      assert s[..i + 1] == s[..i] + [s[i]];
      state := action(state, s[i]);
      i := i + 1;
    }
    assert s[..i] == s;
  }

  /** An action that records its argument sees every element exactly once, in order. */
  lemma {:induction false} ForEachVisitsInOrder<T>(s: seq<T>, seen: seq<T>)
    ensures Fold(s, (trace: seq<T>, x: T) => trace + [x], seen) == seen + s
    decreases |s|
  {
    if s != [] {
      ForEachVisitsInOrder(s[1..], seen + [s[0]]);
      assert seen + [s[0]] + s[1..] == seen + s;
    }
  }

  /** An ICollection<T>: its items in insertion order. */
  class Collection<T> {
    var items: seq<T>

    constructor ()
      ensures items == []
    {
      items := [];
    }

    /** ICollection.Add */
    method Add(x: T)
      modifies this
      ensures items == old(items) + [x]
    {
      items := items + [x];
    }

    /** AddRange: appends every source element, in source order; removes nothing. */
    method AddRange(source: seq<T>)
      modifies this
      ensures items == old(items) + source
    {
      var i := 0;
      while i < |source|
        invariant 0 <= i <= |source|
        invariant items == old(items) + source[..i]
      {
        Add(source[i]);
        assert source[..i + 1] == source[..i] + [source[i]];
        i := i + 1;
      }
      assert source[..i] == source;
    }
  }
}
