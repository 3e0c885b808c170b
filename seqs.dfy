/** The Array.prototype methods the extension relies on, over Dafny sequences. */
module Seqs {
  import opened Wrappers

  /** `s.findIndex(p)`: the index of the first element satisfying `p`, or -1. */
  function FindIndex<T>(s: seq<T>, p: T -> bool): (r: int)
    ensures -1 <= r < |s|
    ensures r >= 0 ==> p(s[r]) && forall j :: 0 <= j < r ==> !p(s[j])
    ensures r == -1 ==> forall j :: 0 <= j < |s| ==> !p(s[j])
  {
    if s == [] then -1
    else if p(s[0]) then 0
    else
      var k := FindIndex(s[1..], p);
      if k < 0 then -1 else k + 1
  }

  /** `s.find(p)`: the first element satisfying `p`, or undefined. */
  function Find<T>(s: seq<T>, p: T -> bool): (r: Option<T>)
    ensures r.Some? ==> exists i :: 0 <= i < |s| && s[i] == r.value && p(s[i]) && forall j :: 0 <= j < i ==> !p(s[j])
    ensures r.None? <==> forall j :: 0 <= j < |s| ==> !p(s[j])
  {
    var k := FindIndex(s, p);
    if k < 0 then None else Some(s[k])
  }

  /** A search over a concatenation finds in the first part if it can, else in the second. */
  lemma {:induction false} FindConcat<T>(a: seq<T>, b: seq<T>, p: T -> bool)
    ensures Find(a + b, p) == if Find(a, p).Some? then Find(a, p) else Find(b, p)
  {
    if a != [] {
      FindConcat(a[1..], b, p);
      assert (a + b)[1..] == a[1..] + b;
      assert Find(a + b, p) == if p(a[0]) then Some(a[0]) else Find(a[1..] + b, p);
      assert Find(a, p) == if p(a[0]) then Some(a[0]) else Find(a[1..], p);
    } else {
      assert a + b == b;
    }
  }

  lemma AppendAssoc<T>(a: seq<T>, b: seq<T>, c: seq<T>)
    ensures a + b + c == a + (b + c)
  {
  }

  /** A search over `[x] + a + b` tries `x`, then `a`, then `b`. */
  lemma FindAfterHead<T>(x: T, a: seq<T>, b: seq<T>, p: T -> bool)
    ensures Find([x] + a + b, p) ==
      if p(x) then Some(x) else if Find(a, p).Some? then Find(a, p) else Find(b, p)
  {
    FindConcat([x] + a, b, p);
    FindConcat([x], a, p);
    assert [x][1..] == [];
  }

  /** `v => !!v` on an optional value. */
  function IsPresent<T>(b: Option<T>): bool
  {
    b.Some?
  }

  /** `s.reverse().find(v => !!v)`, with the absent result flattened: the last present element. */
  function LastPresent<T>(s: seq<Option<T>>): Option<T>
  {
    var found := Find(Reverse(s), IsPresent);
    if found.Some? then found.value else None
  }

  /** No element of `s` after index `k` is present. */
  predicate NoneAfter<T>(s: seq<Option<T>>, k: int)
  {
    forall j :: k < j < |s| && 0 <= j ==> s[j].None?
  }

  /** The reversed search finds the last present element, and nothing iff none is present. */
  lemma LastPresentIsLast<T>(s: seq<Option<T>>)
    ensures LastPresent(s).None? <==> NoneAfter(s, -1)
    ensures LastPresent(s).Some? ==> exists k :: 0 <= k < |s| && s[k] == LastPresent(s) && NoneAfter(s, k)
  {
    var reversed := Reverse(s);
    var n := |s|;
    var found := Find(reversed, IsPresent);
    if found.Some? {
      var i :| 0 <= i < n && reversed[i] == found.value && IsPresent(reversed[i])
               && forall j :: 0 <= j < i ==> !IsPresent(reversed[j]);
      var k := n - 1 - i;
      assert reversed[i] == s[k];
      forall j | k < j < n && 0 <= j
        ensures s[j].None?
      {
        assert reversed[n - 1 - j] == s[j];
        assert !IsPresent(reversed[n - 1 - j]);
      }
    } else {
      forall j | -1 < j < n && 0 <= j
        ensures s[j].None?
      {
        assert reversed[n - 1 - j] == s[j];
      }
    }
  }

  /** `s.filter(p)`. */
  function Filter<T>(s: seq<T>, p: T -> bool): (r: seq<T>)
    ensures |r| <= |s|
    ensures forall i :: 0 <= i < |r| ==> r[i] in s && p(r[i])
    ensures forall i :: 0 <= i < |s| && p(s[i]) ==> s[i] in r
  {
    if s == [] then []
    else (if p(s[0]) then [s[0]] else []) + Filter(s[1..], p)
  }

  /** `a` is obtained from `b` by deleting elements, keeping the order of the rest. */
  predicate IsSubsequence<T(==)>(a: seq<T>, b: seq<T>)
  {
    if a == [] then true
    else if b == [] then false
    else (a[0] == b[0] && IsSubsequence(a[1..], b[1..])) || IsSubsequence(a, b[1..])
  }

  lemma {:induction false} FilterIsSubsequence<T>(s: seq<T>, p: T -> bool)
    ensures IsSubsequence(Filter(s, p), s)
  {
    if s != [] {
      FilterIsSubsequence(s[1..], p);
      if p(s[0]) {
        assert Filter(s, p) == [s[0]] + Filter(s[1..], p);
        assert Filter(s, p)[1..] == Filter(s[1..], p);
      } else {
        assert Filter(s, p) == Filter(s[1..], p);
        if Filter(s, p) != [] {
          assert IsSubsequence(Filter(s, p), s[1..]);
        }
      }
    }
  }

  lemma {:induction false} SubsequenceExtendLeft<T>(a: seq<T>, b: seq<T>, c: seq<T>)
    requires IsSubsequence(a, b)
    ensures IsSubsequence(a, c + b)
  {
    if c != [] && a != [] {
      SubsequenceExtendLeft(a, b, c[1..]);
      assert (c + b)[1..] == c[1..] + b;
    } else if c == [] {
      assert c + b == b;
    }
  }

  lemma {:induction false} SubsequenceConcat<T>(a1: seq<T>, b1: seq<T>, a2: seq<T>, b2: seq<T>)
    requires IsSubsequence(a1, b1) && IsSubsequence(a2, b2)
    ensures IsSubsequence(a1 + a2, b1 + b2)
    decreases |b1|
  {
    if a1 == [] {
      assert a1 + a2 == a2;
      SubsequenceExtendLeft(a2, b2, b1);
    } else {
      assert (b1 + b2)[1..] == b1[1..] + b2;
      if a1[0] == b1[0] && IsSubsequence(a1[1..], b1[1..]) {
        SubsequenceConcat(a1[1..], b1[1..], a2, b2);
        assert (a1 + a2)[1..] == a1[1..] + a2;
      } else {
        SubsequenceConcat(a1, b1[1..], a2, b2);
      }
    }
  }

  /** `s.reverse()`, as a value. */
  function Reverse<T>(s: seq<T>): (r: seq<T>)
    ensures |r| == |s|
    ensures forall i :: 0 <= i < |s| ==> r[i] == s[|s| - 1 - i]
  {
    if s == [] then [] else Reverse(s[1..]) + [s[0]]
  }

  lemma ReverseReverse<T>(s: seq<T>)
    ensures Reverse(Reverse(s)) == s
  {
  }

  function Last<T>(s: seq<T>): T
    requires s != []
  {
    s[|s| - 1]
  }
}
