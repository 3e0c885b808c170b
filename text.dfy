/**
 * The JavaScript string primitives the extension calls: the `\s` and `\w` regular-expression
 * classes, trim, startsWith, includes, indexOf, lastIndexOf, slice, substring, split, join,
 * replace(/c/g, "") and toLowerCase. A Dafny string is a sequence of code points, while
 * JavaScript indexes UTF-16 code units; the indices here count code points, which agree with
 * JavaScript's on text inside the Basic Multilingual Plane. `Utf16Length` gives a string's
 * JavaScript `length`, for the one place where a length leaves the extension as a column.
 */
module Text {

  /** `\s` in a JavaScript regular expression; also exactly what `trim` strips. */
  predicate IsSpace(c: char)
  {
    c == '\t' || c == '\n' || c == '\U{000B}' || c == '\U{000C}' || c == '\r' || c == ' '
    || c == '\U{00A0}' || c == '\U{1680}' || ('\U{2000}' <= c <= '\U{200A}')
    || c == '\U{2028}' || c == '\U{2029}' || c == '\U{202F}' || c == '\U{205F}'
    || c == '\U{3000}' || c == '\U{FEFF}'
  }

  /** `\w` in a JavaScript regular expression without the `u` and `i` flags. */
  predicate IsWordChar(c: char)
  {
    ('a' <= c <= 'z') || ('A' <= c <= 'Z') || ('0' <= c <= '9') || c == '_'
  }

  /** The UTF-16 code units of `c`: a surrogate pair outside the Basic Multilingual Plane. */
  function Utf16Units(c: char): nat
  {
    if c as int >= 0x1_0000 then 2 else 1
  }

  /** `s.length` in JavaScript: at least one code unit per character, exactly one each iff no character lies outside the Basic Multilingual Plane. */
  function Utf16Length(s: string): (n: nat)
    ensures n >= |s|
    ensures n == |s| <==> forall i :: 0 <= i < |s| ==> s[i] as int < 0x1_0000
  {
    if s == [] then 0 else Utf16Units(s[0]) + Utf16Length(s[1..])
  }

  /** White space is one code unit per character. */
  lemma SpaceIsOneUnitEach(s: string)
    requires AllSpace(s)
    ensures Utf16Length(s) == |s|
  {
    forall i | 0 <= i < |s|
      ensures s[i] as int < 0x1_0000
    {
      assert IsSpace(s[i]);
    }
  }

  predicate AllSpace(s: string)
  {
    forall i :: 0 <= i < |s| ==> IsSpace(s[i])
  }

  /** `s.trimStart()`: the suffix of `s` after its leading white space. */
  function TrimStart(s: string): (r: string)
    ensures |r| <= |s| && r == s[|s| - |r|..]
    ensures AllSpace(s[..|s| - |r|])
    ensures r == [] || !IsSpace(r[0])
  {
    s[LeadingSpace(s)..]
  }

  /** The length of the run of white space that `s` starts with. */
  function LeadingSpace(s: string): (k: nat)
    ensures k <= |s| && AllSpace(s[..k])
    ensures k == |s| || !IsSpace(s[k])
  {
    if s != [] && IsSpace(s[0]) then
      var k := 1 + LeadingSpace(s[1..]);
      SpacePrefixExtends(s, k);
      k
    else 0
  }

  /** A run of white space after a leading space character extends back over it. */
  lemma SpacePrefixExtends(s: string, k: nat)
    requires 0 < k <= |s| && IsSpace(s[0]) && AllSpace(s[1..][..k - 1])
    ensures AllSpace(s[..k])
  {
    forall i | 0 <= i < k
      ensures IsSpace(s[..k][i])
    {
      if i > 0 {
        assert s[..k][i] == s[1..][..k - 1][i - 1];
      }
    }
  }

  /** `s.trimEnd()`: the prefix of `s` before its trailing white space. */
  function TrimEnd(s: string): (r: string)
    ensures |r| <= |s| && r == s[..|r|]
    ensures AllSpace(s[|r|..])
    ensures r == [] || !IsSpace(r[|r| - 1])
  {
    if s != [] && IsSpace(s[|s| - 1]) then TrimEnd(s[..|s| - 1]) else s
  }

  /** `s.trim()`: `s` without white space at either end. */
  function Trim(s: string): (r: string)
    ensures |r| <= |s|
    ensures r == [] || (!IsSpace(r[0]) && !IsSpace(r[|r| - 1]))
  {
    TrimEnd(TrimStart(s))
  }

  predicate StartsWith(s: string, prefix: string)
  {
    |prefix| <= |s| && s[..|prefix|] == prefix
  }

  /** `t` occurs in `s` at index `k`. */
  predicate OccursAt(s: string, t: string, k: int)
  {
    0 <= k && k + |t| <= |s| && s[k..k + |t|] == t
  }

  /** JavaScript clamps a `fromIndex` into the string. */
  function Clamp(k: int, n: nat): (r: nat)
    ensures r <= n
  {
    if k < 0 then 0 else if k > n then n else k
  }

  /** `s.indexOf(t, from)`: the first occurrence at or after the clamped `from`, or -1. */
  function IndexOf(s: string, t: string, from: int): (r: int)
    ensures r == -1 || (Clamp(from, |s|) <= r && OccursAt(s, t, r))
    ensures forall k :: Clamp(from, |s|) <= k && (r == -1 || k < r) ==> !OccursAt(s, t, k)
  {
    IndexFrom(s, t, Clamp(from, |s|))
  }

  function IndexFrom(s: string, t: string, k: nat): (r: int)
    requires k <= |s|
    ensures r == -1 || (k <= r && OccursAt(s, t, r))
    ensures forall j :: k <= j && (r == -1 || j < r) ==> !OccursAt(s, t, j)
    decreases |s| - k
  {
    if OccursAt(s, t, k) then k
    else if k == |s| then -1
    else IndexFrom(s, t, k + 1)
  }

  /** `s.indexOf(c)` for a one-character needle: the first `c`, or -1 iff there is none. */
  lemma CharIndexOf(s: string, c: char)
    ensures var k := IndexOf(s, [c], 0);
      && (k >= 0 <==> c in s)
      && (k >= 0 ==> k < |s| && s[k] == c && c !in s[..k])
  {
    var k := IndexOf(s, [c], 0);
    forall j | 0 <= j < |s|
      ensures OccursAt(s, [c], j) <==> s[j] == c
    {
      assert s[j..j + 1] == [s[j]];
    }
    if c in s {
      var j :| 0 <= j < |s| && s[j] == c;
      assert OccursAt(s, [c], j);
    }
    if k >= 0 {
      assert forall j :: 0 <= j < k ==> s[..k][j] != c;
    }
  }

  /** `s.includes(t)`. */
  predicate Includes(s: string, t: string)
  {
    IndexOf(s, t, 0) >= 0
  }

  /** `s.lastIndexOf(c)` for a one-character needle. */
  function LastIndexOf(s: string, c: char): (r: int)
    ensures -1 <= r < |s|
    ensures r >= 0 ==> s[r] == c
    ensures forall j :: r < j < |s| ==> s[j] != c
  {
    if s == [] then -1
    else if s[|s| - 1] == c then |s| - 1
    else LastIndexOf(s[..|s| - 1], c)
  }

  /** A `slice` bound: a negative one counts from the end; both are clamped into the string. */
  function SliceBound(k: int, n: nat): (r: nat)
    ensures r <= n
  {
    if k < 0 then (if n + k < 0 then 0 else n + k) else if k > n then n else k
  }

  /** `s.slice(b, e)`. */
  function Slice(s: string, b: int, e: int): (r: string)
    ensures |r| <= |s|
  {
    var lo, hi := SliceBound(b, |s|), SliceBound(e, |s|);
    if lo >= hi then "" else s[lo..hi]
  }

  /** `s.substring(b)`: the text from index `b` on; a negative `b` keeps all of `s`, one past the end none. */
  function Substring(s: string, b: int): (r: string)
    ensures 0 <= b <= |s| ==> s[..b] + r == s
    ensures b <= 0 ==> r == s
    ensures b >= |s| ==> r == []
  {
    s[Clamp(b, |s|)..]
  }

  /** `s.replace(/c/g, "")`: `s` with every `c` deleted. */
  function RemoveAll(s: string, c: char): (r: string)
    ensures c !in r
    ensures forall x :: x != c ==> (x in r <==> x in s)
    ensures c !in s ==> r == s
    ensures |s| == 1 ==> r == if s[0] == c then "" else s
  {
    if s == [] then ""
    else (if s[0] == c then "" else [s[0]]) + RemoveAll(s[1..], c)
  }

  /**
   * Deleting `c` works piece by piece: with the one-character case above, the result is
   * `s` with each `c` cut out and every other character kept, in order.
   */
  lemma {:induction false} RemoveAllConcat(a: string, b: string, c: char)
    ensures RemoveAll(a + b, c) == RemoveAll(a, c) + RemoveAll(b, c)
    decreases |a|
  {
    if a == [] {
      assert a + b == b;
    } else {
      var head := if a[0] == c then "" else [a[0]];
      var t := a + b;
      assert t != [] && t[0] == a[0] && t[1..] == a[1..] + b;
      assert RemoveAll(t, c) == head + RemoveAll(a[1..] + b, c);
      RemoveAllConcat(a[1..], b, c);
      var x, y := RemoveAll(a[1..], c), RemoveAll(b, c);
      assert head + x + y == head + (x + y);
    }
  }

  /** `s.split(sep)` for a non-empty separator: cut at each occurrence, scanning left to right. */
  function Split(s: string, sep: string): (r: seq<string>)
    requires sep != ""
    ensures |r| >= 1
    ensures forall i :: 0 <= i < |r| ==> !Includes(r[i], sep)
    ensures |r| == 1 <==> IndexOf(s, sep, 0) == -1
    ensures |r| > 1 ==> IndexOf(s, sep, 0) == |r[0]|
    decreases |s|
  {
    var k := IndexOf(s, sep, 0);
    if k < 0 then [s]
    else
      NoEarlierOccurrence(s, sep, k);
      [s[..k]] + Split(s[k + |sep|..], sep)
  }

  /** A prefix that ends before the first occurrence of `t` does not include `t`. */
  lemma NoEarlierOccurrence(s: string, t: string, k: nat)
    requires t != "" && k <= |s|
    requires forall j :: 0 <= j < k ==> !OccursAt(s, t, j)
    ensures !Includes(s[..k], t)
  {
    forall j | 0 <= j && j + |t| <= k
      ensures !OccursAt(s[..k], t, j)
    {
      assert s[..k][j..j + |t|] == s[j..j + |t|];
      assert !OccursAt(s, t, j);
    }
  }

  /** `parts.join(sep)`. */
  function Join(parts: seq<string>, sep: string): string
  {
    if parts == [] then ""
    else if |parts| == 1 then parts[0]
    else parts[0] + sep + Join(parts[1..], sep)
  }

  lemma {:induction false} JoinSplit(s: string, sep: string)
    requires sep != ""
    ensures Join(Split(s, sep), sep) == s
    decreases |s|
  {
    var k := IndexOf(s, sep, 0);
    if k >= 0 {
      var rest := s[k + |sep|..];
      var tail := Split(rest, sep);
      JoinSplit(rest, sep);
      assert Split(s, sep) == [s[..k]] + tail;
      assert ([s[..k]] + tail)[1..] == tail;
      assert Join(Split(s, sep), sep) == s[..k] + sep + Join(tail, sep);
      assert s[k..k + |sep|] == sep;
      assert s == s[..k] + s[k..k + |sep|] + rest;
    }
  }

  /** An occurrence in `b` is one in `a + b + c`, shifted by `|a|`. */
  lemma OccursInConcat(a: string, b: string, c: string, t: string, k: int)
    requires OccursAt(b, t, k)
    ensures OccursAt(a + b + c, t, |a| + k)
  {
    assert (a + b + c)[|a| + k..|a| + k + |t|] == b[k..k + |t|];
  }

  /** `s.includes(t)` holds as soon as `t` occurs anywhere in `s`. */
  lemma OccurrenceIsIncluded(s: string, t: string, k: int)
    requires OccursAt(s, t, k)
    ensures Includes(s, t)
  {
    assert Clamp(0, |s|) <= k;
  }

  /** What `b` includes, `a + b + c` includes too. */
  lemma IncludesInConcat(a: string, b: string, c: string, t: string)
    requires Includes(b, t)
    ensures Includes(a + b + c, t)
  {
    var k := IndexOf(b, t, 0);
    OccursInConcat(a, b, c, t, k);
    OccurrenceIsIncluded(a + b + c, t, |a| + k);
  }

  /** What `t` includes, anything that includes `t` includes too. */
  lemma IncludesIsTransitive(s: string, t: string, u: string)
    requires Includes(s, t) && Includes(t, u)
    ensures Includes(s, u)
  {
    var i := IndexOf(s, t, 0);
    var j := IndexOf(t, u, 0);
    assert s[i..i + |t|] == t;
    assert s[i..i + |t|][j..j + |u|] == s[i + j..i + j + |u|];
    OccurrenceIsIncluded(s, u, i + j);
  }

  /** Each part of `parts.join(sep)` occurs in it. */
  lemma {:induction false} JoinIncludesEachPart(parts: seq<string>, sep: string, i: nat)
    requires i < |parts|
    ensures Includes(Join(parts, sep), parts[i])
    decreases |parts|
  {
    var p := parts[i];
    assert OccursAt(p, p, 0);
    OccurrenceIsIncluded(p, p, 0);
    if |parts| > 1 {
      var rest := Join(parts[1..], sep);
      assert Join(parts, sep) == parts[0] + sep + rest;
      if i == 0 {
        IncludesInConcat("", p, sep + rest, p);
        assert "" + p + (sep + rest) == Join(parts, sep);
      } else {
        JoinIncludesEachPart(parts[1..], sep, i - 1);
        IncludesInConcat(parts[0] + sep, rest, "", p);
        assert parts[0] + sep + rest + "" == Join(parts, sep);
      }
    }
  }

  /** Splitting at a one-character separator that `a` does not contain cuts off `a` first. */
  lemma SplitAtFirstChar(a: string, c: char, b: string)
    requires c !in a
    ensures Split(a + [c] + b, [c]) == [a] + Split(b, [c])
  {
    var s := a + [c] + b;
    CharIndexOf(s, c);
    var k := IndexOf(s, [c], 0);
    assert s[|a|] == c;
    assert s[..|a|] == a;
    assert s[|a| + 1..] == b;
  }

  function ToLowerChar(c: char): char
  {
    if 'A' <= c <= 'Z' then (c as int + 32) as char else c
  }

  /** `s.toLowerCase()` on the ASCII letters. */
  function ToLowerAscii(s: string): (r: string)
    ensures |r| == |s|
    ensures forall i :: 0 <= i < |s| ==> r[i] == ToLowerChar(s[i])
  {
    if s == [] then "" else [ToLowerChar(s[0])] + ToLowerAscii(s[1..])
  }
}
