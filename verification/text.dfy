/** String operations the source performs through Python's `str` methods:
    `", ".join(...)`, `startswith`, `in` (substring test) and `split`. */
module Text {
  import opened Wrappers

  /** Python's `sep.join(parts)`. */
  function Join(sep: string, parts: seq<string>): string
  {
    if parts == [] then ""
    else if |parts| == 1 then parts[0]
    else parts[0] + sep + Join(sep, parts[1..])
  }

  /** `n` copies of `c`, as Python's `c * n`. */
  function Repeat(c: char, n: nat): (r: string)
    ensures |r| == n
    ensures forall i :: 0 <= i < n ==> r[i] == c
  {
    if n == 0 then "" else Repeat(c, n - 1) + [c]
  }

  predicate StartsWith(s: string, prefix: string)
  {
    |prefix| <= |s| && s[..|prefix|] == prefix
  }

  /** `pattern` occurs in `s` starting at index `i`. */
  predicate OccursAt(s: string, pattern: string, i: int)
  {
    0 <= i && i + |pattern| <= |s| && s[i..i + |pattern|] == pattern
  }

  /** Python's `pattern in s`. */
  predicate Contains(s: string, pattern: string)
  {
    exists i :: 0 <= i <= |s| && OccursAt(s, pattern, i)
  }

  /** `pattern` occurs in `s`, and at one index only. */
  predicate OccursOnce(s: string, pattern: string)
  {
    Contains(s, pattern)
    && forall i, j :: 0 <= i <= |s| && 0 <= j <= |s| && OccursAt(s, pattern, i) && OccursAt(s, pattern, j) ==> i == j
  }

  /** The index of the leftmost occurrence of `pattern` in `s`, as `s.find`
      (FindIsLeftmost states that nothing occurs earlier and that None means
      no occurrence at all). */
  function Find(s: string, pattern: string): (r: Option<nat>)
    ensures r.Some? ==> OccursAt(s, pattern, r.value)
    decreases |s|
  {
    if |s| < |pattern| then None
    else if s[..|pattern|] == pattern then Some(0)
    else
      match Find(s[1..], pattern)
      case None => None
      case Some(k) =>
        OccursShifted(s, pattern, k + 1);
        Some(k + 1)
  }

  /** An occurrence at `j >= 1` in `s` is one at `j - 1` in `s[1..]`. */
  lemma OccursShifted(s: string, pattern: string, j: nat)
    requires 1 <= j && |s| >= 1
    ensures OccursAt(s, pattern, j) <==> OccursAt(s[1..], pattern, j - 1)
  {
    if j + |pattern| <= |s| {
      var here, there := s[j..j + |pattern|], s[1..][j - 1..j - 1 + |pattern|];
      forall k | 0 <= k < |pattern|
        ensures here[k] == there[k]
      {
        assert here[k] == s[j + k];
      }
      assert here == there;
    }
  }

  lemma {:induction false} FindIsLeftmost(s: string, pattern: string)
    ensures Find(s, pattern).Some? ==> forall j :: 0 <= j < Find(s, pattern).value ==> !OccursAt(s, pattern, j)
    ensures Find(s, pattern).None? <==> !Contains(s, pattern)
    decreases |s|
  {
    if |s| < |pattern| {
    } else if s[..|pattern|] == pattern {
      assert OccursAt(s, pattern, 0);
    } else {
      FindIsLeftmost(s[1..], pattern);
      assert !OccursAt(s, pattern, 0);
      forall j | 1 <= j
        ensures OccursAt(s, pattern, j) <==> OccursAt(s[1..], pattern, j - 1)
      {
        OccursShifted(s, pattern, j);
      }
    }
  }

  /** Python's `head, tail = s.split(sep)`: it succeeds when the
      left-to-right, non-overlapping split yields two parts, i.e. there is a
      first occurrence and none in the text after it. None stands for the
      ValueError the unpacking raises otherwise (SplitOnceParts). */
  function SplitOnce(s: string, sep: string): (r: Option<(string, string)>)
    requires sep != []
    ensures r.Some? ==> r.value.0 + sep + r.value.1 == s
  {
    match Find(s, sep)
    case None => None
    case Some(i) =>
      var tail := s[i + |sep|..];
      if Find(tail, sep).Some? then None
      else
        assert s == s[..i] + sep + tail by {
          assert s[i..i + |sep|] == sep;
        }
        Some((s[..i], tail))
  }

  /** Neither part of a successful split contains the separator, and a text
      without it does not split. */
  lemma SplitOnceParts(s: string, sep: string)
    requires sep != []
    ensures SplitOnce(s, sep).Some? ==>
              !Contains(SplitOnce(s, sep).value.0, sep) && !Contains(SplitOnce(s, sep).value.1, sep)
    ensures !Contains(s, sep) ==> SplitOnce(s, sep).None?
  {
    FindIsLeftmost(s, sep);
    match Find(s, sep)
    case None =>
    case Some(i) =>
      var head, tail := s[..i], s[i + |sep|..];
      FindIsLeftmost(tail, sep);
      if Find(tail, sep).None? {
        forall j | 0 <= j && j + |sep| <= |head|
          ensures !OccursAt(head, sep, j)
        {
          assert !OccursAt(s, sep, j);
          assert s[j..j + |sep|] == head[j..j + |sep|];
        }
      }
  }

  /** A text where the separator occurs at exactly one index splits. */
  lemma SplitOnceOccursOnce(s: string, sep: string)
    requires sep != [] && OccursOnce(s, sep)
    ensures SplitOnce(s, sep).Some?
  {
    FindIsLeftmost(s, sep);
    var i := Find(s, sep).value;
    var tail := s[i + |sep|..];
    if Find(tail, sep).Some? {
      var k := Find(tail, sep).value;
      assert s[i + |sep| + k..i + |sep| + k + |sep|] == tail[k..k + |sep|];
      assert OccursAt(s, sep, i + |sep| + k);
    }
  }

  /** The text after the last `/`, or all of `s` when it has none: Python's
      `s.split('/')[-1]` (AfterLastSlashIsSuffix). */
  function AfterLastSlash(s: string): string
    decreases |s|
  {
    if s == [] || s[|s| - 1] == '/' then ""
    else AfterLastSlash(s[..|s| - 1]) + [s[|s| - 1]]
  }

  /** The result is the longest suffix of `s` without a `/`: it ends `s`,
      has no `/`, is all of `s` when `s` has none, and otherwise is
      preceded by a `/`. */
  lemma {:induction false} AfterLastSlashIsSuffix(s: string)
    ensures var r := AfterLastSlash(s);
      && '/' !in r
      && |r| <= |s| && s[|s| - |r|..] == r
      && ('/' !in s ==> r == s)
      && (|r| < |s| ==> s[|s| - |r| - 1] == '/')
    decreases |s|
  {
    if s != [] && s[|s| - 1] != '/' {
      var init := s[..|s| - 1];
      AfterLastSlashIsSuffix(init);
      var r := AfterLastSlash(s);
      var ri := AfterLastSlash(init);
      assert r == ri + [s[|s| - 1]];
      assert s[|s| - |r|..] == init[|init| - |ri|..] + [s[|s| - 1]];
      if '/' !in s {
        assert '/' !in init;
        assert s == init + [s[|s| - 1]];
      }
      if |r| < |s| {
        assert s[|s| - |r| - 1] == init[|init| - |ri| - 1];
      }
    }
  }

  lemma ContainsItself(p: string)
    ensures Contains(p, p)
  {
    assert OccursAt(p, p, 0);
  }

  lemma ContainsInLeft(a: string, b: string, p: string)
    requires Contains(a, p)
    ensures Contains(a + b, p)
  {
    var i :| 0 <= i <= |a| && OccursAt(a, p, i);
    assert (a + b)[i..i + |p|] == a[i..i + |p|];
    assert OccursAt(a + b, p, i);
  }

  lemma ContainsInRight(a: string, b: string, p: string)
    requires Contains(b, p)
    ensures Contains(a + b, p)
  {
    var i :| 0 <= i <= |b| && OccursAt(b, p, i);
    assert (a + b)[|a| + i..|a| + i + |p|] == b[i..i + |p|];
    assert OccursAt(a + b, p, |a| + i);
  }

  /** Every part of a join appears in the joined text. */
  lemma {:induction false} JoinContainsPart(sep: string, parts: seq<string>, k: nat)
    requires k < |parts|
    ensures Contains(Join(sep, parts), parts[k])
  {
    if |parts| == 1 {
      ContainsItself(parts[0]);
    } else if k == 0 {
      ContainsItself(parts[0]);
      ContainsInLeft(parts[0], sep + Join(sep, parts[1..]), parts[0]);
      assert parts[0] + sep + Join(sep, parts[1..]) == parts[0] + (sep + Join(sep, parts[1..]));
    } else {
      JoinContainsPart(sep, parts[1..], k - 1);
      ContainsInRight(parts[0] + sep, Join(sep, parts[1..]), parts[k]);
    }
  }

  /** Where part `k` starts in `Join(sep, parts)`: after every earlier part
      and its separator. */
  function PartOffset(sep: string, parts: seq<string>, k: nat): nat
    requires k <= |parts|
  {
    if k == 0 then 0 else |parts[0]| + |sep| + PartOffset(sep, parts[1..], k - 1)
  }

  /** Part `k` of a join occurs at its offset. */
  lemma {:induction false} JoinPartAt(sep: string, parts: seq<string>, k: nat)
    requires k < |parts|
    ensures OccursAt(Join(sep, parts), parts[k], PartOffset(sep, parts, k))
  {
    var j := Join(sep, parts);
    if |parts| == 1 {
      assert j[0..|parts[0]|] == parts[0];
    } else if k == 0 {
      assert j[0..|parts[0]|] == parts[0];
    } else {
      var rest := Join(sep, parts[1..]);
      var shift := |parts[0]| + |sep|;
      JoinPartAt(sep, parts[1..], k - 1);
      var o := PartOffset(sep, parts[1..], k - 1);
      assert j == parts[0] + sep + rest;
      assert j[shift + o..shift + o + |parts[k]|] == rest[o..o + |parts[k]|];
    }
  }

  /** Part `j` starts after part `i < j` and the separator following it
      end. */
  lemma {:induction false} PartOffsetOrder(sep: string, parts: seq<string>, i: nat, j: nat)
    requires i < j <= |parts|
    ensures PartOffset(sep, parts, i) + |parts[i]| + |sep| <= PartOffset(sep, parts, j)
  {
    if i > 0 {
      PartOffsetOrder(sep, parts[1..], i - 1, j - 1);
    } else if j > 1 {
      PartOffsetOrder(sep, parts[1..], 0, j - 1);
    }
  }

  /** A text that does not contain the first character of `p` cannot
      contribute to an occurrence of `p` in front of another text. */
  lemma ContainsBehindPrefix(a: string, b: string, p: string)
    requires p != [] && p[0] !in a
    ensures Contains(a + b, p) <==> Contains(b, p)
  {
    if Contains(a + b, p) {
      var i :| 0 <= i <= |a + b| && OccursAt(a + b, p, i);
      assert (a + b)[i] == p[0];
      assert forall k :: 0 <= k < |a| ==> (a + b)[k] != p[0];
      assert b[i - |a|..i - |a| + |p|] == (a + b)[i..i + |p|];
      assert OccursAt(b, p, i - |a|);
    }
    if Contains(b, p) {
      ContainsInRight(a, b, p);
    }
  }

  /** A text without the first character of `p` does not contain `p`. */
  lemma NoFirstCharNotContained(s: string, p: string)
    requires p != [] && p[0] !in s
    ensures !Contains(s, p)
  {
  }

  /** When the first character of `sep` occurs only where `sep` joins `a`
      and `b`, splitting `a + sep + b` on `sep` gives `a` and `b` back. */
  lemma SplitOnceAtOnlyCandidate(a: string, sep: string, b: string)
    requires sep != [] && sep[0] !in a && sep[0] !in b
    ensures SplitOnce(a + sep + b, sep) == Some((a, b))
  {
    var s := a + sep + b;
    assert OccursAt(s, sep, |a|) by {
      assert s[|a|..|a| + |sep|] == sep;
    }
    forall i | 0 <= i < |a|
      ensures !OccursAt(s, sep, i)
    {
      assert s[i] == a[i];
    }
    FindIsLeftmost(s, sep);
    var found := Find(s, sep);
    assert found == Some(|a|);
    assert s[..|a|] == a;
    assert s[|a| + |sep|..] == b;
    NoFirstCharNotContained(b, sep);
    FindIsLeftmost(b, sep);
  }

  // ------------------------------------------------------------ sequences

  /** `r` is `s` with some elements left out, the others in their order. */
  predicate IsSubsequence<T(==)>(r: seq<T>, s: seq<T>)
    decreases |s|
  {
    r == [] || (s != [] && ((r[0] == s[0] && IsSubsequence(r[1..], s[1..])) || IsSubsequence(r, s[1..])))
  }

  /** No element occurs twice. */
  predicate NoRepeats<T(==)>(s: seq<T>)
  {
    forall i, j :: 0 <= i < j < |s| ==> s[i] != s[j]
  }

  // ---------------------------------------------------------- white space

  /** The ASCII characters Python's `str.strip` removes: tab, line feed,
      vertical tab, form feed, carriage return, the four separators
      U+001C to U+001F, and space. */
  predicate IsSpace(c: char)
  {
    c == ' ' || '\t' <= c <= '\r' || '\U{1C}' <= c <= '\U{1F}'
  }

  predicate AllSpace(s: string)
  {
    forall i :: 0 <= i < |s| ==> IsSpace(s[i])
  }

  function TrimLeft(s: string): string
  {
    if s != [] && IsSpace(s[0]) then TrimLeft(s[1..]) else s
  }

  function TrimRight(s: string): string
    decreases |s|
  {
    if s != [] && IsSpace(s[|s| - 1]) then TrimRight(s[..|s| - 1]) else s
  }

  /** `s.strip()`: the text between the white space at both ends. */
  function Strip(s: string): string
  {
    TrimRight(TrimLeft(s))
  }

  lemma {:induction false} TrimLeftShape(s: string)
    ensures var r := TrimLeft(s);
      |r| <= |s| && r == s[|s| - |r|..] && (r == [] || !IsSpace(r[0]))
  {
    if s != [] && IsSpace(s[0]) {
      TrimLeftShape(s[1..]);
    }
  }

  lemma {:induction false} TrimRightShape(s: string)
    ensures var r := TrimRight(s);
      |r| <= |s| && r == s[..|r|] && (r == [] || !IsSpace(r[|r| - 1]))
    decreases |s|
  {
    if s != [] && IsSpace(s[|s| - 1]) {
      TrimRightShape(s[..|s| - 1]);
    }
  }

  /** What is stripped is a piece of the text that neither starts nor ends
      with white space, so stripping it again changes nothing. */
  lemma StripShape(s: string)
    ensures var r := Strip(s);
      (r == [] || (!IsSpace(r[0]) && !IsSpace(r[|r| - 1])))
      && (exists i :: 0 <= i <= |s| && OccursAt(s, r, i))
    ensures Strip(Strip(s)) == Strip(s)
  {
    var left := TrimLeft(s);
    var r := TrimRight(left);
    TrimLeftShape(s);
    TrimRightShape(left);
    assert OccursAt(s, r, |s| - |left|) by {
      assert s[|s| - |left|..][..|r|] == s[|s| - |left|..|s| - |left| + |r|];
    }
    if r != [] {
      assert r[0] == left[0];
      StripUnchanged(r);
    }
  }

  lemma {:induction false} TrimLeftSpaces(pre: string, s: string)
    requires AllSpace(pre)
    ensures TrimLeft(pre + s) == TrimLeft(s)
  {
    if pre != [] {
      assert (pre + s)[1..] == pre[1..] + s;
      TrimLeftSpaces(pre[1..], s);
    } else {
      assert pre + s == s;
    }
  }

  lemma {:induction false} TrimRightSpaces(s: string, post: string)
    requires AllSpace(post)
    ensures TrimRight(s + post) == TrimRight(s)
    decreases |post|
  {
    if post != [] {
      var init := post[..|post| - 1];
      assert (s + post)[..|s + post| - 1] == s + init;
      TrimRightSpaces(s, init);
    } else {
      assert s + post == s;
    }
  }

  /** Trimming the left of `s + t` only reaches into `t` when `s` is all
      white space. */
  lemma {:induction false} TrimLeftAppend(s: string, t: string)
    ensures AllSpace(s) ==> TrimLeft(s + t) == TrimLeft(t)
    ensures !AllSpace(s) ==> TrimLeft(s + t) == TrimLeft(s) + t
  {
    if AllSpace(s) {
      TrimLeftSpaces(s, t);
    } else if IsSpace(s[0]) {
      assert (s + t)[1..] == s[1..] + t;
      assert !AllSpace(s[1..]) by {
        var i :| 0 <= i < |s| && !IsSpace(s[i]);
        assert s[1..][i - 1] == s[i];
      }
      TrimLeftAppend(s[1..], t);
    }
  }

  lemma AllSpaceTrimsAway(s: string)
    requires AllSpace(s)
    ensures TrimLeft(s) == []
  {
    TrimLeftSpaces(s, []);
    assert s + [] == s;
  }

  /** White space around a text does not change what it strips to. */
  lemma StripSurrounding(pre: string, s: string, post: string)
    requires AllSpace(pre) && AllSpace(post)
    ensures Strip(pre + s + post) == Strip(s)
  {
    assert pre + s + post == pre + (s + post);
    TrimLeftSpaces(pre, s + post);
    assert TrimLeft(pre + s + post) == TrimLeft(s + post);
    TrimLeftAppend(s, post);
    if AllSpace(s) {
      AllSpaceTrimsAway(s);
      AllSpaceTrimsAway(post);
    } else {
      TrimRightSpaces(TrimLeft(s), post);
    }
  }

  /** Text that starts and ends with a non-space character strips to
      itself. */
  lemma StripUnchanged(s: string)
    requires s != [] && !IsSpace(s[0]) && !IsSpace(s[|s| - 1])
    ensures Strip(s) == s
  {
  }
}
