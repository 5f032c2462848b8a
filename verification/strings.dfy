/**
 * Python's `str.find` and `str.split(sep)` for a non-empty separator:
 * occurrences are found leftmost first and never overlap, and the text
 * between them (possibly empty) becomes the parts.
 */
module Strings {
  import opened Wrappers

  /** `sep` occurs in `s` starting at index `i`. */
  predicate OccursAt(s: string, sep: string, i: int)
  {
    0 <= i && i + |sep| <= |s| && s[i..i + |sep|] == sep
  }

  /** `sep` occurs somewhere in `s`. */
  ghost predicate Contains(s: string, sep: string)
  {
    exists i :: OccursAt(s, sep, i)
  }

  /** `s` ends with `suffix`. */
  predicate EndsWith(s: string, suffix: string)
  {
    |suffix| <= |s| && s[|s| - |suffix|..] == suffix
  }

  /** The first occurrence of `sep` in `s` at or after `from`. */
  function FindFrom(s: string, sep: string, from: nat): (r: Option<nat>)
    ensures r.Some? ==>
      from <= r.value && OccursAt(s, sep, r.value) &&
      forall j :: from <= j < r.value ==> !OccursAt(s, sep, j)
    ensures r.None? ==> forall j :: from <= j ==> !OccursAt(s, sep, j)
    decreases |s| - from
  {
    if from + |sep| > |s| then None
    else if s[from..from + |sep|] == sep then Some(from)
    else FindFrom(s, sep, from + 1)
  }

  /** The first occurrence of `sep` in `s`, as Python's `s.find(sep)`. */
  function Find(s: string, sep: string): (r: Option<nat>)
    ensures r.None? <==> !Contains(s, sep)
    ensures r.Some? ==>
      OccursAt(s, sep, r.value) && forall j :: 0 <= j < r.value ==> !OccursAt(s, sep, j)
  {
    FindFrom(s, sep, 0)
  }

  /** The text before the first occurrence of a separator holds no separator. */
  lemma PrefixBeforeFirst(s: string, sep: string, i: nat)
    requires |sep| > 0 && i <= |s|
    requires forall j :: 0 <= j < i ==> !OccursAt(s, sep, j)
    ensures !Contains(s[..i], sep)
  {
    forall j ensures !OccursAt(s[..i], sep, j) {
      if 0 <= j && j + |sep| <= i {
        assert s[..i][j..j + |sep|] == s[j..j + |sep|];
        assert !OccursAt(s, sep, j);
      }
    }
  }

  /** Python's `s.split(sep)`. */
  function Split(s: string, sep: string): (parts: seq<string>)
    requires |sep| > 0
    ensures |parts| >= 1
    ensures |parts| == 1 <==> !Contains(s, sep)
    ensures |parts| == 1 ==> parts[0] == s
    decreases |s|
  {
    var f := Find(s, sep);
    if f.None? then [s]
    else [s[..f.value]] + Split(s[f.value + |sep|..], sep)
  }

  /** No part of a split contains the separator. */
  lemma {:induction false} SplitPartsSeparatorFree(s: string, sep: string)
    requires |sep| > 0
    ensures forall k :: 0 <= k < |Split(s, sep)| ==> !Contains(Split(s, sep)[k], sep)
    decreases |s|
  {
    var f := Find(s, sep);
    if f.Some? {
      var i := f.value;
      var rest := s[i + |sep|..];
      SplitPartsSeparatorFree(rest, sep);
      PrefixBeforeFirst(s, sep, i);
      SplitUnfold(s, sep);
    }
  }

  /** Python's `sep.join(parts)`. */
  function Join(parts: seq<string>, sep: string): string
  {
    if |parts| == 0 then ""
    else if |parts| == 1 then parts[0]
    else parts[0] + sep + Join(parts[1..], sep)
  }

  /** Joining a part in front of at least one other adds one separator. */
  lemma JoinCons(head: string, tail: seq<string>, sep: string)
    requires |tail| >= 1
    ensures Join([head] + tail, sep) == head + sep + Join(tail, sep)
  {
    assert ([head] + tail)[1..] == tail;
  }

  /** One step of the split: the part before the first separator, then the rest. */
  lemma SplitUnfold(s: string, sep: string)
    requires |sep| > 0 && Find(s, sep).Some?
    ensures Split(s, sep) == [s[..Find(s, sep).value]] + Split(s[Find(s, sep).value + |sep|..], sep)
  {
  }

  /** A string is the text before an occurrence, the separator, and the text after. */
  lemma SplitPoint(s: string, sep: string, i: nat)
    requires OccursAt(s, sep, i)
    ensures s == s[..i] + sep + s[i + |sep|..]
  {
    assert s[i..i + |sep|] == sep;
  }

  /** Splitting loses nothing: joining the parts again gives back the string. */
  lemma {:induction false} JoinSplit(s: string, sep: string)
    requires |sep| > 0
    ensures Join(Split(s, sep), sep) == s
    decreases |s|
  {
    var f := Find(s, sep);
    if f.Some? {
      var i := f.value;
      var rest := s[i + |sep|..];
      JoinSplit(rest, sep);
      SplitUnfold(s, sep);
      JoinCons(s[..i], Split(rest, sep), sep);
      SplitPoint(s, sep, i);
    }
  }

  /** When the first separator starts exactly at `|a|`, the first part is `a`. */
  lemma SplitAtFirst(a: string, b: string, sep: string)
    requires |sep| > 0
    requires Find(a + sep + b, sep) == Some(|a|)
    ensures Split(a + sep + b, sep) == [a] + Split(b, sep)
  {
    var s := a + sep + b;
    assert s[..|a|] == a;
    assert s[|a| + |sep|..] == b;
  }

  /**
   * If `a` followed by any proper prefix of `sep` holds no separator, the
   * first separator of `a + sep + b` is the one placed after `a`.
   */
  lemma FirstAtJoint(a: string, b: string, sep: string)
    requires |sep| > 0
    requires !Contains(a + sep[..|sep| - 1], sep)
    ensures Find(a + sep + b, sep) == Some(|a|)
  {
    var s := a + sep + b;
    var t := a + sep[..|sep| - 1];
    assert s[|a|..|a| + |sep|] == sep;
    assert OccursAt(s, sep, |a|);
    assert s == t + (sep[|sep| - 1..] + b);
    assert s[..|t|] == t;
    forall j | 0 <= j < |a| ensures !OccursAt(s, sep, j) {
      assert s[j..j + |sep|] == t[j..j + |sep|];
      assert !OccursAt(t, sep, j);
    }
  }

  /** An occurrence at or after `from` makes the remaining text split further. */
  lemma OccurrenceAfterFirst(s: string, sep: string, i: nat, j: nat)
    requires |sep| > 0
    requires OccursAt(s, sep, i) && OccursAt(s, sep, j) && i + |sep| <= j
    ensures |Split(s, sep)| >= 3
  {
    var f := Find(s, sep).value;
    assert f <= i;
    var rest := s[f + |sep|..];
    var k := j - f - |sep|;
    assert rest[k..k + |sep|] == s[j..j + |sep|];
    assert OccursAt(rest, sep, k);
  }

  /**
   * No proper non-empty prefix of `sep` is also a suffix of it, so two
   * occurrences of `sep` can never overlap.
   */
  predicate BorderFree(sep: string)
  {
    forall m :: 0 < m < |sep| ==> sep[..m] != sep[|sep| - m..]
  }

  /**
   * With a border-free separator, a separator-free string followed by a
   * proper prefix of the separator still holds no separator.
   */
  lemma BorderFreeJoint(a: string, sep: string)
    requires |sep| > 0 && BorderFree(sep) && !Contains(a, sep)
    ensures !Contains(a + sep[..|sep| - 1], sep)
  {
    var n := |sep|;
    var t := a + sep[..n - 1];
    forall j ensures !OccursAt(t, sep, j) {
      if 0 <= j && j + n <= |t| {
        if j + n <= |a| {
          assert t[j..j + n] == a[j..j + n];
          assert !OccursAt(a, sep, j);
        } else {
          var k := |a| - j;
          assert 0 < k < n;
          assert t[j..j + n][k..] == sep[..n - k];
          assert sep[..n - k] != sep[k..];
        }
      }
    }
  }

  /**
   * With a border-free separator, two separator-free strings joined by the
   * separator split back into exactly those two strings.
   */
  lemma BorderFreeSplitJoin(a: string, b: string, sep: string)
    requires |sep| > 0 && BorderFree(sep)
    requires !Contains(a, sep) && !Contains(b, sep)
    ensures Split(a + sep + b, sep) == [a, b]
  {
    BorderFreeJoint(a, sep);
    FirstAtJoint(a, b, sep);
    SplitAtFirst(a, b, sep);
  }
}
