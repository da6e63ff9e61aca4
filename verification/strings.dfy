/** `String.prototype.split` and `Array.prototype.join` on a non-empty separator. */
module Strings {
  import opened Wrappers

  /** `sep` occurs in `s` starting at index `i`. */
  predicate OccursAt(s: string, sep: string, i: nat) {
    i + |sep| <= |s| && s[i..i + |sep|] == sep
  }

  predicate Contains(s: string, sep: string) {
    exists i: nat | i <= |s| :: OccursAt(s, sep, i)
  }

  /** The index of the leftmost occurrence of `sep` in `s`, as `indexOf` finds it. */
  function Find(s: string, sep: string): (r: Option<nat>)
    requires |sep| > 0
    ensures r.Some? ==> OccursAt(s, sep, r.value)
    ensures r.Some? ==> forall j: nat :: j < r.value ==> !OccursAt(s, sep, j)
    ensures r.None? <==> !Contains(s, sep)
    decreases |s|
  {
    if |s| < |sep| then None
    else if s[..|sep|] == sep then Some(0)
    else
      var rest := Find(s[1..], sep);
      assert !OccursAt(s, sep, 0) by {
        assert s[0..|sep|] == s[..|sep|];
      }
      ShiftOccurrence(s, sep);
      match rest
      case None => None
      case Some(i) => Some(i + 1)
  }

  /** Occurrences in `s[1..]` are the occurrences in `s` shifted by one. */
  lemma ShiftOccurrence(s: string, sep: string)
    requires |s| > 0
    ensures forall i: nat :: OccursAt(s[1..], sep, i) <==> OccursAt(s, sep, i + 1)
    ensures forall j: nat :: 0 < j ==> (OccursAt(s, sep, j) <==> OccursAt(s[1..], sep, j - 1))
    ensures !OccursAt(s, sep, 0) ==> (Contains(s[1..], sep) <==> Contains(s, sep))
  {
    forall i: nat
      ensures OccursAt(s[1..], sep, i) <==> OccursAt(s, sep, i + 1)
    {
      if i + |sep| <= |s[1..]| {
        assert s[1..][i..i + |sep|] == s[i + 1..i + 1 + |sep|];
      }
    }
    if !OccursAt(s, sep, 0) && Contains(s, sep) {
      var i: nat :| i <= |s| && OccursAt(s, sep, i);
      assert OccursAt(s[1..], sep, i - 1);
    }
  }

  /** An occurrence that ends inside `a` is an occurrence in `a + b`, and conversely. */
  lemma OccursInPrefix(a: string, b: string, sep: string, i: nat)
    requires i + |sep| <= |a|
    ensures OccursAt(a + b, sep, i) <==> OccursAt(a, sep, i)
  {
    assert (a + b)[i..i + |sep|] == a[i..i + |sep|];
  }

  /** `parts.join(sep)`. */
  function Join(parts: seq<string>, sep: string): string {
    if |parts| == 0 then ""
    else if |parts| == 1 then parts[0]
    else parts[0] + sep + Join(parts[1..], sep)
  }

  /** `s.split(sep)`: the pieces between the occurrences of `sep`, left to right. */
  function Split(s: string, sep: string): (parts: seq<string>)
    requires |sep| > 0
    ensures |parts| > 0
    ensures forall k :: 0 <= k < |parts| ==> !Contains(parts[k], sep)
    ensures Join(parts, sep) == s
    decreases |s|
  {
    match Find(s, sep)
    case None => [s]
    case Some(i) =>
      var head := s[..i];
      var tail := Split(s[i + |sep|..], sep);
      assert !Contains(head, sep) by {
        forall j: nat | OccursAt(head, sep, j)
          ensures false
        {
          assert s == head + s[i..];
          OccursInPrefix(head, s[i..], sep, j);
        }
      }
      assert s == head + sep + Join(tail, sep);
      [head] + tail
  }

  /** `x` followed by a separator holds no occurrence of `sep` that starts inside `x`. */
  predicate Separable(x: string, sep: string) {
    forall j: nat :: j < |x| ==> !OccursAt(x + sep, sep, j)
  }

  /** Splitting a join gives the pieces back when no piece can be confused with a separator. */
  lemma {:induction false} SplitJoin(parts: seq<string>, sep: string)
    requires |sep| > 0 && |parts| > 0
    requires forall k :: 0 <= k < |parts| ==> Separable(parts[k], sep)
    ensures Split(Join(parts, sep), sep) == parts
    decreases |parts|
  {
    var x := parts[0];
    if |parts| == 1 {
      forall j: nat | OccursAt(x, sep, j)
        ensures false
      {
        OccursInPrefix(x, sep, sep, j);
      }
      assert Find(x, sep) == None;
    } else {
      var rest := Join(parts[1..], sep);
      var s := x + sep + rest;
      assert s == (x + sep) + rest;
      assert OccursAt(s, sep, |x|) by {
        assert s[|x|..|x| + |sep|] == sep;
      }
      forall j: nat | j < |x|
        ensures !OccursAt(s, sep, j)
      {
        OccursInPrefix(x + sep, rest, sep, j);
      }
      assert Find(s, sep) == Some(|x|);
      assert s[|x| + |sep|..] == rest;
      SplitJoin(parts[1..], sep);
    }
  }

  /** The `"; "` separator: a piece is separable exactly when it does not contain `"; "`. */
  lemma SemicolonSeparable(x: string)
    ensures Separable(x, "; ") <==> !Contains(x, "; ")
  {
    if !Contains(x, "; ") {
      forall j: nat | j < |x|
        ensures !OccursAt(x + "; ", "; ", j)
      {
        if j + 2 <= |x| {
          OccursInPrefix(x, "; ", "; ", j);
        } else {
          assert (x + "; ")[j + 1] == ';';
        }
      }
    } else {
      var j: nat :| j <= |x| && OccursAt(x, "; ", j);
      assert j + |"; "| <= |x|;
      OccursInPrefix(x, "; ", "; ", j);
      assert j < |x| && OccursAt(x + "; ", "; ", j);
    }
  }

  /** Splitting at a single-character separator whose first occurrence is at `i`. */
  lemma SplitAtChar(s: string, c: char, i: nat)
    requires i < |s| && s[i] == c
    requires forall j :: 0 <= j < i ==> s[j] != c
    ensures Split(s, [c]) == [s[..i]] + Split(s[i + 1..], [c])
  {
    assert OccursAt(s, [c], i);
    forall j: nat | j < i
      ensures !OccursAt(s, [c], j)
    {
      assert s[j..j + 1] == [s[j]];
    }
  }

  /** A string without the separator character splits into itself. */
  lemma SplitNoChar(s: string, c: char)
    requires forall j :: 0 <= j < |s| ==> s[j] != c
    ensures Split(s, [c]) == [s]
  {
    assert !Contains(s, [c]) by {
      forall j: nat | j <= |s|
        ensures !OccursAt(s, [c], j)
      {
        if j + 1 <= |s| {
          assert s[j..j + 1][0] == s[j];
        }
      }
    }
    assert Find(s, [c]) == None;
  }

  /** Joining two non-empty lists is joining each and putting one separator between. */
  lemma {:induction false} JoinAppend(xs: seq<string>, ys: seq<string>, sep: string)
    requires |xs| > 0 && |ys| > 0
    ensures Join(xs + ys, sep) == Join(xs, sep) + sep + Join(ys, sep)
    decreases |xs|
  {
    if |xs| == 1 {
      assert (xs + ys)[1..] == ys;
    } else {
      assert (xs + ys)[1..] == xs[1..] + ys;
      JoinAppend(xs[1..], ys, sep);
    }
  }
}
