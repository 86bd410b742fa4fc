/**
 * Plain string helpers shared by the text-handling models: prefix and suffix
 * tests, replacing every occurrence of one string by another, and facts
 * about slices.
 */
module Strings {
  import opened Wrappers

  predicate StartsWith(s: string, prefix: string)
  {
    |prefix| <= |s| && s[..|prefix|] == prefix
  }

  predicate EndsWith(s: string, suffix: string)
  {
    |suffix| <= |s| && s[|s| - |suffix|..] == suffix
  }

  /** A slice of a slice is a slice of the original. */
  lemma SliceOfSlice<T>(s: seq<T>, a: nat, b: nat, c: nat, d: nat)
    requires a <= b <= |s| && c <= d <= b - a
    ensures s[a..b][c..d] == s[a + c..a + d]
  {
    forall k | 0 <= k < d - c
      ensures s[a..b][c..d][k] == s[a + c..a + d][k]
    {
      assert s[a..b][c..d][k] == s[a..b][c + k] == s[a + c + k];
    }
  }

  /** A slice holding a concatenation of three strings splits into the three parts. */
  lemma SliceOfConcat3<T>(s: seq<T>, i: nat, a: seq<T>, b: seq<T>, c: seq<T>)
    requires i + |a| + |b| + |c| <= |s| && s[i..i + |a| + |b| + |c|] == a + b + c
    ensures s[i..i + |a|] == a
    ensures s[i + |a|..i + |a| + |b|] == b
    ensures s[i + |a| + |b|..i + |a| + |b| + |c|] == c
  {
    var t := a + b + c;
    assert t[..|a|] == a && t[|a|..|a| + |b|] == b && t[|a| + |b|..] == c;
    SliceOfSlice(s, i, i + |t|, 0, |a|);
    SliceOfSlice(s, i, i + |t|, |a|, |a| + |b|);
    SliceOfSlice(s, i, i + |t|, |a| + |b|, |t|);
  }

  /** The middle part of a three-part concatenation, recovered by slicing. */
  lemma MiddleOfConcat<T>(a: seq<T>, p: seq<T>, b: seq<T>)
    ensures (a + p + b)[|a|..|a| + |p|] == p
    ensures (a + p + b)[..|a|] == a
    ensures (a + p + b)[|a| + |p|..] == b
  {
  }

  /** A slice holding four consecutive parts splits into the four parts. */
  lemma PartsAt<T>(buf: seq<T>, i: nat, a: seq<T>, b: seq<T>, c: seq<T>, d: seq<T>)
    requires i + |a| + |b| + |c| + |d| <= |buf| && buf[i..i + |a| + |b| + |c| + |d|] == a + b + c + d
    ensures buf[i..i + |a|] == a
    ensures buf[i + |a|..i + |a| + |b|] == b
    ensures buf[i + |a| + |b|..i + |a| + |b| + |c|] == c
    ensures buf[i + |a| + |b| + |c|..i + |a| + |b| + |c| + |d|] == d
  {
    var t := a + b + c + d;
    var n := |t|;
    assert t[..|a|] == a && t[|a|..|a| + |b|] == b;
    assert t[|a| + |b|..|a| + |b| + |c|] == c && t[|a| + |b| + |c|..] == d;
    SliceOfSlice(buf, i, i + n, 0, |a|);
    SliceOfSlice(buf, i, i + n, |a|, |a| + |b|);
    SliceOfSlice(buf, i, i + n, |a| + |b|, |a| + |b| + |c|);
    SliceOfSlice(buf, i, i + n, |a| + |b| + |c|, n);
  }

  /** The concatenation of a sequence of parts, in order. */
  function Flatten<T>(ps: seq<seq<T>>): (r: seq<T>)
    ensures |ps| == 1 ==> r == ps[0]
  {
    if |ps| == 0 then [] else ps[0] + Flatten(ps[1..])
  }

  lemma {:induction false} FlattenAppend<T>(a: seq<seq<T>>, b: seq<seq<T>>)
    ensures Flatten(a + b) == Flatten(a) + Flatten(b)
  {
    if |a| > 0 {
      assert (a + b)[1..] == a[1..] + b;
      FlattenAppend(a[1..], b);
    } else {
      assert a + b == b;
    }
  }

  /** Parts i to j of a flattened sequence sit between the lengths of the first i and the first j parts. */
  lemma FlattenSlice<T>(ps: seq<seq<T>>, i: nat, j: nat)
    requires i <= j <= |ps|
    ensures |Flatten(ps[..i])| + |Flatten(ps[i..j])| == |Flatten(ps[..j])| <= |Flatten(ps)|
    ensures Flatten(ps)[|Flatten(ps[..i])|..|Flatten(ps[..j])|] == Flatten(ps[i..j])
  {
    assert ps == ps[..i] + ps[i..j] + ps[j..];
    FlattenAppend(ps[..i] + ps[i..j], ps[j..]);
    FlattenAppend(ps[..i], ps[i..j]);
    assert ps[..j] == ps[..i] + ps[i..j];
    MiddleOfConcat(Flatten(ps[..i]), Flatten(ps[i..j]), Flatten(ps[j..]));
  }

  /** Adding one part to a prefix adds that part's length. */
  lemma FlattenPrefixStep<T>(ps: seq<seq<T>>, k: nat)
    requires k < |ps|
    ensures |Flatten(ps[..k + 1])| == |Flatten(ps[..k])| + |ps[k]|
    ensures Flatten(ps[k..k + 1]) == ps[k]
  {
    assert ps[..k + 1] == ps[..k] + [ps[k]];
    FlattenAppend(ps[..k], [ps[k]]);
    assert ps[k..k + 1] == [ps[k]];
  }

  /** Two adjacent parts flatten to their concatenation. */
  lemma FlattenPair<T>(ps: seq<seq<T>>, k: nat)
    requires k + 1 < |ps|
    ensures Flatten(ps[k..k + 2]) == ps[k] + ps[k + 1]
  {
    assert ps[k..k + 2] == [ps[k]] + [ps[k + 1]];
    FlattenAppend([ps[k]], [ps[k + 1]]);
  }
  /** pat occurs in s starting at index k. */
  predicate OccursAt(s: string, pat: string, k: nat)
  {
    k + |pat| <= |s| && s[k..k + |pat|] == pat
  }

  /** s contains no c. */
  predicate Lacks(s: string, c: char)
  {
    forall k :: 0 <= k < |s| ==> s[k] != c
  }

  /**
   * std::string::find(pat, from): the first index at or after from where pat
   * occurs, or none (npos), which is also the answer when from is past the end.
   */
  function FindFrom(s: string, pat: string, from: nat): (r: Option<nat>)
    ensures r.Some? ==> from <= r.value && OccursAt(s, pat, r.value)
    ensures r.Some? ==> forall k :: from <= k < r.value ==> !OccursAt(s, pat, k)
    ensures r.None? ==> forall k :: from <= k ==> !OccursAt(s, pat, k)
    decreases |s| - from
  {
    if from + |pat| > |s| then None
    else if OccursAt(s, pat, from) then Some(from)
    else FindFrom(s, pat, from + 1)
  }

  /** The first occurrence at or after from is what FindFrom answers. */
  lemma FindFirst(s: string, pat: string, from: nat, k: nat)
    requires from <= k && OccursAt(s, pat, k)
    requires forall j :: from <= j < k ==> !OccursAt(s, pat, j)
    ensures FindFrom(s, pat, from) == Some(k)
  {
  }

  /** A one-character pattern occurs exactly where that character stands. */
  lemma OccursChar(s: string, c: char, k: nat)
    ensures OccursAt(s, [c], k) <==> k < |s| && s[k] == c
  {
    if k < |s| && s[k] == c {
      assert s[k..k + 1] == [c];
    }
  }

  /** In a + [c] + b, searching from a point after which a lacks c finds the c at |a|. */
  lemma FindCharAfter(a: string, c: char, b: string, from: nat)
    requires from <= |a| && forall k :: from <= k < |a| ==> a[k] != c
    ensures FindFrom(a + [c] + b, [c], from) == Some(|a|)
  {
    var s := a + [c] + b;
    OccursChar(s, c, |a|);
    forall j | from <= j < |a|
      ensures !OccursAt(s, [c], j)
    {
      OccursChar(s, c, j);
    }
    FindFirst(s, [c], from, |a|);
  }

  /**
   * Every occurrence of the character c replaced by r, scanning left to
   * right; for a one-character search this is what boost::replace_all and
   * Python's str.replace do.
   */
  function ReplaceChar(s: string, c: char, r: string): (t: string)
    ensures Lacks(s, c) ==> t == s
    ensures Lacks(r, c) ==> Lacks(t, c)
  {
    if |s| == 0 then []
    else
      var rest := ReplaceChar(s[1..], c, r);
      var t := (if s[0] == c then r else [s[0]]) + rest;
      assert Lacks(s, c) ==> s == [s[0]] + s[1..];
      assert Lacks(r, c) && Lacks(rest, c) ==> Lacks(t, c) by {
        var h := if s[0] == c then r else [s[0]];
        assert forall k :: |h| <= k < |t| ==> t[k] == rest[k - |h|];
      }
      t
  }

  /** Replacing in a concatenation replaces in each part. */
  lemma {:induction false} ReplaceCharConcat(a: string, b: string, c: char, r: string)
    ensures ReplaceChar(a + b, c, r) == ReplaceChar(a, c, r) + ReplaceChar(b, c, r)
  {
    if |a| == 0 {
      assert a + b == b;
    } else {
      assert (a + b)[1..] == a[1..] + b;
      ReplaceCharConcat(a[1..], b, c, r);
    }
  }
}
