/**
 The slice of Python's `str` semantics that the chatbot's prompt builder and
 answer cleaner rely on: substring search (`in`, `find`), `replace`,
 `split`, `join` and `partition`, each with CPython's left-to-right,
 non-overlapping scanning rules.
 */
module PyStr {

  datatype Option<T> = None | Some(value: T)

  /** `p` occurs in `s` starting at index `i`. */
  predicate OccursAt(s: string, p: string, i: nat)
  {
    i + |p| <= |s| && s[i..i + |p|] == p
  }

  /** Python's `p in s` (the empty string occurs in every string). */
  predicate Contains(s: string, p: string)
  {
    exists i: nat | i <= |s| :: OccursAt(s, p, i)
  }

  /** Python's `s.endswith(suffix)`. */
  predicate EndsWith(s: string, suffix: string)
  {
    |suffix| <= |s| && s[|s| - |suffix|..] == suffix
  }

  /** A string occurs in itself placed between any two others. */
  lemma OccursInMiddle(a: string, p: string, b: string)
    ensures OccursAt(a + p + b, p, |a|)
  {
    assert (a + p + b)[|a|..|a| + |p|] == p;
  }

  /** Containment is transitive. */
  lemma ContainsTransitive(s: string, m: string, p: string)
    requires Contains(s, m) && Contains(m, p)
    ensures Contains(s, p)
  {
    var i: nat :| i <= |s| && OccursAt(s, m, i);
    var j: nat :| j <= |m| && OccursAt(m, p, j);
    forall t | 0 <= t < |p|
      ensures s[i + j + t] == p[t]
    {
      assert s[i..i + |m|][j + t] == m[j + t];
      assert m[j..j + |p|][t] == p[t];
    }
    assert s[i + j..i + j + |p|] == p;
    assert OccursAt(s, p, i + j);
  }

  /** A string ends with whatever was appended to it last. */
  lemma EndsWithAppended(a: string, b: string)
    ensures EndsWith(a + b, b)
  {
    assert (a + b)[|a|..] == b;
  }

  /** Occurrences in `s[1..]` are the occurrences in `s` shifted by one. */
  lemma OccursShift(s: string, p: string)
    requires |s| > 0
    ensures forall j: nat :: OccursAt(s[1..], p, j) == OccursAt(s, p, j + 1)
    ensures forall j: nat :: 0 < j ==> OccursAt(s, p, j) == OccursAt(s[1..], p, j - 1)
  {
    forall j: nat
      ensures OccursAt(s[1..], p, j) == OccursAt(s, p, j + 1)
    {
      if j + 1 + |p| <= |s| {
        assert s[1..][j..j + |p|] == s[j + 1..j + 1 + |p|];
      }
    }
    forall j: nat | 0 < j
      ensures OccursAt(s, p, j) == OccursAt(s[1..], p, j - 1)
    {
      assert OccursAt(s[1..], p, j - 1) == OccursAt(s, p, j - 1 + 1);
    }
  }

  /** An occurrence inside the prefix `s[..k]` is an occurrence in `s` that ends by `k`. */
  lemma OccursInPrefix(s: string, p: string, k: nat)
    requires k <= |s|
    ensures forall j: nat :: OccursAt(s[..k], p, j) ==> OccursAt(s, p, j) && j + |p| <= k
  {
    forall j: nat | OccursAt(s[..k], p, j)
      ensures OccursAt(s, p, j) && j + |p| <= k
    {
      assert s[..k][j..j + |p|] == s[j..j + |p|];
    }
  }

  /** A prefix of a string that does not contain `p` does not contain `p` either. */
  lemma AbsentFromPrefix(s: string, p: string, k: nat)
    requires k <= |s| && !Contains(s, p)
    ensures !Contains(s[..k], p)
  {
    OccursInPrefix(s, p, k);
  }

  /** A one-character pattern occurs exactly where that character does. */
  lemma OccursChar(s: string, c: char)
    ensures Contains(s, [c]) <==> c in s
  {
    if c in s {
      var i :| 0 <= i < |s| && s[i] == c;
      assert OccursAt(s, [c], i);
    }
    if Contains(s, [c]) {
      var i: nat :| i <= |s| && OccursAt(s, [c], i);
      assert s[i..i + 1] == [c];
      assert s[i] == c;
    }
  }

  /** Python's `s.find(p)`: the lowest index at which `p` occurs, or None for -1. */
  function Find(s: string, p: string): (r: Option<nat>)
    ensures r.Some? ==> OccursAt(s, p, r.value)
    ensures r.Some? ==> forall j: nat :: j < r.value ==> !OccursAt(s, p, j)
    ensures r.None? <==> !Contains(s, p)
    decreases |s|
  {
    if |s| < |p| then None
    else if s[..|p|] == p then Some(0)
    else
      OccursShift(s, p);
      match Find(s[1..], p)
      case None => None
      case Some(i) => Some(i + 1)
  }

  /** Find is determined by its contract: the first occurrence is the one it reports. */
  lemma FindFirst(s: string, p: string, k: nat)
    requires OccursAt(s, p, k)
    requires forall j: nat :: j < k ==> !OccursAt(s, p, j)
    ensures Find(s, p) == Some(k)
  {
    assert Contains(s, p);
  }

  /**
   Python's `s.replace(pat, rep)`: scans left to right and replaces every
   non-overlapping occurrence of `pat`.  With an empty `pat` CPython inserts
   `rep` before every character and at the end.
   */
  function ReplaceAll(s: string, pat: string, rep: string): string
    decreases |s|
  {
    if |pat| == 0 then
      if |s| == 0 then rep else rep + [s[0]] + ReplaceAll(s[1..], pat, rep)
    else if |s| < |pat| then s
    else if s[..|pat|] == pat then rep + ReplaceAll(s[|pat|..], pat, rep)
    else [s[0]] + ReplaceAll(s[1..], pat, rep)
  }

  /** Python's `sep.join(xs)`. */
  function Join(sep: string, xs: seq<string>): string
    decreases |xs|
  {
    if |xs| == 0 then ""
    else if |xs| == 1 then xs[0]
    else xs[0] + sep + Join(sep, xs[1..])
  }

  /**
   Python's `s.split(sep)` for a non-empty separator (an empty one raises
   ValueError): the pieces between the non-overlapping occurrences of `sep`.
   */
  function Split(s: string, sep: string): (r: seq<string>)
    requires |sep| > 0
    ensures |r| >= 1
    ensures r[0] <= s
    decreases |s|
  {
    match Find(s, sep)
    case None => [s]
    case Some(i) => [s[..i]] + Split(s[i + |sep|..], sep)
  }

  /**
   Python's `s.partition(sep)` for a non-empty separator (an empty one raises
   ValueError): the text before the first `sep`, the separator itself and the
   text after it, or `(s, "", "")` when `sep` does not occur.
   */
  function Partition(s: string, sep: string): (r: (string, string, string))
    requires |sep| > 0
    ensures r.0 + r.1 + r.2 == s
    ensures r.1 == sep <==> Contains(s, sep)
    ensures r.1 == "" <==> !Contains(s, sep)
    ensures !Contains(r.0, sep)
    ensures r.0 == s <==> !Contains(s, sep)
    ensures r.1 == sep ==> Find(s, sep) == Some(|r.0|)
  {
    match Find(s, sep)
    case None => (s, "", "")
    case Some(i) =>
      OccursInPrefix(s, sep, i);
      assert s[..i] + sep + s[i + |sep|..] == s by {
        assert s[i..i + |sep|] == sep;
        assert s == s[..i] + s[i..i + |sep|] + s[i + |sep|..];
      }
      (s[..i], sep, s[i + |sep|..])
  }

  /** A pattern whose first character is absent from `s` does not occur in `s`. */
  lemma FirstCharAbsent(s: string, p: string)
    requires |p| > 0 && p[0] !in s
    ensures !Contains(s, p)
  {
    forall i: nat | i + |p| <= |s|
      ensures !OccursAt(s, p, i)
    {
      assert s[i..i + |p|][0] == s[i];
    }
  }

  // ---------------------------------------------------------------------
  // replace

  /** When `pat` does not occur, `replace` changes nothing. */
  lemma {:induction false} ReplaceAbsent(s: string, pat: string, rep: string)
    requires !Contains(s, pat)
    ensures ReplaceAll(s, pat, rep) == s
    decreases |s|
  {
    assert |pat| > 0 by {
      if |pat| == 0 { assert OccursAt(s, pat, 0); }
    }
    if |s| >= |pat| {
      assert !OccursAt(s, pat, 0);
      OccursShift(s, pat);
      ReplaceAbsent(s[1..], pat, rep);
      assert [s[0]] + s[1..] == s;
    }
  }

  /** Where `pat` does not start the text, `replace` keeps the first character. */
  lemma ReplaceKeepsFirst(s: string, pat: string, rep: string)
    requires |pat| > 0 && |s| > 0 && !OccursAt(s, pat, 0)
    ensures ReplaceAll(s, pat, rep) == [s[0]] + ReplaceAll(s[1..], pat, rep)
  {
    if |s| >= |pat| {
      assert s[..|pat|] != pat;
    } else {
      assert [s[0]] + s[1..] == s;
    }
  }

  /** An occurrence in a suffix is an occurrence in the whole text, shifted. */
  lemma OccursInSuffix(s: string, p: string, k: nat, j: nat)
    requires k <= |s|
    ensures OccursAt(s[k..], p, j) == OccursAt(s, p, k + j)
  {
    if k + j + |p| <= |s| {
      assert s[k..][j..j + |p|] == s[k + j..k + j + |p|];
    }
  }

  /**
   Regrouping `P + ([c] + C)` as `(P + [c]) + C`.  A proof step for
   `ReplaceUntil`: stated over plain arguments so that the regrouping is done
   without unfolding `ReplaceAll`.
   */
  lemma Regroup(whole: string, pre: string, mid: string, c: char, longer: string, post: string)
    requires whole == pre + mid && mid == [c] + post && longer == pre + [c]
    ensures whole == longer + post
  {
  }

  /** `replace` copies a leading stretch `s[..k]` in which no occurrence of `pat` starts. */
  lemma {:induction false} ReplaceUntil(s: string, pat: string, rep: string, k: nat)
    requires |pat| > 0 && k <= |s|
    requires forall j: nat :: j < k ==> !OccursAt(s, pat, j)
    ensures ReplaceAll(s, pat, rep) == s[..k] + ReplaceAll(s[k..], pat, rep)
    decreases k
  {
    if k == 0 {
      assert s[..0] + s[0..] == s;
    } else {
      var u := s[k - 1..];
      assert u[1..] == s[k..];
      assert s[..k - 1] + [s[k - 1]] == s[..k];
      OccursInSuffix(s, pat, k - 1, 0);
      ReplaceUntil(s, pat, rep, k - 1);
      ReplaceKeepsFirst(u, pat, rep);
      Regroup(ReplaceAll(s, pat, rep), s[..k - 1], ReplaceAll(u, pat, rep), s[k - 1], s[..k],
              ReplaceAll(s[k..], pat, rep));
    }
  }

  /** Where `pat` starts the text, `replace` substitutes it and carries on after it. */
  lemma ReplaceAtStart(s: string, pat: string, rep: string)
    requires |pat| > 0 && OccursAt(s, pat, 0)
    ensures ReplaceAll(s, pat, rep) == rep + ReplaceAll(s[|pat|..], pat, rep)
  {
    assert s[..|pat|] == s[0..|pat|];
  }

  /** `replace` keeps the text before the first occurrence, substitutes it, and carries on after it. */
  lemma ReplaceAtFirst(s: string, pat: string, rep: string, i: nat)
    requires |pat| > 0 && OccursAt(s, pat, i)
    requires forall j: nat :: j < i ==> !OccursAt(s, pat, j)
    ensures ReplaceAll(s, pat, rep) == s[..i] + rep + ReplaceAll(s[i + |pat|..], pat, rep)
  {
    var found := s[i..];
    assert found[|pat|..] == s[i + |pat|..];
    OccursInSuffix(s, pat, i, 0);
    ReplaceUntil(s, pat, rep, i);
    ReplaceAtStart(found, pat, rep);
    Assoc(s[..i], rep, ReplaceAll(s[i + |pat|..], pat, rep));
  }

  /**
   Concatenation is associative.  A proof step for `ReplaceAtFirst`, kept
   separate so that the regrouping is done without unfolding `ReplaceAll`.
   */
  lemma Assoc(a: string, b: string, c: string)
    ensures a + (b + c) == a + b + c
  {
  }

  /** Text free of the pattern's first character passes through `replace` unchanged. */
  lemma {:induction false} ReplacePast(a: string, rest: string, pat: string, rep: string)
    requires |pat| > 0 && pat[0] !in a
    ensures ReplaceAll(a + rest, pat, rep) == a + ReplaceAll(rest, pat, rep)
    decreases |a|
  {
    var s := a + rest;
    if |a| > 0 && |s| >= |pat| {
      assert s[..|pat|] != pat by {
        assert s[..|pat|][0] == a[0];
      }
      assert s[1..] == a[1..] + rest;
      ReplacePast(a[1..], rest, pat, rep);
      assert [a[0]] + a[1..] == a;
    } else if |a| > 0 {
      assert |rest| < |pat|;
    } else {
      assert s == rest;
    }
  }

  /** Removing a pattern (replacing it by "") never makes a string longer. */
  lemma {:induction false} RemoveShrinks(s: string, pat: string)
    ensures |ReplaceAll(s, pat, "")| <= |s|
    decreases |s|
  {
    if |s| > 0 {
      if |pat| == 0 || |s| < |pat| || s[..|pat|] != pat {
        RemoveShrinks(s[1..], pat);
      } else {
        RemoveShrinks(s[|pat|..], pat);
      }
    }
  }

  /** Python's identity `s.replace(pat, rep) == rep.join(s.split(pat))` for a non-empty `pat`. */
  lemma {:induction false} ReplaceIsSplitJoin(s: string, pat: string, rep: string)
    requires |pat| > 0
    ensures ReplaceAll(s, pat, rep) == Join(rep, Split(s, pat))
    decreases |s|
  {
    match Find(s, pat)
    case None =>
      ReplaceAbsent(s, pat, rep);
    case Some(i) =>
      var rest := s[i + |pat|..];
      ReplaceAtFirst(s, pat, rep, i);
      ReplaceIsSplitJoin(rest, pat, rep);
      JoinCons(rep, s[..i], Split(rest, pat));
  }

  // ---------------------------------------------------------------------
  // join and split

  /** Joining a head onto a non-empty list puts one separator between them. */
  lemma JoinCons(sep: string, x: string, xs: seq<string>)
    requires |xs| > 0
    ensures Join(sep, [x] + xs) == x + sep + Join(sep, xs)
  {
    assert ([x] + xs)[1..] == xs;
  }

  /** Appending an element to a non-empty list appends the separator and the element. */
  lemma {:induction false} JoinSnoc(sep: string, xs: seq<string>, x: string)
    requires |xs| > 0
    ensures Join(sep, xs + [x]) == Join(sep, xs) + sep + x
    decreases |xs|
  {
    if |xs| == 1 {
      assert xs + [x] == [xs[0]] + [x];
    } else {
      assert (xs + [x])[1..] == xs[1..] + [x];
      JoinSnoc(sep, xs[1..], x);
    }
  }

  /** With the empty separator, join distributes over concatenation of lists. */
  lemma {:induction false} ConcatAppend(xs: seq<string>, ys: seq<string>)
    ensures Join("", xs + ys) == Join("", xs) + Join("", ys)
    decreases |ys|
  {
    if |ys| == 0 {
      assert xs + ys == xs;
    } else if |xs| == 0 {
      assert xs + ys == ys;
    } else {
      var init := ys[..|ys| - 1];
      var last := ys[|ys| - 1];
      assert ys == init + [last];
      assert xs + ys == (xs + init) + [last];
      ConcatAppend(xs, init);
      JoinSnoc("", xs + init, last);
      if |init| > 0 {
        JoinSnoc("", init, last);
      }
    }
  }

  /** Splitting on the first separator of a string built as `x + sep + t`. */
  lemma SplitAtSeparator(x: string, c: char, t: string)
    requires c !in x
    ensures Split(x + [c] + t, [c]) == [x] + Split(t, [c])
  {
    var s := x + [c] + t;
    assert OccursAt(s, [c], |x|);
    forall j: nat | j < |x|
      ensures !OccursAt(s, [c], j)
    {
      assert s[j] == x[j];
    }
    FindFirst(s, [c], |x|);
    assert s[..|x|] == x;
    assert s[|x| + 1..] == t;
  }

  /**
   `split` undoes `join` for a one-character separator, provided there is at
   least one element and no element contains the separator.
   */
  lemma {:induction false} SplitJoin(xs: seq<string>, c: char)
    requires |xs| > 0
    requires forall k :: 0 <= k < |xs| ==> c !in xs[k]
    ensures Split(Join([c], xs), [c]) == xs
    decreases |xs|
  {
    if |xs| == 1 {
      OccursChar(xs[0], c);
      assert Find(xs[0], [c]) == None;
      assert Split(xs[0], [c]) == [xs[0]];
    } else {
      var rest := Join([c], xs[1..]);
      assert Join([c], xs) == xs[0] + [c] + rest;
      SplitJoin(xs[1..], c);
      SplitAtSeparator(xs[0], c, rest);
      assert [xs[0]] + xs[1..] == xs;
    }
  }
}
