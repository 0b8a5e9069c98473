/** Literal substring replacement on strings, as performed by Rust's `str::replace`:
    every leftmost, non-overlapping occurrence of a pattern is replaced, scanning
    from left to right, and the inserted text is never scanned again. */
module Text {

  /** `pat` occurs somewhere in `s`. */
  predicate Contains(s: string, pat: string) {
    exists i | 0 <= i <= |s| :: pat <= s[i..]
  }

  /** Replace every occurrence of `pat` in `s` by `rep`, left to right, without
      rescanning `rep`. */
  function ReplaceAll(s: string, pat: string, rep: string): string
    requires |pat| > 0
    decreases |s|
  {
    if pat <= s then rep + ReplaceAll(s[|pat|..], pat, rep)
    else if s == [] then []
    else [s[0]] + ReplaceAll(s[1..], pat, rep)
  }

  /** The number of occurrences that `ReplaceAll` replaces. */
  function Count(s: string, pat: string): nat
    requires |pat| > 0
    decreases |s|
  {
    if pat <= s then 1 + Count(s[|pat|..], pat)
    else if s == [] then 0
    else Count(s[1..], pat)
  }

  /** A string in which the first character of `pat` never appears cannot contain `pat`. */
  lemma AbsentFirstChar(s: string, pat: string)
    requires |pat| > 0
    requires pat[0] !in s
    ensures !Contains(s, pat)
  {
  }

  /** An occurrence at the start of `a + b` that is longer than `a` reaches into `b`,
      so it uses the first character of `b`. */
  lemma PrefixAcrossBoundary(a: string, b: string, pat: string)
    ensures |a| < |pat| && pat <= a + b ==> b != [] && b[0] in pat
  {
    if |a| < |pat| && pat <= a + b {
      assert pat[|a|] == (a + b)[|a|];
    }
  }

  /** Replacement leaves a string without occurrences unchanged. */
  lemma {:induction false} ReplaceAbsent(s: string, pat: string, rep: string)
    requires |pat| > 0
    requires !Contains(s, pat)
    ensures ReplaceAll(s, pat, rep) == s
    decreases |s|
  {
    assert s[0..] == s;
    if s != [] {
      forall i | 0 <= i <= |s[1..]|
        ensures s[1..][i..] == s[i + 1..]
      {
      }
      ReplaceAbsent(s[1..], pat, rep);
    }
  }

  /** An occurrence exists exactly when at least one is counted. */
  lemma {:induction false} CountPositive(s: string, pat: string)
    requires |pat| > 0
    ensures Count(s, pat) > 0 <==> Contains(s, pat)
    decreases |s|
  {
    assert s[0..] == s;
    if pat <= s {
    } else if s == [] {
    } else {
      CountPositive(s[1..], pat);
      if Contains(s, pat) {
        var i :| 0 <= i <= |s| && pat <= s[i..];
        assert i != 0;
        assert s[1..][i - 1..] == s[i..];
      }
      if Contains(s[1..], pat) {
        var i :| 0 <= i <= |s[1..]| && pat <= s[1..][i..];
        assert s[1..][i..] == s[i + 1..];
      }
    }
  }

  /** Replacing each occurrence changes the length by the length difference per occurrence. */
  lemma {:induction false} ReplaceLength(s: string, pat: string, rep: string)
    requires |pat| > 0
    ensures |ReplaceAll(s, pat, rep)| == |s| + Count(s, pat) * (|rep| - |pat|)
    decreases |s|
  {
    var d := |rep| - |pat|;
    if pat <= s {
      var rest := s[|pat|..];
      ReplaceLength(rest, pat, rep);
      var c := Count(rest, pat);
      var n := |ReplaceAll(rest, pat, rep)|;
      assert n == |rest| + c * d;
      assert |ReplaceAll(s, pat, rep)| == |rep| + n;
      assert Count(s, pat) == c + 1;
      MulSucc(c, d);
    } else if s != [] {
      ReplaceLength(s[1..], pat, rep);
    }
  }

  lemma MulSucc(c: int, d: int)
    ensures (c + 1) * d == c * d + d
  {
  }

  /** Replacing a pattern by itself is the identity. */
  lemma {:induction false} ReplaceSelf(s: string, pat: string)
    requires |pat| > 0
    ensures ReplaceAll(s, pat, pat) == s
    decreases |s|
  {
    if pat <= s {
      ReplaceSelf(s[|pat|..], pat);
      assert pat + s[|pat|..] == s;
    } else if s != [] {
      ReplaceSelf(s[1..], pat);
      assert [s[0]] + s[1..] == s;
    }
  }

  /** A prefix in which the first character of `pat` never appears is copied unchanged. */
  lemma {:induction false} ReplaceSkip(a: string, b: string, pat: string, rep: string)
    requires |pat| > 0
    requires pat[0] !in a
    ensures ReplaceAll(a + b, pat, rep) == a + ReplaceAll(b, pat, rep)
    decreases |a|
  {
    if a == [] {
      assert a + b == b;
    } else {
      assert (a + b)[0] == a[0];
      assert (a + b)[1..] == a[1..] + b;
      assert a == [a[0]] + a[1..];
      ReplaceSkip(a[1..], b, pat, rep);
    }
  }

  /** An occurrence at the very start is replaced and scanning resumes after it. */
  lemma ReplaceAtStart(b: string, pat: string, rep: string)
    requires |pat| > 0
    ensures ReplaceAll(pat + b, pat, rep) == rep + ReplaceAll(b, pat, rep)
  {
    assert (pat + b)[|pat|..] == b;
  }

  /** Where no occurrence starts, the first character is copied and scanning moves on. */
  lemma ReplaceNotAtStart(s: string, pat: string, rep: string)
    requires |pat| > 0
    requires s != [] && !(pat <= s)
    ensures ReplaceAll(s, pat, rep) == [s[0]] + ReplaceAll(s[1..], pat, rep)
  {
  }

  /** When `b` starts with a character that `pat` does not use, no occurrence can
      straddle the boundary, so replacement distributes over the concatenation. */
  lemma {:induction false} ReplaceConcat(a: string, b: string, pat: string, rep: string)
    requires |pat| > 0
    requires b == [] || b[0] !in pat
    ensures ReplaceAll(a + b, pat, rep) == ReplaceAll(a, pat, rep) + ReplaceAll(b, pat, rep)
    decreases |a|
  {
    if a == [] {
      assert a + b == b;
    } else if pat <= a {
      var a' := a[|pat|..];
      StepAtStart(a, b, pat, rep);
      ReplaceConcat(a', b, pat, rep);
      Regroup(rep, ReplaceAll(a', pat, rep), ReplaceAll(b, pat, rep));
    } else {
      var a' := a[1..];
      StepNotAtStart(a, b, pat, rep);
      ReplaceNotAtStart(a, pat, rep);
      ReplaceConcat(a', b, pat, rep);
      Regroup([a[0]], ReplaceAll(a', pat, rep), ReplaceAll(b, pat, rep));
    }
  }

  /** Concatenation is associative. */
  lemma Regroup<T>(h: seq<T>, x: seq<T>, y: seq<T>)
    ensures h + (x + y) == (h + x) + y
  {
  }

  /** One step of `ReplaceConcat` where `a` starts with `pat`. */
  lemma StepAtStart(a: string, b: string, pat: string, rep: string)
    requires |pat| > 0 && pat <= a
    ensures ReplaceAll(a + b, pat, rep) == rep + ReplaceAll(a[|pat|..] + b, pat, rep)
    ensures ReplaceAll(a, pat, rep) == rep + ReplaceAll(a[|pat|..], pat, rep)
  {
    var a' := a[|pat|..];
    assert a == pat + a';
    assert a + b == pat + (a' + b);
    ReplaceAtStart(a' + b, pat, rep);
    ReplaceAtStart(a', pat, rep);
  }

  /** One step of `ReplaceConcat` where `a` is non-empty and does not start with `pat`. */
  lemma StepNotAtStart(a: string, b: string, pat: string, rep: string)
    requires |pat| > 0 && a != [] && !(pat <= a)
    requires b == [] || b[0] !in pat
    ensures ReplaceAll(a + b, pat, rep) == [a[0]] + ReplaceAll(a[1..] + b, pat, rep)
  {
    var s := a + b;
    NoStartAcrossBoundary(a, b, pat);
    assert s[0] == a[0];
    assert s[1..] == a[1..] + b;
    ReplaceNotAtStart(s, pat, rep);
  }

  /** Under the boundary condition, `a + b` starts with `pat` only if `a` does. */
  lemma NoStartAcrossBoundary(a: string, b: string, pat: string)
    requires b == [] || b[0] !in pat
    requires !(pat <= a)
    ensures !(pat <= a + b)
  {
    PrefixAcrossBoundary(a, b, pat);
  }

  /** Counting distributes over a concatenation under the same boundary condition. */
  lemma {:induction false} CountConcat(a: string, b: string, pat: string)
    requires |pat| > 0
    requires b == [] || b[0] !in pat
    ensures Count(a + b, pat) == Count(a, pat) + Count(b, pat)
    decreases |a|
  {
    if a == [] {
      assert a + b == b;
    } else if pat <= a {
      var a' := a[|pat|..];
      assert a + b == pat + (a' + b);
      assert (pat + (a' + b))[|pat|..] == a' + b;
      CountConcat(a', b, pat);
    } else {
      NoStartAcrossBoundary(a, b, pat);
      assert (a + b)[1..] == a[1..] + b;
      CountConcat(a[1..], b, pat);
    }
  }

}
