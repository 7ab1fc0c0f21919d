/** Literal find-and-replace on strings. */
module TextReplace {

  /** Python's `s.replace(pat, rep)`: every occurrence of `pat`, scanning left
      to right without overlaps, is replaced by `rep`. An empty `pat` matches
      before every character and at the end. */
  function ReplaceAll(s: string, pat: string, rep: string): string
    decreases |s|
  {
    if pat == [] then
      if s == [] then rep else rep + [s[0]] + ReplaceAll(s[1..], pat, rep)
    else if |s| < |pat| then s
    else if s[..|pat|] == pat then rep + ReplaceAll(s[|pat|..], pat, rep)
    else [s[0]] + ReplaceAll(s[1..], pat, rep)
  }

  /** `pat` occurs in `s` starting at index `i`. */
  predicate MatchAt(s: string, pat: string, i: nat)
  {
    i + |pat| <= |s| && s[i..i + |pat|] == pat
  }

  /** `pat in s` in Python: `pat` is a substring of `s`. */
  predicate Occurs(pat: string, s: string)
  {
    exists i: nat | i <= |s| :: MatchAt(s, pat, i)
  }

  /** A string that does not contain the pattern is left unchanged. */
  lemma {:induction false} ReplaceAbsent(s: string, pat: string, rep: string)
    requires !Occurs(pat, s)
    ensures ReplaceAll(s, pat, rep) == s
    decreases |s|
  {
    assert pat != [] by {
      assert !MatchAt(s, pat, 0);
    }
    if |s| >= |pat| {
      assert !MatchAt(s, pat, 0);
      assert s[..|pat|] != pat by { assert s[0..|pat|] == s[..|pat|]; }
      assert !Occurs(pat, s[1..]) by {
        forall i: nat | i + |pat| <= |s[1..]|
          ensures !MatchAt(s[1..], pat, i)
        {
          assert !MatchAt(s, pat, i + 1);
          assert s[1..][i..i + |pat|] == s[i + 1..i + 1 + |pat|];
        }
      }
      ReplaceAbsent(s[1..], pat, rep);
    }
  }

  /** Replacing a pattern by itself changes nothing. */
  lemma {:induction false} ReplaceBySelf(s: string, pat: string)
    ensures ReplaceAll(s, pat, pat) == s
    decreases |s|
  {
    if pat == [] {
      if s != [] {
        ReplaceBySelf(s[1..], pat);
        assert s == [s[0]] + s[1..];
      }
    } else if |s| >= |pat| {
      if s[..|pat|] == pat {
        ReplaceBySelf(s[|pat|..], pat);
        assert s == s[..|pat|] + s[|pat|..];
      } else {
        ReplaceBySelf(s[1..], pat);
        assert s == [s[0]] + s[1..];
      }
    }
  }

  /** One step of the scan where no occurrence starts at the front. */
  lemma NoMatchStep(s: string, pat: string, rep: string)
    requires pat != [] && s != [] && !MatchAt(s, pat, 0)
    ensures ReplaceAll(s, pat, rep) == [s[0]] + ReplaceAll(s[1..], pat, rep)
  {
    if |s| >= |pat| {
      assert s[..|pat|] == s[0..0 + |pat|];
    } else {
      ReplaceShort(s[1..], pat, rep);
      assert s == [s[0]] + s[1..];
    }
  }

  /** A string shorter than a non-empty pattern is unchanged. */
  lemma ReplaceShort(s: string, pat: string, rep: string)
    requires pat != [] && |s| < |pat|
    ensures ReplaceAll(s, pat, rep) == s
  {
  }

  /** A leading character that cannot start the pattern is copied. */
  lemma SkipOne(c: char, u: string, pat: string, rep: string)
    requires pat != [] && c != pat[0]
    ensures ReplaceAll([c] + u, pat, rep) == [c] + ReplaceAll(u, pat, rep)
  {
    var s := [c] + u;
    assert s[1..] == u;
    if |pat| <= |s| {
      assert s[0..|pat|][0] == c;
    }
    NoMatchStep(s, pat, rep);
  }

  /** A prefix free of the pattern's first character passes through unchanged. */
  lemma {:induction false} ReplaceSkipsLead(a: string, t: string, pat: string, rep: string)
    requires pat != [] && forall i :: 0 <= i < |a| ==> a[i] != pat[0]
    ensures ReplaceAll(a + t, pat, rep) == a + ReplaceAll(t, pat, rep)
    decreases |a|
  {
    if a == [] {
      assert a + t == t;
    } else {
      var a' := a[1..];
      var r := ReplaceAll(t, pat, rep);
      calc {
        ReplaceAll(a + t, pat, rep);
        { assert a + t == [a[0]] + (a' + t); }
        ReplaceAll([a[0]] + (a' + t), pat, rep);
        { SkipOne(a[0], a' + t, pat, rep); }
        [a[0]] + ReplaceAll(a' + t, pat, rep);
        { assert forall i :: 0 <= i < |a'| ==> a'[i] == a[i + 1];
          ReplaceSkipsLead(a', t, pat, rep); }
        [a[0]] + (a' + r);
        { assert a == [a[0]] + a'; }
        a + r;
      }
    }
  }

  /** A string without the pattern's first character is left unchanged. */
  lemma LeadAbsent(s: string, pat: string, rep: string)
    requires pat != [] && forall i :: 0 <= i < |s| ==> s[i] != pat[0]
    ensures ReplaceAll(s, pat, rep) == s
  {
    ReplaceSkipsLead(s, [], pat, rep);
    assert s + [] == s;
  }

  /** Dropping the first character shifts every occurrence one place left. */
  lemma MatchShift(s: string, pat: string, i: nat)
    requires s != []
    ensures MatchAt(s[1..], pat, i) <==> MatchAt(s, pat, i + 1)
  {
    if i + 1 + |pat| <= |s| {
      assert s[1..][i..i + |pat|] == s[i + 1..i + 1 + |pat|];
    }
  }

  /** A prefix at none of whose positions an occurrence starts is copied,
      and the scan continues after it. */
  lemma {:induction false} ReplaceSkipsUnmatched(a: string, t: string, pat: string, rep: string)
    requires pat != [] && forall i: nat :: i < |a| ==> !MatchAt(a + t, pat, i)
    ensures ReplaceAll(a + t, pat, rep) == a + ReplaceAll(t, pat, rep)
    decreases |a|
  {
    if a == [] {
      assert a + t == t;
    } else {
      var s := a + t;
      var a' := a[1..];
      assert s[1..] == a' + t;
      forall i: nat | i < |a'|
        ensures !MatchAt(a' + t, pat, i)
      {
        MatchShift(s, pat, i);
      }
      calc {
        ReplaceAll(s, pat, rep);
        { assert !MatchAt(s, pat, 0);
          NoMatchStep(s, pat, rep); }
        [a[0]] + ReplaceAll(a' + t, pat, rep);
        { ReplaceSkipsUnmatched(a', t, pat, rep); }
        [a[0]] + (a' + ReplaceAll(t, pat, rep));
        { assert a == [a[0]] + a'; }
        a + ReplaceAll(t, pat, rep);
      }
    }
  }

  /** The leftmost occurrence is replaced and the scan resumes after it, so
      the replacement text is never rescanned. */
  lemma ReplaceLeftmost(a: string, pat: string, t: string, rep: string)
    requires pat != [] && forall i: nat :: i < |a| ==> !MatchAt(a + pat + t, pat, i)
    ensures ReplaceAll(a + pat + t, pat, rep) == a + rep + ReplaceAll(t, pat, rep)
  {
    assert a + pat + t == a + (pat + t);
    ReplaceSkipsUnmatched(a, pat + t, pat, rep);
    assert (pat + t)[..|pat|] == pat;
    assert (pat + t)[|pat|..] == t;
  }

  /** The common case of `ReplaceLeftmost`: nothing before the occurrence can
      start the pattern. */
  lemma ReplaceFirst(a: string, pat: string, t: string, rep: string)
    requires pat != [] && forall i :: 0 <= i < |a| ==> a[i] != pat[0]
    ensures ReplaceAll(a + pat + t, pat, rep) == a + rep + ReplaceAll(t, pat, rep)
  {
    var s := a + pat + t;
    forall i: nat | i < |a|
      ensures !MatchAt(s, pat, i)
    {
      if i + |pat| <= |s| {
        assert s[i..i + |pat|][0] == a[i];
      }
    }
    ReplaceLeftmost(a, pat, t, rep);
  }

  lemma RateIntervalSplit(e: string)
    requires e == "rate(x[$__rate_interval])"
    ensures e == "rate(x[" + "$__rate_interval" + "])"
  {
    assert forall i :: 0 <= i < |e| ==> ("rate(x[" + "$__rate_interval" + "])")[i] == e[i];
  }

  lemma RateIntervalReplaced(e: string)
    requires e == "rate(x[$__rate_interval])"
    ensures ReplaceAll(ReplaceAll(ReplaceAll(e, "$__rate_interval", "1m"), "$__interval", "1m"), "$__interval_ms", "60000")
      == "rate(x[1m])"
  {
    RateIntervalSplit(e);
    ReplaceFirst("rate(x[", "$__rate_interval", "])", "1m");
    ReplaceShort("])", "$__rate_interval", "1m");
    var r := "rate(x[1m])";
    assert "rate(x[" + "1m" + "])" == r;
    LeadAbsent(r, "$__interval", "1m");
    LeadAbsent(r, "$__interval_ms", "60000");
  }

  lemma IntervalMsSplit(e: string)
    requires e == "x[$__interval_ms]"
    ensures e == "x[" + ("$__interval" + "_ms]")
  {
    assert forall i :: 0 <= i < |e| ==> ("x[" + ("$__interval" + "_ms]"))[i] == e[i];
  }

  lemma IntervalMsJoin(r: string)
    requires r == "x[" + "1m" + "_ms]"
    ensures r == "x[1m_ms]"
  {
    assert forall i :: 0 <= i < |r| ==> r[i] == "x[1m_ms]"[i];
  }

  lemma IntervalReplacedFirst(e: string)
    requires e == "x[$__interval_ms]"
    ensures ReplaceAll(ReplaceAll(ReplaceAll(e, "$__rate_interval", "1m"), "$__interval", "1m"), "$__interval_ms", "60000")
      == "x[1m_ms]"
  {
    IntervalMsSplit(e);
    var u := "$__interval" + "_ms]";
    ReplaceSkipsLead("x[", u, "$__rate_interval", "1m");
    ReplaceShort(u, "$__rate_interval", "1m");
    var e1 := ReplaceAll(e, "$__rate_interval", "1m");
    assert e1 == e;
    assert e == "x[" + "$__interval" + "_ms]";
    ReplaceFirst("x[", "$__interval", "_ms]", "1m");
    LeadAbsent("_ms]", "$__interval", "1m");
    var e2 := ReplaceAll(e1, "$__interval", "1m");
    assert e2 == "x[" + "1m" + "_ms]";
    IntervalMsJoin(e2);
    LeadAbsent(e2, "$__interval_ms", "60000");
  }
}
