/** `sanitize_name`: every maximal run of characters outside [A-Za-z0-9]
    becomes a single hyphen. */
module NameSanitizer {

  predicate IsAlnum(c: char)
  {
    'A' <= c <= 'Z' || 'a' <= c <= 'z' || '0' <= c <= '9'
  }

  /** The rest of `s` after its leading run of characters outside [A-Za-z0-9]. */
  function SkipRun(s: string): (r: string)
    ensures |r| <= |s| && r == s[|s| - |r|..]
    ensures r == [] || IsAlnum(r[0])
    ensures forall i :: 0 <= i < |s| - |r| ==> !IsAlnum(s[i])
  {
    if s == [] || IsAlnum(s[0]) then s else SkipRun(s[1..])
  }

  function Sanitize(s: string): (r: string)
    ensures s == [] <==> r == []
    ensures s != [] && IsAlnum(s[0]) ==> r[0] == s[0]
    ensures s != [] && !IsAlnum(s[0]) ==> r[0] == '-'
    decreases |s|
  {
    if s == [] then []
    else if IsAlnum(s[0]) then [s[0]] + Sanitize(s[1..])
    else "-" + Sanitize(SkipRun(s[1..]))
  }

  /** Only [A-Za-z0-9-], and never two hyphens in a row. */
  predicate IsSanitized(r: string)
  {
    && (forall i :: 0 <= i < |r| ==> IsAlnum(r[i]) || r[i] == '-')
    && (forall i :: 0 <= i < |r| - 1 ==> !(r[i] == '-' && r[i + 1] == '-'))
  }

  /** The characters of `s` in [A-Za-z0-9], in order. */
  function Alnums(s: string): string
  {
    if s == [] then [] else (if IsAlnum(s[0]) then [s[0]] else []) + Alnums(s[1..])
  }

  lemma {:induction false} SanitizeIsSanitized(s: string)
    ensures IsSanitized(Sanitize(s))
    decreases |s|
  {
    if s != [] {
      if IsAlnum(s[0]) {
        SanitizeIsSanitized(s[1..]);
      } else {
        var rest := SkipRun(s[1..]);
        SanitizeIsSanitized(rest);
        var r := Sanitize(s);
        assert r == "-" + Sanitize(rest);
        assert |r| > 1 ==> IsAlnum(r[1]);
      }
    }
  }

  lemma {:induction false} AlnumsOfSkipRun(s: string)
    ensures Alnums(SkipRun(s)) == Alnums(s)
    decreases |s|
  {
    if s != [] && !IsAlnum(s[0]) {
      AlnumsOfSkipRun(s[1..]);
    }
  }

  lemma {:induction false} AlnumsAppend(a: string, b: string)
    ensures Alnums(a + b) == Alnums(a) + Alnums(b)
    decreases |a|
  {
    if a == [] {
      assert a + b == b;
    } else {
      AlnumsAppend(a[1..], b);
      var h := if IsAlnum(a[0]) then [a[0]] else [];
      assert (a + b)[0] == a[0];
      assert (a + b)[1..] == a[1..] + b;
      calc {
        Alnums(a + b);
        h + Alnums(a[1..] + b);
        h + (Alnums(a[1..]) + Alnums(b));
        (h + Alnums(a[1..])) + Alnums(b);
        Alnums(a) + Alnums(b);
      }
    }
  }

  /** The letters and digits of the name are kept, in order. */
  lemma {:induction false} SanitizeKeepsAlnums(s: string)
    ensures Alnums(Sanitize(s)) == Alnums(s)
    decreases |s|
  {
    if s != [] {
      if IsAlnum(s[0]) {
        SanitizeKeepsAlnums(s[1..]);
        AlnumsAppend([s[0]], Sanitize(s[1..]));
      } else {
        var rest := SkipRun(s[1..]);
        SanitizeKeepsAlnums(rest);
        AlnumsOfSkipRun(s[1..]);
        AlnumsAppend("-", Sanitize(rest));
      }
    }
  }

  /** A name already in sanitized form is its own image. */
  lemma {:induction false} SanitizedIsFixed(s: string)
    requires IsSanitized(s)
    ensures Sanitize(s) == s
    decreases |s|
  {
    if s != [] {
      assert IsSanitized(s[1..]) by {
        forall i | 0 <= i < |s[1..]| - 1
          ensures !(s[1..][i] == '-' && s[1..][i + 1] == '-')
        {
          assert s[1..][i] == s[i + 1] && s[1..][i + 1] == s[i + 2];
        }
      }
      SanitizedIsFixed(s[1..]);
      if !IsAlnum(s[0]) {
        assert s[0] == '-';
        assert s[1..] == [] || s[1] != '-';
        assert SkipRun(s[1..]) == s[1..];
      }
      assert s == [s[0]] + s[1..];
    }
  }

  /** The fixed points of sanitising are exactly the sanitized names. */
  lemma SanitizeFixedIff(s: string)
    ensures Sanitize(s) == s <==> IsSanitized(s)
  {
    SanitizeIsSanitized(s);
    if IsSanitized(s) {
      SanitizedIsFixed(s);
    }
  }

  lemma SanitizeIdempotent(s: string)
    ensures Sanitize(Sanitize(s)) == Sanitize(s)
  {
    SanitizeIsSanitized(s);
    SanitizedIsFixed(Sanitize(s));
  }

  /** A character-at-a-time reading of the same rule: a letter or digit is
      copied, a character outside [A-Za-z0-9] becomes a hyphen when it starts
      a run (`afterAlnum`) and vanishes otherwise. */
  function Collapse(s: string, afterAlnum: bool): string
  {
    if s == [] then []
    else if IsAlnum(s[0]) then [s[0]] + Collapse(s[1..], true)
    else (if afterAlnum then "-" else "") + Collapse(s[1..], false)
  }

  lemma {:induction false} CollapseInsideRun(s: string)
    ensures Collapse(s, false) == Collapse(SkipRun(s), true)
    decreases |s|
  {
    if s != [] && !IsAlnum(s[0]) {
      CollapseInsideRun(s[1..]);
    }
  }

  /** Run-collapsing and the per-character reading agree on every name. */
  lemma {:induction false} SanitizeIsCollapse(s: string)
    ensures Sanitize(s) == Collapse(s, true)
    decreases |s|
  {
    if s != [] {
      if IsAlnum(s[0]) {
        SanitizeIsCollapse(s[1..]);
      } else {
        SanitizeIsCollapse(SkipRun(s[1..]));
        CollapseInsideRun(s[1..]);
      }
    }
  }

  /** The state a per-character scan of `a` ends in, starting from `afterAlnum`. */
  function EndsAfterAlnum(a: string, afterAlnum: bool): bool
  {
    if a == [] then afterAlnum else IsAlnum(a[|a| - 1])
  }

  lemma {:induction false} CollapseAppend(a: string, b: string, afterAlnum: bool)
    ensures Collapse(a + b, afterAlnum) == Collapse(a, afterAlnum) + Collapse(b, EndsAfterAlnum(a, afterAlnum))
    decreases |a|
  {
    if a == [] {
      assert a + b == b;
    } else {
      var next := IsAlnum(a[0]);
      var head := if next then [a[0]] else if afterAlnum then "-" else "";
      CollapseAppend(a[1..], b, next);
      assert (a + b)[0] == a[0];
      assert (a + b)[1..] == a[1..] + b;
      assert EndsAfterAlnum(a[1..], next) == EndsAfterAlnum(a, afterAlnum);
      calc {
        Collapse(a + b, afterAlnum);
        head + Collapse(a[1..] + b, next);
        head + (Collapse(a[1..], next) + Collapse(b, EndsAfterAlnum(a, afterAlnum)));
        (head + Collapse(a[1..], next)) + Collapse(b, EndsAfterAlnum(a, afterAlnum));
        Collapse(a, afterAlnum) + Collapse(b, EndsAfterAlnum(a, afterAlnum));
      }
    }
  }

  lemma TeamOpsParts(s: string)
    requires s == "Team / Ops!!"
    ensures s == "Team" + " / " + "Ops" + "!!"
  {
    assert forall i :: 0 <= i < |s| ==> s[i] == ("Team" + " / " + "Ops" + "!!")[i];
  }

  lemma TeamOpsJoin(r: string)
    requires r == "Team" + "-" + "Ops" + "-"
    ensures r == "Team-Ops-"
  {
    assert forall i :: 0 <= i < |r| ==> r[i] == "Team-Ops-"[i];
  }

  lemma TeamOpsExample(s: string)
    requires s == "Team / Ops!!"
    ensures Sanitize(s) == "Team-Ops-"
    ensures Sanitize(Sanitize(s)) == "Team-Ops-"
  {
    var w1, sep, w2, tail := "Team", " / ", "Ops", "!!";
    TeamOpsParts(s);
    CollapseAppend(w1 + sep + w2, tail, true);
    CollapseAppend(w1 + sep, w2, true);
    CollapseAppend(w1, sep, true);
    assert Collapse(w1, true) == "Team";
    assert Collapse(sep, true) == "-";
    assert Collapse(w2, false) == "Ops";
    assert Collapse(tail, true) == "-";
    TeamOpsJoin(Collapse(s, true));
    SanitizeIsCollapse(s);
    SanitizeIdempotent(s);
  }

  lemma SingleSeparator(s: string, sep: string)
    requires s == "a" + sep + "b" && |sep| == 1 && !IsAlnum(sep[0])
    ensures Sanitize(s) == "a-b"
  {
    CollapseAppend("a" + sep, "b", true);
    CollapseAppend("a", sep, true);
    assert Collapse(sep, true) == "-" + Collapse(sep[1..], false);
    assert sep[1..] == [];
    SanitizeIsCollapse(s);
  }

  /** Distinct names can share one sanitized form. */
  lemma CollisionExample(a: string, b: string)
    requires a == "a b" && b == "a_b"
    ensures a != b && Sanitize(a) == Sanitize(b)
  {
    assert a[1] != b[1];
    assert a == "a" + " " + "b" && b == "a" + "_" + "b";
    SingleSeparator(a, " ");
    SingleSeparator(b, "_");
  }
}
