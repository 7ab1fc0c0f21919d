/** An insertion-ordered string dictionary, as a Python dict behaves:
    assigning to an existing key overwrites its value in place, and a new
    key goes to the end. */
module OrderedMap {
  import opened DashboardTypes

  type VarMap = seq<(string, string)>

  function Keys(m: VarMap): seq<string>
  {
    if m == [] then [] else [m[0].0] + Keys(m[1..])
  }

  predicate Distinct(s: seq<string>)
  {
    forall i, j :: 0 <= i < j < |s| ==> s[i] != s[j]
  }

  predicate DistinctKeys(m: VarMap)
  {
    Distinct(Keys(m))
  }

  /** `m.get(k)`: the value stored under `k`, if any. */
  function Lookup(m: VarMap, k: string): (r: Option<string>)
    ensures r.Some? <==> k in Keys(m)
  {
    if m == [] then None
    else if m[0].0 == k then Some(m[0].1)
    else Lookup(m[1..], k)
  }

  /** In a map without repeated keys, every stored pair is what a lookup of
      its key finds. */
  lemma {:induction false} LookupStored(m: VarMap, i: nat)
    requires DistinctKeys(m) && i < |m|
    ensures Lookup(m, m[i].0) == Some(m[i].1)
    decreases |m|
  {
    if i > 0 {
      assert Keys(m)[0] == m[0].0 && Keys(m)[i] == m[i].0 by {
        KeysAt(m, 0);
        KeysAt(m, i);
      }
      assert Keys(m[1..]) == Keys(m)[1..];
      LookupStored(m[1..], i - 1);
    }
  }

  /** The `i`th key is the key of the `i`th pair. */
  lemma {:induction false} KeysAt(m: VarMap, i: nat)
    requires i < |m|
    ensures |Keys(m)| == |m| && Keys(m)[i] == m[i].0
    decreases |m|
  {
    if i > 0 {
      KeysAt(m[1..], i - 1);
    } else if |m| > 1 {
      KeysAt(m[1..], 0);
    }
  }

  /** `m[k] = v`: an existing key keeps its position and takes the new value;
      a new key is appended. */
  function Put(m: VarMap, k: string, v: string): (r: VarMap)
    ensures Keys(r) == if k in Keys(m) then Keys(m) else Keys(m) + [k]
    ensures Lookup(r, k) == Some(v)
    ensures forall k' :: k' != k ==> Lookup(r, k') == Lookup(m, k')
    ensures DistinctKeys(m) ==> DistinctKeys(r)
  {
    if m == [] then [(k, v)]
    else if m[0].0 == k then
      var r := [(k, v)] + m[1..];
      assert r[1..] == m[1..];
      assert Keys(r) == [k] + Keys(m[1..]) == Keys(m);
      DistinctCons(k, Keys(m[1..]));
      r
    else
      var t := Put(m[1..], k, v);
      var r := [m[0]] + t;
      assert r[1..] == t;
      assert Keys(m) == [m[0].0] + Keys(m[1..]);
      assert Keys(r) == [m[0].0] + Keys(t);
      DistinctCons(m[0].0, Keys(m[1..]));
      DistinctCons(m[0].0, Keys(t));
      r
  }

  /** A sequence with a new head is repetition-free exactly when its tail is
      and does not hold the head. */
  lemma DistinctCons(x: string, s: seq<string>)
    ensures Distinct([x] + s) <==> x !in s && Distinct(s)
  {
    var c := [x] + s;
    assert c[1..] == s;
    if x !in s && Distinct(s) {
      forall i, j | 0 <= i < j < |c|
        ensures c[i] != c[j]
      {
        assert c[j] == s[j - 1];
        if i > 0 {
          assert c[i] == s[i - 1];
        }
      }
    }
    if Distinct(c) {
      forall i | 0 <= i < |s|
        ensures s[i] != x
      {
        assert c[0] == x && c[i + 1] == s[i];
      }
      forall i, j | 0 <= i < j < |s|
        ensures s[i] != s[j]
      {
        assert c[i + 1] == s[i] && c[j + 1] == s[j];
      }
    }
  }

  /** The elements of `s` in the order of their first occurrence. */
  function FirstOccurrences(s: seq<string>): (r: seq<string>)
    ensures forall x :: x in r <==> x in s
    ensures Distinct(r)
    decreases |s|
  {
    if s == [] then []
    else
      var d := FirstOccurrences(s[..|s| - 1]);
      assert s == s[..|s| - 1] + [s[|s| - 1]];
      if s[|s| - 1] in d then d else d + [s[|s| - 1]]
  }

  /** Appending to a sequence never reorders the first occurrences already seen. */
  lemma {:induction false} FirstOccurrencesPrefix(s: seq<string>, t: seq<string>)
    ensures |FirstOccurrences(s)| <= |FirstOccurrences(s + t)|
    ensures FirstOccurrences(s + t)[..|FirstOccurrences(s)|] == FirstOccurrences(s)
    decreases |t|
  {
    if t == [] {
      assert s + t == s;
    } else {
      var t' := t[..|t| - 1];
      FirstOccurrencesPrefix(s, t');
      assert (s + t)[..|s + t| - 1] == s + t';
    }
  }

  /** A sequence without repetitions is its own first-occurrence order. */
  lemma {:induction false} FirstOccurrencesOfDistinct(s: seq<string>)
    requires Distinct(s)
    ensures FirstOccurrences(s) == s
    decreases |s|
  {
    if s != [] {
      var p := s[..|s| - 1];
      assert Distinct(p);
      FirstOccurrencesOfDistinct(p);
      assert s[|s| - 1] !in p;
      assert s == p + [s[|s| - 1]];
    }
  }
}
