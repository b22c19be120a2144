/**
 * The operations of Python's `str` that the page generator relies on:
 * whitespace stripping, substring search and replacement, the code-point
 * order that `<` and `sorted` use, and `sorted` applied to a set of strings.
 */
module PyStr {

  /** `c.isspace()`: the characters that `str.strip()` with no argument removes. */
  predicate IsSpace(c: char) {
    || '\t' <= c <= '\r' || '\U{1C}' <= c <= ' ' || c == '\U{85}' || c == '\U{A0}'
    || c == '\U{1680}' || '\U{2000}' <= c <= '\U{200A}' || c == '\U{2028}' || c == '\U{2029}'
    || c == '\U{202F}' || c == '\U{205F}' || c == '\U{3000}'
  }

  /** Neither end of `s` is whitespace: what `strip()` leaves behind. */
  predicate NoOuterSpace(s: string) {
    s == [] || (!IsSpace(s[0]) && !IsSpace(s[|s| - 1]))
  }

  /** `s.lstrip()`: the suffix left after the longest run of leading whitespace. */
  function LStrip(s: string): (r: string)
    ensures |r| <= |s| && (r != [] ==> r[|r| - 1] == s[|s| - 1])
    ensures r == [] || !IsSpace(r[0])
  {
    if s != [] && IsSpace(s[0]) then LStrip(s[1..]) else s
  }

  /** `s.rstrip()`: the prefix left after the longest run of trailing whitespace. */
  function RStrip(s: string): (r: string)
    ensures |r| <= |s| && (r != [] ==> r[0] == s[0])
    ensures r == [] || !IsSpace(r[|r| - 1])
  {
    if s != [] && IsSpace(s[|s| - 1]) then RStrip(s[..|s| - 1]) else s
  }

  /** `s.strip()`: whitespace removed from both ends, nothing else touched. */
  function Strip(s: string): (r: string)
    ensures NoOuterSpace(r) && |r| <= |s|
    ensures NoOuterSpace(s) ==> r == s
  {
    RStrip(LStrip(s))
  }

  /** `lstrip()` returns a suffix of its argument. */
  lemma {:induction false} LStripIsSuffix(s: string)
    ensures LStrip(s) == s[|s| - |LStrip(s)|..]
    decreases |s|
  {
    if s != [] && IsSpace(s[0]) {
      LStripIsSuffix(s[1..]);
      assert s[1..][|s| - 1 - |LStrip(s)|..] == s[|s| - |LStrip(s)|..];
    }
  }

  /** `rstrip()` returns a prefix of its argument. */
  lemma {:induction false} RStripIsPrefix(s: string)
    ensures RStrip(s) == s[..|RStrip(s)|]
    decreases |s|
  {
    if s != [] && IsSpace(s[|s| - 1]) {
      RStripIsPrefix(s[..|s| - 1]);
      assert s[..|s| - 1][..|RStrip(s)|] == s[..|RStrip(s)|];
    }
  }

  lemma {:induction false} LStripDropsOnlySpace(s: string)
    ensures forall i :: 0 <= i < |s| - |LStrip(s)| ==> IsSpace(s[i])
    decreases |s|
  {
    if s != [] && IsSpace(s[0]) {
      var t := s[1..];
      LStripDropsOnlySpace(t);
      forall i | 1 <= i < |s| - |LStrip(s)|
        ensures IsSpace(s[i])
      {
        assert s[i] == t[i - 1];
      }
    }
  }

  lemma {:induction false} RStripDropsOnlySpace(s: string)
    ensures forall i :: |RStrip(s)| <= i < |s| ==> IsSpace(s[i])
    decreases |s|
  {
    if s != [] && IsSpace(s[|s| - 1]) {
      var t := s[..|s| - 1];
      RStripDropsOnlySpace(t);
      forall i | |RStrip(s)| <= i < |s| - 1
        ensures IsSpace(s[i])
      {
        assert s[i] == t[i];
      }
    }
  }

  /** `strip()` returns a contiguous slice of its argument (the dropped ends are whitespace, see above). */
  lemma StripIsSlice(s: string)
    ensures var a := |s| - |LStrip(s)|;
      a + |Strip(s)| <= |s| && Strip(s) == s[a..a + |Strip(s)|]
  {
    var l := LStrip(s);
    var a := |s| - |l|;
    LStripIsSuffix(s);
    RStripIsPrefix(l);
    assert l[..|Strip(s)|] == s[a..a + |Strip(s)|];
  }

  /** Whitespace appended to a stripped string is exactly what `rstrip()` removes again. */
  lemma {:induction false} RStripSpaceSuffix(s: string, pad: string)
    requires s != [] && !IsSpace(s[|s| - 1])
    requires forall k :: 0 <= k < |pad| ==> IsSpace(pad[k])
    ensures RStrip(s + pad) == s
    decreases |pad|
  {
    if pad == [] {
      assert s + pad == s;
    } else {
      var t, init := s + pad, pad[..|pad| - 1];
      assert t[|t| - 1] == pad[|pad| - 1];
      assert t[..|t| - 1] == s + init;
      RStripSpaceSuffix(s, init);
      assert RStrip(t) == RStrip(s + init);
    }
  }

  /** `pat` occurs in `s` starting at index `i`. */
  predicate OccursAt(s: string, pat: string, i: int) {
    0 <= i && i + |pat| <= |s| && s[i..i + |pat|] == pat
  }

  lemma OccursAtTail(s: string, pat: string)
    requires s != []
    ensures forall j :: 1 <= j ==> (OccursAt(s, pat, j) <==> OccursAt(s[1..], pat, j - 1))
  {
    forall j | 1 <= j
      ensures OccursAt(s, pat, j) <==> OccursAt(s[1..], pat, j - 1)
    {
      if j + |pat| <= |s| {
        assert s[1..][j - 1..j - 1 + |pat|] == s[j..j + |pat|];
      }
    }
  }

  /** `s.find(pat)`: the first index at which `pat` occurs in `s`, or -1 when it does not occur (see FindSpec). */
  function Find(s: string, pat: string): (r: int)
    ensures r == -1 || 0 <= r <= |s| - |pat|
    decreases |s|
  {
    if |s| < |pat| then -1
    else if s[..|pat|] == pat then 0
    else
      var k := Find(s[1..], pat);
      if k < 0 then -1 else k + 1
  }

  /** `find` returns the first occurrence, and -1 exactly when there is none. */
  lemma {:induction false} FindSpec(s: string, pat: string)
    ensures var r := Find(s, pat);
      && (r == -1 || OccursAt(s, pat, r))
      && forall j :: 0 <= j && (r == -1 || j < r) ==> !OccursAt(s, pat, j)
    decreases |s|
  {
    if |s| >= |pat| && s[..|pat|] != pat {
      OccursAtTail(s, pat);
      FindSpec(s[1..], pat);
    }
  }

  /** `pat in s`. */
  predicate Contains(s: string, pat: string) {
    Find(s, pat) >= 0
  }

  /** When `pat in s`, `find` points at an occurrence. */
  lemma FindOccurs(s: string, pat: string)
    requires Contains(s, pat)
    ensures OccursAt(s, pat, Find(s, pat))
  {
    FindSpec(s, pat);
  }

  /** An occurrence makes `pat in s` true, and `find` returns it or an earlier one. */
  lemma FoundBy(s: string, pat: string, i: int)
    requires OccursAt(s, pat, i)
    ensures Contains(s, pat) && Find(s, pat) <= i
  {
    FindSpec(s, pat);
  }

  /** An occurrence inside the slice `s[a..b]` is an occurrence in `s`, shifted by `a`. */
  lemma OccursInSlice(s: string, pat: string, a: nat, b: nat, j: int)
    requires a <= b <= |s| && OccursAt(s[a..b], pat, j)
    ensures OccursAt(s, pat, a + j)
  {
    var t := s[a..b];
    forall k | j <= k < j + |pat|
      ensures t[k] == s[a + k]
    {
    }
    assert t[j..j + |pat|] == s[a + j..a + j + |pat|];
  }

  /** A slice ending at or before the first occurrence of `pat` does not contain it. */
  lemma NotBeforeFirst(s: string, pat: string, lo: nat, hi: nat)
    requires pat != [] && lo <= hi <= Find(s, pat)
    ensures !Contains(s[lo..hi], pat)
  {
    var t := s[lo..hi];
    if Contains(t, pat) {
      var r := Find(t, pat);
      FindOccurs(t, pat);
      OccursInSlice(s, pat, lo, hi, r);
      FoundBy(s, pat, lo + r);
      assert false;
    }
  }

  /**
   * `s.replace(pat, rep)` for a non-empty `pat`: the occurrences of `pat`,
   * found left to right without overlapping, are each replaced by `rep`.
   */
  function Replace(s: string, pat: string, rep: string): (r: string)
    requires pat != []
    ensures rep == pat ==> r == s
    ensures |rep| >= |pat| ==> |r| >= |s|
    decreases |s|
  {
    if |s| < |pat| then s
    else if s[..|pat|] == pat then rep + Replace(s[|pat|..], pat, rep)
    else [s[0]] + Replace(s[1..], pat, rep)
  }

  /** A string in which `pat` does not occur is left unchanged by `replace`. */
  lemma {:induction false} ReplaceAbsent(s: string, pat: string, rep: string)
    requires pat != [] && !Contains(s, pat)
    ensures Replace(s, pat, rep) == s
    decreases |s|
  {
    FindSpec(s, pat);
    if |s| >= |pat| {
      assert !OccursAt(s, pat, 0);
      OccursAtTail(s, pat);
      ReplaceAbsent(s[1..], pat, rep);
      assert s == [s[0]] + s[1..];
    }
  }

  /** `replace` passes over a prefix in which the first character of `pat` never appears. */
  lemma {:induction false} ReplaceSkipsPrefix(s: string, t: string, pat: string, rep: string)
    requires pat != [] && forall k :: 0 <= k < |s| ==> s[k] != pat[0]
    ensures Replace(s + t, pat, rep) == s + Replace(t, pat, rep)
    decreases |s|
  {
    var u := s + t;
    if s == [] {
      assert u == t;
    } else if |u| < |pat| {
      assert Replace(t, pat, rep) == t;
    } else {
      assert u[..|pat|] != pat by {
        assert u[..|pat|][0] == s[0];
      }
      assert u[1..] == s[1..] + t;
      ReplaceSkipsPrefix(s[1..], t, pat, rep);
      calc {
        Replace(u, pat, rep);
        [s[0]] + Replace(s[1..] + t, pat, rep);
        [s[0]] + (s[1..] + Replace(t, pat, rep));
        { assert [s[0]] + s[1..] == s; }
        s + Replace(t, pat, rep);
      }
    }
  }

  /** `pat.replace(pat, rep)` is `rep`. */
  lemma ReplaceWhole(pat: string, rep: string)
    requires pat != []
    ensures Replace(pat, pat, rep) == rep
  {
    assert pat[..|pat|] == pat && pat[|pat|..] == [];
  }

  /** Python's `a < b` on strings: lexicographic by code point, a proper prefix coming first. */
  predicate StrLess(a: string, b: string)
    decreases |a|
  {
    if a == [] then b != []
    else if b == [] then false
    else if a[0] != b[0] then a[0] < b[0]
    else StrLess(a[1..], b[1..])
  }

  lemma {:induction false} StrLessIrreflexive(a: string)
    ensures !StrLess(a, a)
    decreases |a|
  {
    if a != [] {
      StrLessIrreflexive(a[1..]);
    }
  }

  lemma {:induction false} StrLessAsymmetric(a: string, b: string)
    requires StrLess(a, b)
    ensures !StrLess(b, a)
    decreases |a|
  {
    if a != [] && b != [] && a[0] == b[0] {
      StrLessAsymmetric(a[1..], b[1..]);
    }
  }

  lemma {:induction false} StrLessTransitive(a: string, b: string, c: string)
    requires StrLess(a, b) && StrLess(b, c)
    ensures StrLess(a, c)
    decreases |a|
  {
    if a != [] && a[0] == b[0] && b[0] == c[0] {
      StrLessTransitive(a[1..], b[1..], c[1..]);
    }
  }

  lemma {:induction false} StrLessTotal(a: string, b: string)
    ensures a == b || StrLess(a, b) || StrLess(b, a)
    decreases |a|
  {
    if a != [] && b != [] && a[0] == b[0] {
      StrLessTotal(a[1..], b[1..]);
      if a[1..] == b[1..] {
        assert a == [a[0]] + a[1..] && b == [b[0]] + b[1..];
      }
    }
  }

  /** Every element is below every later one: sorted, with no repetitions. */
  predicate StrictlySorted(r: seq<string>) {
    forall p, q :: 0 <= p < q < |r| ==> StrLess(r[p], r[q])
  }

  lemma StrictlySortedDistinct(r: seq<string>)
    requires StrictlySorted(r)
    ensures forall p, q :: 0 <= p < q < |r| ==> r[p] != r[q]
  {
    forall p, q | 0 <= p < q < |r| ensures r[p] != r[q] {
      StrLessIrreflexive(r[p]);
    }
  }

  /** `m` is the smallest element of `s`. */
  predicate IsLeast(m: string, s: set<string>) {
    m in s && forall y :: y in s && y != m ==> StrLess(m, y)
  }

  lemma {:induction false} LeastExists(s: set<string>)
    requires s != {}
    ensures exists m :: IsLeast(m, s)
    decreases s
  {
    var x :| x in s;
    if s == {x} {
      assert IsLeast(x, s);
    } else {
      LeastExists(s - {x});
      var m :| IsLeast(m, s - {x});
      StrLessTotal(m, x);
      if StrLess(m, x) {
        assert IsLeast(m, s);
      } else {
        forall y | y in s && y != x
          ensures StrLess(x, y)
        {
          if y != m {
            StrLessTransitive(x, m, y);
          }
        }
        assert IsLeast(x, s);
      }
    }
  }

  lemma LeastUnique(s: set<string>)
    ensures forall m, n :: IsLeast(m, s) && IsLeast(n, s) ==> m == n
  {
    forall m, n | IsLeast(m, s) && IsLeast(n, s)
      ensures m == n
    {
      if m != n {
        StrLessAsymmetric(m, n);
      }
    }
  }

  /** `sorted(s)` for a set of strings: every element once, in ascending order. */
  function SortSet(s: set<string>): (r: seq<string>)
    ensures StrictlySorted(r)
    ensures |r| == |s| && forall x :: x in r <==> x in s
    decreases s
  {
    if s == {} then []
    else
      LeastExists(s);
      LeastUnique(s);
      var m :| IsLeast(m, s);
      [m] + SortSet(s - {m})
  }
}
