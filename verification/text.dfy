/** The string operations the dispatcher applies to a recognised utterance:
    Python's substring test `p in s`, `s.replace(p, "")` and `s.strip()`. */
module Text {

  /** `p` is a prefix of `s`. */
  predicate IsPrefix(p: string, s: string) {
    |p| <= |s| && s[..|p|] == p
  }

  /** `p` occurs in `s` starting at index `i`. */
  ghost predicate OccursAt(s: string, p: string, i: int) {
    0 <= i && i + |p| <= |s| && s[i..i + |p|] == p
  }

  /** Python's `p in s`: substring containment, decided by trying every start. */
  predicate Contains(s: string, p: string)
    decreases |s|
  {
    IsPrefix(p, s) || (|s| > 0 && Contains(s[1..], p))
  }

  /** An occurrence at any position makes `Contains` true. */
  lemma {:induction false} OccursImpliesContains(s: string, p: string, i: int)
    requires OccursAt(s, p, i)
    ensures Contains(s, p)
    decreases i
  {
    if i == 0 {
      assert s[..|p|] == s[0..0 + |p|];
    } else {
      assert s[1..][i - 1..i - 1 + |p|] == s[i..i + |p|];
      OccursImpliesContains(s[1..], p, i - 1);
    }
  }

  /** Containment agrees with the positional definition: some occurrence exists. */
  lemma {:induction false} ContainsIffOccurs(s: string, p: string)
    ensures Contains(s, p) <==> exists i :: OccursAt(s, p, i)
    decreases |s|
  {
    forall i | OccursAt(s, p, i) ensures Contains(s, p) {
      OccursImpliesContains(s, p, i);
    }
    if IsPrefix(p, s) {
      assert OccursAt(s, p, 0);
    } else if |s| > 0 {
      ContainsIffOccurs(s[1..], p);
      if Contains(s[1..], p) {
        var i :| OccursAt(s[1..], p, i);
        assert s[i + 1..i + 1 + |p|] == s[1..][i..i + |p|];
        assert OccursAt(s, p, i + 1);
      }
    }
  }

  /** A string that does not start with the first character of `p` contains
      `p` exactly when its tail does. */
  lemma ContainsAfterForeignHead(c: char, s: string, p: string)
    requires |p| > 0 && p[0] != c
    ensures Contains([c] + s, p) <==> Contains(s, p)
  {
    assert ([c] + s)[1..] == s;
  }

  /** Python's `s.replace(p, "")`: scans left to right and deletes every
      non-overlapping occurrence of `p`. The result equals the input exactly
      when there was nothing to delete. */
  function RemoveAll(s: string, p: string): (r: string)
    requires |p| > 0
    ensures |r| <= |s|
    ensures r == s <==> !Contains(s, p)
    decreases |s|
  {
    if s == [] then []
    else if IsPrefix(p, s) then RemoveAll(s[|p|..], p)
    else [s[0]] + RemoveAll(s[1..], p)
  }

  /** Removing a pattern from a string that starts with it drops that copy. */
  lemma RemoveAllLeading(p: string, s: string)
    requires |p| > 0
    ensures RemoveAll(p + s, p) == RemoveAll(s, p)
  {
    assert IsPrefix(p, p + s);
    assert (p + s)[|p|..] == s;
  }

  /** No occurrence of `p` in `x + y` starts inside `x` and runs past its end. */
  ghost predicate NoStraddle(x: string, y: string, p: string) {
    forall i :: 0 <= i < |x| < i + |p| ==> !OccursAt(x + y, p, i)
  }

  lemma NoStraddleShift(x: string, y: string, p: string, k: nat)
    requires k <= |x| && NoStraddle(x, y, p)
    ensures NoStraddle(x[k..], y, p)
  {
    assert x[k..] + y == (x + y)[k..];
    forall i | 0 <= i < |x[k..]| < i + |p|
      ensures !OccursAt(x[k..] + y, p, i)
    {
      assert !OccursAt(x + y, p, i + k);
      if i + |p| <= |x[k..] + y| {
        assert (x + y)[i + k..i + k + |p|] == (x[k..] + y)[i..i + |p|];
      }
    }
  }

  /** A prefix of `x` is a prefix of every extension of `x`. */
  lemma PrefixExtends(p: string, x: string, y: string)
    ensures IsPrefix(p, x) ==> IsPrefix(p, x + y)
  {
    if |p| <= |x| {
      assert (x + y)[..|p|] == x[..|p|];
    }
  }

  /** Every occurrence is deleted wherever it sits, not only the first: when
      no occurrence straddles the seam, removing from `x + y` removes from
      each part on its own. */
  lemma {:induction false} RemoveAllSplit(x: string, y: string, p: string)
    requires |p| > 0 && NoStraddle(x, y, p)
    ensures RemoveAll(x + y, p) == RemoveAll(x, p) + RemoveAll(y, p)
    decreases |x|
  {
    if x == [] {
      assert x + y == y;
    } else if IsPrefix(p, x + y) {
      assert 0 < |x| < |p| ==> !OccursAt(x + y, p, 0);
      assert |p| <= |x|;
      assert (x + y)[..|p|] == x[..|p|];
      assert (x + y)[|p|..] == x[|p|..] + y;
      NoStraddleShift(x, y, p, |p|);
      RemoveAllSplit(x[|p|..], y, p);
    } else {
      PrefixExtends(p, x, y);
      assert (x + y)[0] == x[0];
      assert (x + y)[1..] == x[1..] + y;
      NoStraddleShift(x, y, p, 1);
      RemoveAllSplit(x[1..], y, p);
    }
  }

  /** One pass is not a closure: deleting an occurrence can join two halves
      into a fresh occurrence, so the result may still contain the pattern. */
  lemma RemoveAllCanLeavePattern()
    ensures RemoveAll("vvêê", "vê") == "vê"
    ensures Contains(RemoveAll("vvêê", "vê"), "vê")
  {
    var s := "vvêê";
    assert s[..2] == "vv";
    assert !IsPrefix("vê", s);
    assert s[1..] == "vêê";
    assert IsPrefix("vê", "vêê");
    assert "vêê"[2..] == "ê";
    assert !IsPrefix("vê", "ê");
    assert "ê"[1..] == "";
    assert RemoveAll("ê", "vê") == "ê";
    assert IsPrefix("vê", "vê");
  }

  /** The characters Python's `str.isspace()` accepts, which `str.strip()`
      with no argument removes. */
  predicate IsSpace(c: char) {
    || ('\t' <= c <= '\r')
    || ('\U{1C}' <= c <= ' ')
    || c == '\U{85}' || c == '\U{A0}' || c == '\U{1680}'
    || ('\U{2000}' <= c <= '\U{200A}')
    || c == '\U{2028}' || c == '\U{2029}' || c == '\U{202F}'
    || c == '\U{205F}' || c == '\U{3000}'
  }

  ghost predicate AllSpace(s: string) {
    forall i :: 0 <= i < |s| ==> IsSpace(s[i])
  }

  /** Neither end of `s` is whitespace. */
  predicate Trimmed(s: string) {
    s == [] || (!IsSpace(s[0]) && !IsSpace(s[|s| - 1]))
  }

  /** `s.lstrip()`: the suffix left after dropping the leading whitespace. */
  function TrimStart(s: string): (r: string)
    ensures |r| <= |s| && r == s[|s| - |r|..]
    ensures AllSpace(s[..|s| - |r|])
    ensures r == [] || !IsSpace(r[0])
    decreases |s|
  {
    if s != [] && IsSpace(s[0]) then TrimStart(s[1..]) else s
  }

  /** `s.rstrip()`: the prefix left after dropping the trailing whitespace. */
  function TrimEnd(s: string): (r: string)
    ensures |r| <= |s| && r == s[..|r|]
    ensures AllSpace(s[|r|..])
    ensures r == [] || !IsSpace(r[|r| - 1])
    decreases |s|
  {
    if s != [] && IsSpace(s[|s| - 1]) then
      var r := TrimEnd(s[..|s| - 1]);
      assert s[|r|..] == s[..|s| - 1][|r|..] + [s[|s| - 1]];
      r
    else s
  }

  /** Python's `s.strip()`: no whitespace is left at either end. */
  function Strip(s: string): (r: string)
    ensures Trimmed(r)
    ensures |r| <= |s|
  {
    TrimEnd(TrimStart(s))
  }

  /** `m` is the slice `s[a..b]`, and everything around it is whitespace. */
  ghost predicate MiddleSlice(s: string, m: string, a: int, b: int) {
    0 <= a <= b <= |s| && m == s[a..b] && AllSpace(s[..a]) && AllSpace(s[b..])
  }

  /** `strip` removes only whitespace: its result is the middle slice of `s`
      between a run of leading and a run of trailing whitespace. */
  lemma StripIsMiddleSlice(s: string)
    ensures exists a, b :: MiddleSlice(s, Strip(s), a, b)
  {
    var t := TrimStart(s);
    var r := TrimEnd(t);
    var a := |s| - |t|;
    var b := a + |r|;
    assert Strip(s) == s[a..b] by {
      assert t == s[a..];
      assert r == t[..|r|];
    }
    assert AllSpace(s[b..]) by {
      assert s[b..] == t[|r|..];
    }
    assert MiddleSlice(s, Strip(s), a, b);
  }

  lemma {:induction false} TrimStartSkips(x: string, t: string)
    requires AllSpace(x)
    requires t == [] || !IsSpace(t[0])
    ensures TrimStart(x + t) == t
    decreases |x|
  {
    if x == [] {
      assert x + t == t;
    } else {
      assert (x + t)[1..] == x[1..] + t;
      TrimStartSkips(x[1..], t);
    }
  }

  lemma {:induction false} TrimEndSkips(t: string, y: string)
    requires AllSpace(y)
    requires t == [] || !IsSpace(t[|t| - 1])
    ensures TrimEnd(t + y) == t
    decreases |y|
  {
    if y == [] {
      assert t + y == t;
    } else {
      assert (t + y)[..|t + y| - 1] == t + y[..|y| - 1];
      TrimEndSkips(t, y[..|y| - 1]);
    }
  }

  /** `strip` is characterised by its result: whenever `s` is whitespace,
      then a trimmed middle, then whitespace, `Strip(s)` is that middle. */
  lemma StripUnique(x: string, m: string, y: string)
    requires AllSpace(x) && AllSpace(y) && Trimmed(m)
    ensures Strip(x + m + y) == m
  {
    if m == [] {
      assert x + m + y == (x + y) + m;
      TrimStartSkips(x + y, m);
    } else {
      assert x + m + y == x + (m + y);
      TrimStartSkips(x, m + y);
      TrimEndSkips(m, y);
    }
  }

  /** A string with no whitespace at either end is its own strip. */
  lemma StripOfTrimmed(m: string)
    requires Trimmed(m)
    ensures Strip(m) == m
  {
    assert TrimStart(m) == m;
    assert TrimEnd(m) == m;
  }

  /** Stripping twice is the same as stripping once. */
  lemma StripIdempotent(s: string)
    ensures Strip(Strip(s)) == Strip(s)
  {
    StripOfTrimmed(Strip(s));
  }
}
