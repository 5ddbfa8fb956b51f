/** Character-level helpers shared by the automaton and the matcher: suffixes,
    Python's substring test `p in t`, and the CJK-ideograph class
    `[一-龥]` used by the matcher's regular expressions. */
module Text {

  /** The last `k` characters of `s`. */
  function Suffix(s: string, k: nat): string
    requires k <= |s|
  {
    s[|s| - k..]
  }

  /** `t` is a (not necessarily proper) suffix of `s`. */
  predicate IsSuffix(t: string, s: string)
  {
    |t| <= |s| && s[|s| - |t|..] == t
  }

  /** Python's `p in t`: `p` occurs as a contiguous block of `t`.  Stated by
      the position where the occurrence ends, which is how a left-to-right scan
      discovers it. */
  predicate Contains(t: string, p: string)
    decreases |t|
  {
    IsSuffix(p, t) || (|t| > 0 && Contains(t[..|t| - 1], p))
  }

  /** Contains agrees with the textbook definition of a substring. */
  lemma {:induction false} ContainsIff(t: string, p: string)
    ensures Contains(t, p) <==> exists i, j :: 0 <= i <= j <= |t| && t[i..j] == p
    decreases |t|
  {
    if Contains(t, p) {
      if IsSuffix(p, t) {
        assert t[|t| - |p|..|t|] == p;
      } else {
        var t' := t[..|t| - 1];
        ContainsIff(t', p);
        var i, j :| 0 <= i <= j <= |t'| && t'[i..j] == p;
        assert t[i..j] == t'[i..j];
      }
    }
    if exists i, j :: 0 <= i <= j <= |t| && t[i..j] == p {
      var i, j :| 0 <= i <= j <= |t| && t[i..j] == p;
      if j == |t| {
        assert IsSuffix(p, t);
      } else {
        var t' := t[..|t| - 1];
        assert t'[i..j] == t[i..j];
        ContainsIff(t', p);
      }
    }
  }

  /** An occurrence in a suffix of `t` is an occurrence in `t`. */
  lemma {:induction false} ContainsInSuffix(t: string, u: string, p: string)
    requires IsSuffix(u, t) && Contains(u, p)
    ensures Contains(t, p)
    decreases |u|
  {
    if IsSuffix(p, u) {
      assert t[|t| - |p|..] == u[|u| - |p|..];
    } else {
      var t', u' := t[..|t| - 1], u[..|u| - 1];
      assert t'[|t'| - |u'|..] == u';
      ContainsInSuffix(t', u', p);
    }
  }

  /** A text contains its own prefixes. */
  lemma {:induction false} ContainsPrefix(a: string, b: string)
    ensures Contains(a + b, a)
    decreases |b|
  {
    if b == [] {
      assert a + b == a;
    } else {
      assert (a + b)[..|a + b| - 1] == a + b[..|b| - 1];
      ContainsPrefix(a, b[..|b| - 1]);
    }
  }

  /** An occurrence inside an occurrence is an occurrence. */
  lemma {:induction false} ContainsTrans(t: string, u: string, p: string)
    requires Contains(t, u) && Contains(u, p)
    ensures Contains(t, p)
    decreases |t|
  {
    if IsSuffix(u, t) {
      ContainsInSuffix(t, u, p);
    } else {
      ContainsTrans(t[..|t| - 1], u, p);
    }
  }

  /** Growing the text by one character adds exactly the occurrences that end
      at the new last position. */
  lemma ContainsSnoc(s: string, c: char, p: string)
    ensures Contains(s + [c], p) <==> IsSuffix(p, s + [c]) || Contains(s, p)
  {
    assert (s + [c])[..|s|] == s;
  }

  /** The empty string occurs in every text, as Python's `"" in t` does. */
  lemma ContainsEmpty(t: string)
    ensures Contains(t, [])
  {
    assert t[|t|..] == [];
  }

  /** Extending a prefix of `p` by the next character of `p`. */
  lemma PrefixStep(p: string, i: nat)
    requires i < |p|
    ensures p[..i + 1] == p[..i] + [p[i]] && p[..i + 1] <= p
  {
    assert p[..i + 1] == p[..i] + [p[i]];
  }

  /** Suffixes of `s + [c]` of positive length end in `c`. */
  lemma SuffixSnoc(s: string, c: char, m: nat)
    requires 1 <= m <= |s| + 1
    ensures Suffix(s + [c], m) == Suffix(s, m - 1) + [c]
  {
  }

  /** A short suffix of `s` is a suffix of any longer suffix of `s`. */
  lemma SuffixOfSuffix(s: string, f: string, k: nat)
    requires IsSuffix(f, s) && k <= |f|
    ensures Suffix(s, k) == Suffix(f, k)
  {
  }

  /** The character class `[一-龥]`: the CJK Unified Ideographs
      that the matcher treats as Chinese text. */
  predicate IsCjk(c: char)
  {
    '\U{4E00}' <= c <= '\U{9FA5}'
  }

  predicate AllCjk(s: string)
  {
    forall i :: 0 <= i < |s| ==> IsCjk(s[i])
  }

  /** The text with every character outside the CJK class dropped. */
  function CjkOnly(t: string): (r: string)
    ensures |r| <= |t|
    ensures AllCjk(r)
  {
    if t == [] then []
    else (if IsCjk(t[0]) then [t[0]] else []) + CjkOnly(t[1..])
  }

  lemma {:induction false} CjkOnlyAppend(a: string, b: string)
    ensures CjkOnly(a + b) == CjkOnly(a) + CjkOnly(b)
    decreases |a|
  {
    if a == [] {
      assert a + b == b;
    } else {
      assert (a + b)[0] == a[0];
      assert (a + b)[1..] == a[1..] + b;
      CjkOnlyAppend(a[1..], b);
    }
  }

  /** Filtering keeps exactly the text when all of it is CJK. */
  lemma {:induction false} CjkOnlyFixed(t: string)
    ensures CjkOnly(t) == t <==> AllCjk(t)
    decreases |t|
  {
    if t != [] {
      CjkOnlyFixed(t[1..]);
      if !IsCjk(t[0]) {
        assert |CjkOnly(t)| < |t|;
      }
    }
  }

  /** Length of the leading block of CJK characters of `t`. */
  function CjkLead(t: string): (n: nat)
    ensures n <= |t|
    ensures forall i :: 0 <= i < n ==> IsCjk(t[i])
    ensures n < |t| ==> !IsCjk(t[n])
  {
    if t == [] || !IsCjk(t[0]) then 0 else 1 + CjkLead(t[1..])
  }

  /** Python's `re.findall(r'[一-龥]+', t)`: the maximal blocks of
      CJK characters of `t`, left to right. */
  function CjkRuns(t: string): (runs: seq<string>)
    ensures forall k :: 0 <= k < |runs| ==> runs[k] != [] && AllCjk(runs[k])
    decreases |t|
  {
    if t == [] then []
    else if !IsCjk(t[0]) then CjkRuns(t[1..])
    else
      var n := CjkLead(t);
      [t[..n]] + CjkRuns(t[n..])
  }

  /** Python's `''.join(parts)`. */
  function Concat(parts: seq<string>): (r: string)
  {
    if parts == [] then [] else parts[0] + Concat(parts[1..])
  }

  /** `''.join(re.findall(r'[一-龥]+', t))` is the character filter. */
  lemma {:induction false} RunsJoin(t: string)
    ensures Concat(CjkRuns(t)) == CjkOnly(t)
    decreases |t|
  {
    if t != [] {
      if !IsCjk(t[0]) {
        RunsJoin(t[1..]);
      } else {
        var n := CjkLead(t);
        assert t == t[..n] + t[n..];
        CjkOnlyAppend(t[..n], t[n..]);
        CjkOnlyFixed(t[..n]);
        RunsJoin(t[n..]);
        assert CjkRuns(t)[1..] == CjkRuns(t[n..]);
      }
    }
  }

  lemma CjkLeadAll(s: string)
    requires AllCjk(s)
    ensures CjkLead(s) == |s|
  {
  }

  /** A whole block of CJK text is a single run. */
  lemma RunsOfBlock(s: string)
    requires s != [] && AllCjk(s)
    ensures CjkRuns(s) == [s]
  {
    CjkLeadAll(s);
    assert s[..|s|] == s;
  }

  lemma {:induction false} CjkLeadStops(a: string, x: char, b: string)
    requires !IsCjk(x)
    ensures CjkLead(a + [x] + b) == CjkLead(a)
    decreases |a|
  {
    if a != [] && IsCjk(a[0]) {
      assert (a + [x] + b)[1..] == a[1..] + [x] + b;
      CjkLeadStops(a[1..], x, b);
    }
  }

  /** Runs never cross a non-CJK character: splitting the text at one splits
      the list of runs.  With RunsOfBlock this pins down the runs exactly. */
  lemma {:induction false} RunsSplit(a: string, x: char, b: string)
    requires !IsCjk(x)
    ensures CjkRuns(a + [x] + b) == CjkRuns(a) + CjkRuns(b)
    decreases |a|
  {
    var t := a + [x] + b;
    if a == [] {
      assert t[1..] == b;
    } else if !IsCjk(a[0]) {
      assert t[1..] == a[1..] + [x] + b;
      RunsSplit(a[1..], x, b);
    } else {
      var n := CjkLead(a);
      CjkLeadStops(a, x, b);
      assert t[..n] == a[..n];
      assert t[n..] == a[n..] + [x] + b;
      RunsSplit(a[n..], x, b);
    }
  }
}
