/** The experiment-name slug: the Django `slugify` recipe the experiment applies
    to the name it is given (Experiment.py, `__slugify`).

    The recipe runs in four stages, each modelled by its own function:
      1. drop every character outside ASCII (`encode('ascii', 'ignore')`);
      2. lower-case, then delete every character outside `[\w\s-]`;
      3. replace every maximal run of `[-\s]` by one `-`;
      4. strip `-` and `_` from both ends.
    Character classes are those Python's `re` gives a `str` pattern, restricted
    to ASCII (which is all that survives stage 1). */
module Slug {

  // ---------------------------------------------------------------------------
  // Character classes
  // ---------------------------------------------------------------------------

  predicate IsAscii(c: char) { c as int < 128 }
  predicate IsUpper(c: char) { 'A' <= c <= 'Z' }
  predicate IsLower(c: char) { 'a' <= c <= 'z' }
  predicate IsDigit(c: char) { '0' <= c <= '9' }
  predicate IsAlnum(c: char) { IsUpper(c) || IsLower(c) || IsDigit(c) }

  /** `\w` on ASCII: letters, digits and the underscore. */
  predicate IsWordChar(c: char) { IsAlnum(c) || c == '_' }

  /** `\s` on ASCII: tab, line feed, vertical tab, form feed, carriage return,
      the four information separators 0x1C..0x1F, and space. */
  predicate IsSpace(c: char) { 9 <= c as int <= 13 || 28 <= c as int <= 32 }

  /** The class `[\w\s-]` the first substitution keeps. */
  predicate IsKept(c: char) { IsWordChar(c) || IsSpace(c) || c == '-' }

  /** The class `[-\s]` whose runs the second substitution collapses. */
  predicate IsSeparator(c: char) { c == '-' || IsSpace(c) }

  /** The characters `strip('-_')` removes from the ends. */
  predicate IsStripped(c: char) { c == '-' || c == '_' }

  /** The characters a slug is made of. */
  predicate IsSlugChar(c: char) { IsLower(c) || IsDigit(c) || c == '_' || c == '-' }

  /** No two adjacent dashes. */
  predicate NoDoubleDash(s: string) {
    forall i :: 0 <= i < |s| - 1 ==> !(s[i] == '-' && s[i + 1] == '-')
  }

  predicate NoSpace(s: string) {
    forall i :: 0 <= i < |s| ==> !IsSpace(s[i])
  }

  /** The shape of every slug: slug characters only, no doubled dash, and no
      dash or underscore at either end. */
  predicate IsSlug(t: string) {
    && (forall i :: 0 <= i < |t| ==> IsSlugChar(t[i]))
    && NoDoubleDash(t)
    && (|t| > 0 ==> !IsStripped(t[0]) && !IsStripped(t[|t| - 1]))
  }

  // ---------------------------------------------------------------------------
  // Stages
  // ---------------------------------------------------------------------------

  /** The characters of `s` that satisfy `p`, in their original order. */
  function Filter(p: char -> bool, s: string): (r: string)
    ensures |r| <= |s|
    ensures forall c :: c in r <==> c in s && p(c)
    ensures (forall i :: 0 <= i < |s| ==> p(s[i])) ==> r == s
  {
    if |s| == 0 then []
    else if p(s[0]) then [s[0]] + Filter(p, s[1..])
    else Filter(p, s[1..])
  }

  /** `str.lower` on one ASCII character. */
  function ToLower(c: char): (r: char)
    ensures !IsUpper(r)
    ensures IsUpper(c) ==> IsLower(r) && r as int - 'a' as int == c as int - 'A' as int
    ensures IsAlnum(r) <==> IsAlnum(c)
    ensures IsAscii(r) <==> IsAscii(c)
    ensures !IsUpper(c) ==> r == c
  {
    if IsUpper(c) then (c as int + 32) as char else c
  }

  /** `str.lower` on an ASCII string: same length, upper-case letters replaced
      position by position, nothing else touched. */
  function Lower(s: string): (r: string)
    ensures |r| == |s|
    ensures forall i :: 0 <= i < |s| ==> r[i] == ToLower(s[i])
  {
    if |s| == 0 then [] else [ToLower(s[0])] + Lower(s[1..])
  }

  /** `re.sub(r'[-\s]+', '-', s)`, scanning left to right; `inRun` says that
      the character just before `s` was a separator already replaced by a
      dash. */
  function CollapseFrom(s: string, inRun: bool): (r: string)
    ensures NoSpace(r)
    ensures NoDoubleDash(r)
    ensures forall i :: 0 <= i < |r| ==> r[i] == '-' || (r[i] in s && !IsSeparator(r[i]))
    ensures |r| > 0 && r[0] == '-' <==> !inRun && |s| > 0 && IsSeparator(s[0])
    ensures NoSpace(s) && NoDoubleDash(s) && !(inRun && |s| > 0 && s[0] == '-') ==> r == s
  {
    if |s| == 0 then []
    else if IsSeparator(s[0]) then
      if inRun then CollapseFrom(s[1..], true) else ['-'] + CollapseFrom(s[1..], true)
    else [s[0]] + CollapseFrom(s[1..], false)
  }

  /** Where `lstrip('-_')` cuts: the end of the run of dashes and underscores
      that starts at `k`. */
  function LeadingRunEnd(s: string, k: nat): (a: nat)
    requires k <= |s|
    ensures k <= a <= |s|
    ensures forall i :: k <= i < a ==> IsStripped(s[i])
    ensures a < |s| ==> !IsStripped(s[a])
    decreases |s| - k
  {
    if k < |s| && IsStripped(s[k]) then LeadingRunEnd(s, k + 1) else k
  }

  /** Where `rstrip('-_')` cuts, not looking left of `lo`: the start of the run
      of dashes and underscores that ends at `e`. */
  function TrailingRunStart(s: string, lo: nat, e: nat): (b: nat)
    requires lo <= e <= |s|
    ensures lo <= b <= e
    ensures forall i :: b <= i < e ==> IsStripped(s[i])
    ensures b > lo ==> !IsStripped(s[b - 1])
    decreases e - lo
  {
    if e > lo && IsStripped(s[e - 1]) then TrailingRunStart(s, lo, e - 1) else e
  }

  /** `r` is the piece of `s` starting at `k`, and everything of `s` outside that
      piece is a dash or an underscore. */
  predicate IsTrimmedPiece(s: string, r: string, k: int) {
    && 0 <= k <= |s| - |r|
    && r == s[k..k + |r|]
    && (forall i :: 0 <= i < k ==> IsStripped(s[i]))
    && (forall i :: k + |r| <= i < |s| ==> IsStripped(s[i]))
  }

  /** `strip('-_')`: a contiguous piece of `s`, with only dashes and
      underscores cut away on either side, that neither starts nor ends with
      one. */
  function Strip(s: string): (r: string)
    ensures IsTrimmedPiece(s, r, LeadingRunEnd(s, 0))
    ensures |r| > 0 ==> !IsStripped(r[0]) && !IsStripped(r[|r| - 1])
    ensures |s| == 0 || (!IsStripped(s[0]) && !IsStripped(s[|s| - 1])) ==> r == s
  {
    var a := LeadingRunEnd(s, 0);
    var b := TrailingRunStart(s, a, |s|);
    s[a..b]
  }

  /** The whole recipe. Every result has the slug shape. */
  function Slugify(s: string): (r: string)
    ensures IsSlug(r)
  {
    StagesGiveSlug(s);
    Strip(CollapseFrom(Filter(IsKept, Lower(Filter(IsAscii, s))), false))
  }

  /** The four stages, one after the other, end in the slug shape. */
  lemma StagesGiveSlug(s: string)
    ensures IsSlug(Strip(CollapseFrom(Filter(IsKept, Lower(Filter(IsAscii, s))), false)))
  {
    var ascii := Filter(IsAscii, s);
    var kept := Filter(IsKept, Lower(ascii));
    KeptChars(ascii);
    CollapsedChars(kept);
    StrippedShape(CollapseFrom(kept, false));
  }

  /** Only lower-case members of `[\w\s-]`. */
  predicate KeptLower(t: string) {
    forall i :: 0 <= i < |t| ==> IsKept(t[i]) && !IsUpper(t[i])
  }

  /** After lower-casing and deleting, only lower-case members of `[\w\s-]`
      remain. */
  lemma KeptChars(x: string)
    ensures KeptLower(Filter(IsKept, Lower(x)))
  {
    var lowered := Lower(x);
    assert forall i :: 0 <= i < |lowered| ==> !IsUpper(lowered[i]) by {
      forall i | 0 <= i < |lowered|
        ensures !IsUpper(lowered[i])
      {
        assert lowered[i] == ToLower(x[i]);
      }
    }
    var kept := Filter(IsKept, lowered);
    forall i | 0 <= i < |kept|
      ensures IsKept(kept[i]) && !IsUpper(kept[i])
    {
      assert kept[i] in kept;
      assert kept[i] in lowered;
    }
  }

  /** Collapsing the separators of such a string leaves slug characters only. */
  lemma CollapsedChars(kept: string)
    requires KeptLower(kept)
    ensures var c := CollapseFrom(kept, false);
            forall i :: 0 <= i < |c| ==> IsSlugChar(c[i])
  {
    var c := CollapseFrom(kept, false);
    forall i | 0 <= i < |c|
      ensures IsSlugChar(c[i])
    {
      if c[i] != '-' {
        assert c[i] in kept;
      }
    }
  }

  /** Stripping a string of slug characters without `--` gives a slug. */
  lemma StrippedShape(c: string)
    requires forall i :: 0 <= i < |c| ==> IsSlugChar(c[i])
    requires NoDoubleDash(c)
    ensures IsSlug(Strip(c))
  {
    var r := Strip(c);
    var k := LeadingRunEnd(c, 0);
    assert IsTrimmedPiece(c, r, k);
    assert forall i :: 0 <= i < |r| ==> r[i] == c[k + i];
  }

  // ---------------------------------------------------------------------------
  // Properties
  // ---------------------------------------------------------------------------

  /** Lower-casing a string without upper-case letters changes nothing. */
  lemma LowerFixed(t: string)
    requires forall i :: 0 <= i < |t| ==> !IsUpper(t[i])
    ensures Lower(t) == t
  {
    var l := Lower(t);
    assert forall i :: 0 <= i < |t| ==> l[i] == t[i];
  }

  /** The slugs are exactly the fixed points of the recipe. */
  lemma SlugFixedPoints(t: string)
    ensures IsSlug(t) <==> Slugify(t) == t
  {
    if IsSlug(t) {
      assert forall i :: 0 <= i < |t| ==> IsAscii(t[i]) && !IsUpper(t[i]) && IsKept(t[i]);
      assert Filter(IsAscii, t) == t;
      LowerFixed(t);
      assert Filter(IsKept, t) == t;
      assert NoSpace(t);
      assert CollapseFrom(t, false) == t;
    }
  }

  /** Slugifying a slug changes nothing. */
  lemma SlugifyIdempotent(s: string)
    ensures Slugify(Slugify(s)) == Slugify(s)
  {
    SlugFixedPoints(Slugify(s));
  }

  lemma {:induction false} FilterAppend(p: char -> bool, a: string, b: string)
    ensures Filter(p, a + b) == Filter(p, a) + Filter(p, b)
    decreases |a|
  {
    if |a| > 0 {
      assert (a + b)[0] == a[0];
      assert (a + b)[1..] == a[1..] + b;
      FilterAppend(p, a[1..], b);
    } else {
      assert a + b == b;
    }
  }

  /** Lower-casing and keeping only letters and digits commute. */
  lemma {:induction false} AlnumOfLower(s: string)
    ensures Filter(IsAlnum, Lower(s)) == Lower(Filter(IsAlnum, s))
    decreases |s|
  {
    if |s| > 0 {
      AlnumOfLower(s[1..]);
      assert Lower(s)[1..] == Lower(s[1..]);
      assert Lower(s) == [ToLower(s[0])] + Lower(s[1..]);
      if IsAlnum(s[0]) {
        assert Filter(IsAlnum, s) == [s[0]] + Filter(IsAlnum, s[1..]);
        assert Lower([s[0]] + Filter(IsAlnum, s[1..]))[1..] == Lower(Filter(IsAlnum, s[1..]));
      }
    }
  }

  /** Deleting characters outside a class that contains every letter and digit
      leaves the letters and digits alone. */
  lemma {:induction false} AlnumOfKept(s: string)
    ensures Filter(IsAlnum, Filter(IsKept, s)) == Filter(IsAlnum, s)
    decreases |s|
  {
    if |s| > 0 {
      AlnumOfKept(s[1..]);
      if IsKept(s[0]) {
        assert Filter(IsKept, s) == [s[0]] + Filter(IsKept, s[1..]);
        FilterAppend(IsAlnum, [s[0]], Filter(IsKept, s[1..]));
      }
    }
  }

  /** Collapsing separator runs keeps every letter and digit, in order. */
  lemma {:induction false} AlnumOfCollapse(s: string, inRun: bool)
    ensures Filter(IsAlnum, CollapseFrom(s, inRun)) == Filter(IsAlnum, s)
    decreases |s|
  {
    if |s| > 0 {
      assert s == [s[0]] + s[1..];
      FilterAppend(IsAlnum, [s[0]], s[1..]);
      if IsSeparator(s[0]) {
        AlnumOfCollapse(s[1..], true);
        if !inRun {
          FilterAppend(IsAlnum, ['-'], CollapseFrom(s[1..], true));
        }
      } else {
        AlnumOfCollapse(s[1..], false);
        FilterAppend(IsAlnum, [s[0]], CollapseFrom(s[1..], false));
      }
    }
  }

  /** The characters the collapse leaves alone: everything outside `[-\s]`. */
  predicate IsNonSeparator(c: char) { !IsSeparator(c) }

  /** Collapsing separator runs keeps every character outside `[-\s]` (letters,
      digits, `_`), each occurrence once and in order. */
  lemma {:induction false} NonSeparatorsOfCollapse(s: string, inRun: bool)
    ensures Filter(IsNonSeparator, CollapseFrom(s, inRun)) == Filter(IsNonSeparator, s)
    decreases |s|
  {
    if |s| > 0 {
      assert s == [s[0]] + s[1..];
      FilterAppend(IsNonSeparator, [s[0]], s[1..]);
      if IsSeparator(s[0]) {
        NonSeparatorsOfCollapse(s[1..], true);
        if !inRun {
          FilterAppend(IsNonSeparator, ['-'], CollapseFrom(s[1..], true));
        }
      } else {
        NonSeparatorsOfCollapse(s[1..], false);
        FilterAppend(IsNonSeparator, [s[0]], CollapseFrom(s[1..], false));
      }
    }
  }

  /** A stretch without separators passes through the collapse unchanged. */
  lemma {:induction false} CollapsePlain(u: string, w: string)
    requires forall i :: 0 <= i < |u| ==> !IsSeparator(u[i])
    ensures CollapseFrom(u + w, false) == u + CollapseFrom(w, false)
    decreases |u|
  {
    if |u| == 0 {
      assert u + w == w;
    } else {
      var t := u + w;
      assert CollapseFrom(t, false) == [u[0]] + CollapseFrom(u[1..] + w, false) by {
        assert t[0] == u[0] && !IsSeparator(t[0]);
        assert t[1..] == u[1..] + w;
      }
      CollapsePlain(u[1..], w);
      assert u + CollapseFrom(w, false) == [u[0]] + (u[1..] + CollapseFrom(w, false)) by {
        assert u == [u[0]] + u[1..];
      }
    }
  }

  /** Inside a run, further separators produce nothing. */
  lemma {:induction false} CollapseInRun(x: string, w: string)
    requires forall i :: 0 <= i < |x| ==> IsSeparator(x[i])
    ensures CollapseFrom(x + w, true) == CollapseFrom(w, true)
    decreases |x|
  {
    if |x| == 0 {
      assert x + w == w;
    } else {
      var t := x + w;
      assert t[0] == x[0] && IsSeparator(t[0]);
      assert t[1..] == x[1..] + w;
      CollapseInRun(x[1..], w);
    }
  }

  /** Outside a run, a separator emits one dash and opens a run. */
  lemma OpenRun(x: string, w: string)
    requires |x| > 0 && IsSeparator(x[0])
    ensures CollapseFrom(x + w, false) == ['-'] + CollapseFrom(x[1..] + w, true)
  {
    var t := x + w;
    assert t[0] == x[0];
    assert t[1..] == x[1..] + w;
  }

  /** Once the run is over, being in it no longer matters. */
  lemma LeaveRun(w: string)
    requires |w| == 0 || !IsSeparator(w[0])
    ensures CollapseFrom(w, true) == CollapseFrom(w, false)
  {
  }

  /** A run starting the string, outside a run, becomes one dash. */
  lemma RunBecomesDash(x: string, w: string)
    requires |x| > 0 && forall i :: 0 <= i < |x| ==> IsSeparator(x[i])
    requires |w| == 0 || !IsSeparator(w[0])
    ensures CollapseFrom(x + w, false) == ['-'] + CollapseFrom(w, false)
  {
    OpenRun(x, w);
    CollapseInRun(x[1..], w);
    LeaveRun(w);
  }

  /** A maximal run of `[-\s]` becomes exactly one `-`: the text before it is
      kept, the run is replaced by a single dash, and the collapse continues
      after it as if from the start. */
  lemma CollapseRun(u: string, x: string, w: string)
    requires forall i :: 0 <= i < |u| ==> !IsSeparator(u[i])
    requires |x| > 0 && forall i :: 0 <= i < |x| ==> IsSeparator(x[i])
    requires |w| == 0 || !IsSeparator(w[0])
    ensures CollapseFrom(u + (x + w), false) == u + (['-'] + CollapseFrom(w, false))
  {
    CollapsePlain(u, x + w);
    RunBecomesDash(x, w);
  }

  /** Filtering a run of dashes and underscores leaves nothing. */
  lemma {:induction false} AlnumOfStrippedRun(s: string)
    requires forall i :: 0 <= i < |s| ==> IsStripped(s[i])
    ensures Filter(IsAlnum, s) == []
    decreases |s|
  {
    if |s| > 0 {
      AlnumOfStrippedRun(s[1..]);
    }
  }

  /** A slice made only of dashes and underscores holds no letter or digit. */
  lemma AlnumOfStrippedSlice(s: string, lo: nat, hi: nat)
    requires lo <= hi <= |s|
    requires forall i :: lo <= i < hi ==> IsStripped(s[i])
    ensures Filter(IsAlnum, s[lo..hi]) == []
  {
    var t := s[lo..hi];
    assert forall i :: 0 <= i < |t| ==> IsStripped(t[i]);
    AlnumOfStrippedRun(t);
  }

  lemma SplitThree(s: string, k: nat, m: nat)
    requires k <= m <= |s|
    ensures s == s[0..k] + s[k..m] + s[m..|s|]
  {
  }

  /** Stripping the ends keeps every letter and digit, in order. */
  lemma AlnumOfStrip(s: string)
    ensures Filter(IsAlnum, Strip(s)) == Filter(IsAlnum, s)
  {
    var r := Strip(s);
    var k := LeadingRunEnd(s, 0);
    assert IsTrimmedPiece(s, r, k);
    var m := k + |r|;
    assert r == s[k..m];
    AlnumOfStrippedSlice(s, 0, k);
    AlnumOfStrippedSlice(s, m, |s|);
    SplitThree(s, k, m);
    FilterAppend(IsAlnum, s[0..k] + r, s[m..|s|]);
    FilterAppend(IsAlnum, s[0..k], r);
  }

  /** Content, not just shape: the letters and digits of the slug are exactly
      the ASCII letters and digits of the input, lower-cased, in their order. */
  lemma SlugKeepsAlphanumerics(s: string)
    ensures Filter(IsAlnum, Slugify(s)) == Lower(Filter(IsAlnum, Filter(IsAscii, s)))
  {
    var lowered := Lower(Filter(IsAscii, s));
    var kept := Filter(IsKept, lowered);
    AlnumOfStrip(CollapseFrom(kept, false));
    AlnumOfCollapse(kept, false);
    AlnumOfKept(lowered);
    AlnumOfLower(Filter(IsAscii, s));
  }

  /** The slug is empty exactly when the input has no ASCII letter or digit. */
  lemma SlugEmptyIff(s: string)
    ensures Slugify(s) == [] <==> Filter(IsAlnum, Filter(IsAscii, s)) == []
  {
    var t := Slugify(s);
    SlugKeepsAlphanumerics(s);
    if t != [] {
      assert IsAlnum(t[0]);
      assert t[0] in Filter(IsAlnum, t);
    }
  }
}
