/**
 * `generateSlug`, `validateSlug` and `normalizeSlug` of `src/utils/slugHelpers.ts`: chains
 * of `toLowerCase`, `trim` and global regular-expression replacements, and one anchored
 * regular-expression test.
 */
module Slugs {
  import opened Common
  import opened Text

  predicate IsHyphen(c: char) {
    c == '-'
  }

  /** Characters a rewritten slug may contain: `[a-z0-9_-]`. */
  predicate SlugChar(c: char) {
    IsLowerAlnum(c) || c == '_' || c == '-'
  }

  lemma SlugCharNotSpace(c: char)
    requires SlugChar(c)
    ensures !IsSpace(c)
  {
  }

  predicate NoDoubleHyphen(s: string) {
    forall i :: 0 <= i < |s| - 1 ==> !(s[i] == '-' && s[i + 1] == '-')
  }

  /** The shape both rewrites produce: slug characters only, no `--`, no hyphen at either end. */
  predicate Clean(s: string) {
    && (forall i :: 0 <= i < |s| ==> SlugChar(s[i]))
    && NoDoubleHyphen(s)
    && (|s| > 0 ==> s[0] != '-' && s[|s| - 1] != '-')
  }

  /** What is left of `s` after its leading run of `inRun` characters. */
  function DropRun(s: string, inRun: char -> bool): (r: string)
    ensures |r| <= |s| && r == s[|s| - |r|..]
    ensures |r| > 0 ==> !inRun(r[0])
    decreases |s|
  {
    if |s| > 0 && inRun(s[0]) then DropRun(s[1..], inRun) else s
  }

  /** `replace(/X+/g, rep)` for a character class X: each maximal run of `inRun` characters becomes one `rep`. */
  function CollapseRuns(s: string, inRun: char -> bool, rep: char): (r: string)
    ensures |r| <= |s|
    ensures |s| > 0 ==> |r| > 0 && r[0] == (if inRun(s[0]) then rep else s[0])
    ensures forall i :: 0 <= i < |r| ==> r[i] == rep || (!inRun(r[i]) && r[i] in s)
    ensures inRun(rep) ==> forall i :: 0 <= i < |r| - 1 ==> !(r[i] == rep && r[i + 1] == rep)
    decreases |s|
  {
    if |s| == 0 then []
    else if inRun(s[0]) then
      var t := DropRun(s[1..], inRun);
      var r := [rep] + CollapseRuns(t, inRun, rep);
      assert forall c :: c in t ==> c in s;
      r
    else
      [s[0]] + CollapseRuns(s[1..], inRun, rep)
  }

  /** A character that a run replacement neither removes nor introduces. */
  predicate Untouched(inRun: char -> bool, rep: char, c: char) {
    !inRun(c) && c != rep
  }

  /**
   * Apart from the run characters and the replacement character, the text is kept: the other
   * characters come out in the same order and number.
   */
  lemma {:induction false} CollapseKeepsRest(s: string, inRun: char -> bool, rep: char)
    ensures Filter(CollapseRuns(s, inRun, rep), c => Untouched(inRun, rep, c)) == Filter(s, c => Untouched(inRun, rep, c))
    decreases |s|
  {
    if |s| > 0 {
      var r := CollapseRuns(s, inRun, rep);
      if inRun(s[0]) {
        var t := DropRun(s[1..], inRun);
        CollapseKeepsRest(t, inRun, rep);
        DropRunKeepsRest(s[1..], inRun, rep);
        assert r[1..] == CollapseRuns(t, inRun, rep);
      } else {
        CollapseKeepsRest(s[1..], inRun, rep);
        assert r[1..] == CollapseRuns(s[1..], inRun, rep);
      }
    }
  }

  /** The leading run that DropRun removes holds no untouched character. */
  lemma {:induction false} DropRunKeepsRest(s: string, inRun: char -> bool, rep: char)
    ensures Filter(DropRun(s, inRun), c => Untouched(inRun, rep, c)) == Filter(s, c => Untouched(inRun, rep, c))
    decreases |s|
  {
    if |s| > 0 && inRun(s[0]) {
      DropRunKeepsRest(s[1..], inRun, rep);
    }
  }

  /** A maximal run: `DropRun` removes the whole run and stops at the first character after it. */
  lemma {:induction false} DropRunPast(u: string, v: string, inRun: char -> bool)
    requires forall i :: 0 <= i < |u| ==> inRun(u[i])
    requires |v| > 0 ==> !inRun(v[0])
    ensures DropRun(u + v, inRun) == v
    decreases |u|
  {
    if |u| > 0 {
      assert (u + v)[1..] == u[1..] + v;
      DropRunPast(u[1..], v, inRun);
    } else {
      assert u + v == v;
    }
  }

  /** `X+` is greedy: a whole run of run characters, however long, becomes exactly one `rep`. */
  lemma {:induction false} CollapseRunToOne(u: string, v: string, inRun: char -> bool, rep: char)
    requires |u| > 0 && forall i :: 0 <= i < |u| ==> inRun(u[i])
    requires |v| > 0 ==> !inRun(v[0])
    ensures CollapseRuns(u + v, inRun, rep) == [rep] + CollapseRuns(v, inRun, rep)
  {
    var w := u + v;
    assert w[0] == u[0];
    assert w[1..] == u[1..] + v;
    DropRunPast(u[1..], v, inRun);
  }

  /** Characters outside the run class are copied one for one. */
  lemma {:induction false} CollapseCopiesPrefix(u: string, w: string, inRun: char -> bool, rep: char)
    requires forall i :: 0 <= i < |u| ==> !inRun(u[i])
    ensures CollapseRuns(u + w, inRun, rep) == u + CollapseRuns(w, inRun, rep)
    decreases |u|
  {
    if |u| > 0 {
      assert (u + w)[0] == u[0];
      assert (u + w)[1..] == u[1..] + w;
      CollapseCopiesPrefix(u[1..], w, inRun, rep);
      assert u == [u[0]] + u[1..];
    } else {
      assert u + w == w;
    }
  }

  /** What a character class keeps that the replacement cannot touch, it keeps alike before and after. */
  lemma CollapseKeepsClass(s: string, inRun: char -> bool, rep: char, q: char -> bool)
    requires forall c :: q(c) ==> Untouched(inRun, rep, c)
    ensures Filter(CollapseRuns(s, inRun, rep), q) == Filter(s, q)
  {
    var u := c => Untouched(inRun, rep, c);
    CollapseKeepsRest(s, inRun, rep);
    FilterNarrow(CollapseRuns(s, inRun, rep), u, q);
    FilterNarrow(s, u, q);
  }

  /** `replace(/^-|-$/g, '')`: at most one hyphen off the front, then at most one off the back. */
  function StripEdgeHyphens(s: string): (r: string)
    ensures forall c :: c in r ==> c in s
    ensures NoDoubleHyphen(s) ==> NoDoubleHyphen(r) && (|r| > 0 ==> r[0] != '-' && r[|r| - 1] != '-')
  {
    var t := if |s| > 0 && s[0] == '-' then s[1..] else s;
    if |t| > 0 && t[|t| - 1] == '-' then t[..|t| - 1] else t
  }

  /** Stripping edge hyphens removes nothing but hyphens. */
  lemma StripKeepsNonHyphen(s: string, q: char -> bool)
    requires forall c :: q(c) ==> c != '-'
    ensures Filter(StripEdgeHyphens(s), q) == Filter(s, q)
  {
    var t := if |s| > 0 && s[0] == '-' then s[1..] else s;
    assert Filter(t, q) == Filter(s, q);
    if |t| > 0 && t[|t| - 1] == '-' {
      var t' := t[..|t| - 1];
      assert t == t' + [t[|t| - 1]];
      FilterAppend(t', [t[|t| - 1]], q);
    }
  }

  /** Trimming removes nothing but whitespace. */
  lemma TrimKeepsNonSpace(s: string, q: char -> bool)
    requires forall c :: q(c) ==> !IsSpace(c)
    ensures Filter(Trim(s), q) == Filter(s, q)
  {
    TrimStartKeepsNonSpace(s, q);
    TrimEndKeepsNonSpace(TrimStart(s), q);
  }

  lemma TrimStartKeepsNonSpace(s: string, q: char -> bool)
    requires forall c :: q(c) ==> !IsSpace(c)
    ensures Filter(TrimStart(s), q) == Filter(s, q)
  {
    var t := TrimStart(s);
    var lead := s[..|s| - |t|];
    assert s == lead + t;
    FilterAppend(lead, t, q);
    FilterDropsAll(lead, q);
  }

  lemma TrimEndKeepsNonSpace(t: string, q: char -> bool)
    requires forall c :: q(c) ==> !IsSpace(c)
    ensures Filter(TrimEnd(t), q) == Filter(t, q)
  {
    var r := TrimEnd(t);
    var trail := t[|r|..];
    assert t == r + trail;
    FilterAppend(r, trail, q);
    FilterDropsAll(trail, q);
  }

  predicate KeepForGenerate(c: char) {
    IsWordChar(c) || IsSpace(c) || c == '-'
  }

  predicate KeepForNormalize(c: char) {
    IsWordChar(c) || c == '-'
  }

  lemma LowerHasNoUpper(s: string)
    ensures forall c :: c in Lower(s) ==> !('A' <= c <= 'Z')
  {
  }

  /** The first stages of both rewrites: lower-case, trim, keep the characters `keep` accepts. */
  function Kept(text: string, keep: char -> bool): (r: string)
    requires forall c :: keep(c) ==> KeepForGenerate(c)
    ensures r == Filter(Trim(Lower(text)), keep)
    ensures forall i :: 0 <= i < |r| ==> keep(r[i]) && (SlugChar(r[i]) || IsSpace(r[i]))
  {
    var lowered := Trim(Lower(text));
    var kept := Filter(lowered, keep);
    KeptChars(text, lowered, kept, keep);
    kept
  }

  /**
   * The last stages of both rewrites: collapse `-` runs, strip edge hyphens. The result is
   * clean, and a clean input comes out unchanged.
   */
  function Finish(s: string): (r: string)
    requires forall i :: 0 <= i < |s| ==> SlugChar(s[i])
    ensures Clean(r)
    ensures Clean(s) ==> r == s
    ensures Filter(r, IsWordChar) == Filter(s, IsWordChar)
  {
    var collapsed := CollapseRuns(s, IsHyphen, '-');
    CollapsedChars(s, collapsed);
    StripLeavesClean(collapsed);
    CollapseKeepsClass(s, IsHyphen, '-', IsWordChar);
    StripKeepsNonHyphen(collapsed, IsWordChar);
    if Clean(s) then
      CleanSurvivesFinish(s);
      StripEdgeHyphens(collapsed)
    else
      StripEdgeHyphens(collapsed)
  }

  lemma StripLeavesClean(s: string)
    requires forall i :: 0 <= i < |s| ==> SlugChar(s[i])
    requires NoDoubleHyphen(s)
    ensures Clean(StripEdgeHyphens(s))
  {
    var r := StripEdgeHyphens(s);
    forall i | 0 <= i < |r|
      ensures SlugChar(r[i])
    {
      assert r[i] in s;
    }
  }

  lemma CleanSurvivesFinish(s: string)
    requires Clean(s)
    ensures CollapseRuns(s, IsHyphen, '-') == s
    ensures StripEdgeHyphens(s) == s
  {
    CollapseHyphensWithoutDouble(s);
  }

  /** `generateSlug`: lower-case, trim, drop special characters, whitespace runs to `-`, collapse `-` runs, strip edge hyphens. */
  function GenerateSlug(name: string): (r: string)
    ensures Clean(r)
    ensures Filter(r, IsWordChar) == Filter(Lower(name), IsWordChar)
  {
    var kept := Kept(name, KeepForGenerate);
    var spaced := CollapseRuns(kept, IsSpace, '-');
    SpacedChars(kept, spaced);
    KeptWords(name, KeepForGenerate);
    CollapseKeepsClass(kept, IsSpace, '-', IsWordChar);
    Finish(spaced)
  }

  /** `normalizeSlug`: lower-case, trim, keep only `\w` and `-`, collapse `-` runs, strip edge hyphens. */
  function NormalizeSlug(slug: string): (r: string)
    ensures Clean(r)
    ensures Filter(r, IsWordChar) == Filter(Lower(slug), IsWordChar)
  {
    var kept := Kept(slug, KeepForNormalize);
    assert forall i :: 0 <= i < |kept| ==> SlugChar(kept[i]) by {
      forall i | 0 <= i < |kept|
        ensures SlugChar(kept[i])
      {
        assert KeepForNormalize(kept[i]);
      }
    }
    KeptWords(slug, KeepForNormalize);
    Finish(kept)
  }

  /** Both character filters keep every word character, and trimming removes none. */
  lemma KeptWords(text: string, keep: char -> bool)
    requires forall c :: keep(c) ==> KeepForGenerate(c)
    requires forall c :: IsWordChar(c) ==> keep(c)
    ensures Filter(Kept(text, keep), IsWordChar) == Filter(Lower(text), IsWordChar)
  {
    FilterNarrow(Trim(Lower(text)), keep, IsWordChar);
    TrimKeepsNonSpace(Lower(text), IsWordChar);
  }

  lemma KeptChars(name: string, lowered: string, kept: string, keep: char -> bool)
    requires lowered == Trim(Lower(name))
    requires forall c :: keep(c) ==> KeepForGenerate(c)
    requires forall i :: 0 <= i < |kept| ==> keep(kept[i]) && kept[i] in lowered
    ensures forall i :: 0 <= i < |kept| ==> SlugChar(kept[i]) || IsSpace(kept[i])
  {
    LowerHasNoUpper(name);
  }

  lemma SpacedChars(kept: string, spaced: string)
    requires forall i :: 0 <= i < |kept| ==> SlugChar(kept[i]) || IsSpace(kept[i])
    requires forall i :: 0 <= i < |spaced| ==> spaced[i] == '-' || (!IsSpace(spaced[i]) && spaced[i] in kept)
    ensures forall i :: 0 <= i < |spaced| ==> SlugChar(spaced[i])
  {
  }

  lemma CollapsedChars(spaced: string, collapsed: string)
    requires forall i :: 0 <= i < |spaced| ==> SlugChar(spaced[i])
    requires forall i :: 0 <= i < |collapsed| ==> collapsed[i] == '-' || collapsed[i] in spaced
    ensures forall i :: 0 <= i < |collapsed| ==> SlugChar(collapsed[i])
  {
  }

  /**
   * `/^[a-z0-9]+(?:-[a-z0-9]+)*$/` read left to right once the first alphanumeric has been
   * consumed: either another alphanumeric, or a hyphen followed by an alphanumeric.
   */
  predicate AfterAlnum(t: string)
    decreases |t|
  {
    || |t| == 0
    || (IsLowerAlnum(t[0]) && AfterAlnum(t[1..]))
    || (|t| >= 2 && t[0] == '-' && IsLowerAlnum(t[1]) && AfterAlnum(t[2..]))
  }

  predicate MatchesSlugPattern(s: string) {
    |s| > 0 && IsLowerAlnum(s[0]) && AfterAlnum(s[1..])
  }

  /** `validateSlug`. */
  function ValidateSlug(slug: string): bool {
    MatchesSlugPattern(slug) && |slug| > 0 && |slug| <= 100
  }

  /** Runs of `[a-z0-9]` joined by single hyphens, with nothing else. */
  predicate SlugShape(s: string) {
    && |s| > 0
    && (forall i :: 0 <= i < |s| ==> IsLowerAlnum(s[i]) || s[i] == '-')
    && s[0] != '-' && s[|s| - 1] != '-'
    && NoDoubleHyphen(s)
  }

  predicate TailShape(t: string) {
    && (forall i :: 0 <= i < |t| ==> IsLowerAlnum(t[i]) || t[i] == '-')
    && (|t| > 0 ==> t[|t| - 1] != '-')
    && NoDoubleHyphen(t)
  }

  lemma {:induction false} AfterAlnumIff(t: string)
    ensures AfterAlnum(t) <==> TailShape(t)
    decreases |t|
  {
    if |t| == 0 {
    } else if IsLowerAlnum(t[0]) {
      AfterAlnumIff(t[1..]);
      if TailShape(t) {
        assert TailShape(t[1..]);
      }
      if TailShape(t[1..]) {
        assert TailShape(t);
      }
    } else if t[0] == '-' && |t| >= 2 {
      AfterAlnumIff(t[2..]);
      if AfterAlnum(t) {
        assert IsLowerAlnum(t[1]) && TailShape(t[2..]);
        assert TailShape(t);
      }
      if TailShape(t) {
        assert t[1] != '-';
        assert TailShape(t[2..]);
      }
    } else {
      assert !AfterAlnum(t);
    }
  }

  /** `validateSlug` accepts exactly the hyphen-joined alphanumeric runs of at most 100 characters. */
  lemma ValidateSlugIff(s: string)
    ensures ValidateSlug(s) <==> SlugShape(s) && |s| <= 100
  {
    if |s| > 0 {
      AfterAlnumIff(s[1..]);
      if SlugShape(s) {
        assert TailShape(s[1..]);
      }
      if MatchesSlugPattern(s) {
        assert SlugShape(s);
      }
    }
  }

  /** The empty string, edge hyphens, `--`, upper case, `_` and whitespace are all rejected. */
  lemma ValidateSlugRejects(s: string)
    ensures |s| == 0 ==> !ValidateSlug(s)
    ensures |s| > 0 && (s[0] == '-' || s[|s| - 1] == '-') ==> !ValidateSlug(s)
    ensures (exists i :: 0 <= i < |s| - 1 && s[i] == '-' && s[i + 1] == '-') ==> !ValidateSlug(s)
    ensures (exists i :: 0 <= i < |s| && ('A' <= s[i] <= 'Z' || s[i] == '_' || IsSpace(s[i]))) ==> !ValidateSlug(s)
  {
    ValidateSlugIff(s);
  }

  lemma {:induction false} CollapseWithoutRun(s: string, inRun: char -> bool, rep: char)
    requires forall i :: 0 <= i < |s| ==> !inRun(s[i])
    ensures CollapseRuns(s, inRun, rep) == s
    decreases |s|
  {
    if |s| > 0 {
      CollapseWithoutRun(s[1..], inRun, rep);
    }
  }

  lemma {:induction false} CollapseHyphensWithoutDouble(s: string)
    requires NoDoubleHyphen(s)
    ensures CollapseRuns(s, IsHyphen, '-') == s
    decreases |s|
  {
    if |s| > 0 {
      CollapseHyphensWithoutDouble(s[1..]);
      if s[0] == '-' {
        assert DropRun(s[1..], IsHyphen) == s[1..];
      }
    }
  }

  /** A clean string survives lower-casing, trimming and either character filter. */
  lemma CleanIsKept(s: string, keep: char -> bool)
    requires Clean(s)
    requires forall c :: keep(c) ==> KeepForGenerate(c)
    requires forall c :: SlugChar(c) ==> keep(c)
    ensures Kept(s, keep) == s
  {
    assert Lower(s) == s;
    TrimNoSpace(s);
    FilterKeepsAll(s, keep);
  }

  /** A clean string passes through both rewrites unchanged. */
  lemma CleanIsFixedPoint(s: string)
    requires Clean(s)
    ensures GenerateSlug(s) == s
    ensures NormalizeSlug(s) == s
  {
    GenerateFixesClean(s);
    NormalizeFixesClean(s);
  }

  lemma GenerateFixesClean(s: string)
    requires Clean(s)
    ensures GenerateSlug(s) == s
  {
    var kept := Kept(s, KeepForGenerate);
    assert kept == s by {
      CleanIsKept(s, KeepForGenerate);
    }
    assert CollapseRuns(kept, IsSpace, '-') == s by {
      CleanHasNoSpace(s);
      CollapseWithoutRun(s, IsSpace, '-');
    }
  }

  lemma CleanHasNoSpace(s: string)
    requires Clean(s)
    ensures forall i :: 0 <= i < |s| ==> !IsSpace(s[i])
  {
    forall i | 0 <= i < |s|
      ensures !IsSpace(s[i])
    {
      SlugCharNotSpace(s[i]);
    }
  }

  lemma NormalizeFixesClean(s: string)
    requires Clean(s)
    ensures NormalizeSlug(s) == s
  {
    CleanIsKept(s, KeepForNormalize);
  }

  /** `normalizeSlug(normalizeSlug(s)) == normalizeSlug(s)`. */
  lemma NormalizeIdempotent(s: string)
    ensures NormalizeSlug(NormalizeSlug(s)) == NormalizeSlug(s)
  {
    CleanIsFixedPoint(NormalizeSlug(s));
  }

  /** Generated slugs are already normal, and generating again changes nothing. */
  lemma GenerateIsNormal(name: string)
    ensures NormalizeSlug(GenerateSlug(name)) == GenerateSlug(name)
    ensures GenerateSlug(GenerateSlug(name)) == GenerateSlug(name)
  {
    CleanIsFixedPoint(GenerateSlug(name));
  }

  /** Two clean words joined by a hyphen are clean. */
  lemma CleanJoin(u: string, v: string)
    requires Clean(u) && Clean(v) && |u| > 0 && |v| > 0
    ensures Clean(u + "-" + v)
  {
    var w := u + "-" + v;
    forall i | 0 <= i < |w| - 1
      ensures !(w[i] == '-' && w[i + 1] == '-')
    {
      if i < |u| - 1 {
        assert w[i] == u[i] && w[i + 1] == u[i + 1];
      } else if i == |u| - 1 {
        assert w[i] == u[|u| - 1];
      } else if i == |u| {
        assert w[i + 1] == v[0];
      } else {
        assert w[i] == v[i - |u| - 1] && w[i + 1] == v[i - |u|];
      }
    }
  }

  /**
   * Whitespace between two clean words becomes exactly one hyphen: `generateSlug` of the
   * words with any non-empty blank gap between them joins them with `-`.
   */
  lemma GenerateJoinsWords(u: string, sp: string, v: string)
    requires Clean(u) && Clean(v) && |u| > 0 && |v| > 0
    requires |sp| > 0 && AllSpace(sp)
    ensures GenerateSlug(u + sp + v) == u + "-" + v
  {
    JoinedIsKept(u, sp, v);
    JoinedSpacing(u, sp, v);
    CleanJoin(u, v);
  }

  /** Lower-casing, trimming and the character filter leave clean words and blanks alone. */
  lemma JoinedIsKept(u: string, sp: string, v: string)
    requires Clean(u) && Clean(v) && |u| > 0 && |v| > 0
    requires AllSpace(sp)
    ensures Kept(u + sp + v, KeepForGenerate) == u + sp + v
  {
    var w := u + sp + v;
    assert forall i :: 0 <= i < |w| ==> SlugChar(w[i]) || IsSpace(w[i]) by {
      forall i | 0 <= i < |w|
        ensures SlugChar(w[i]) || IsSpace(w[i])
      {
        if i >= |u| + |sp| {
          assert w[i] == v[i - |u| - |sp|];
        } else if i >= |u| {
          assert w[i] == sp[i - |u|];
        }
      }
    }
    assert Lower(w) == w;
    assert Trim(w) == w by {
      SlugCharNotSpace(u[0]);
      SlugCharNotSpace(v[|v| - 1]);
      assert w[0] == u[0] && w[|w| - 1] == v[|v| - 1];
      assert TrimStart(w) == w;
      assert TrimEnd(w) == w;
    }
    FilterKeepsAll(w, KeepForGenerate);
  }

  /** The whitespace replacement turns the blank gap between two clean words into one hyphen. */
  lemma JoinedSpacing(u: string, sp: string, v: string)
    requires Clean(u) && Clean(v) && |v| > 0
    requires |sp| > 0 && AllSpace(sp)
    ensures CollapseRuns(u + sp + v, IsSpace, '-') == u + "-" + v
  {
    var tail := CollapseRuns(sp + v, IsSpace, '-');
    assert tail == "-" + v by {
      CleanHasNoSpace(v);
      CollapseRunToOne(sp, v, IsSpace, '-');
      CollapseWithoutRun(v, IsSpace, '-');
    }
    assert CollapseRuns(u + (sp + v), IsSpace, '-') == u + tail by {
      CleanHasNoSpace(u);
      CollapseCopiesPrefix(u, sp + v, IsSpace, '-');
    }
    AppendAssoc(u, sp, v);
    AppendAssoc(u, "-", v);
  }

  /** Every valid slug is a fixed point of both rewrites. */
  lemma ValidSlugIsFixedPoint(s: string)
    requires ValidateSlug(s)
    ensures GenerateSlug(s) == s && NormalizeSlug(s) == s
  {
    ValidateSlugIff(s);
    CleanIsFixedPoint(s);
  }
}
