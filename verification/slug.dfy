/** `slugify` of src/lib/blog.ts: lower-case, delete what is not a word
    character, white space or dash, turn each run of white space, `_` and
    `-` into one dash, and drop dashes at both ends. */
module Slug {
  import opened Text
  import opened Seqs

  /** The characters `[^\w\s-]` does not match, which the first `replace` keeps. */
  predicate IsKept(c: char) { IsWordChar(c) || IsSpace(c) || c == '-' }

  /** `[\s_-]`. */
  predicate IsSeparator(c: char) { IsSpace(c) || c == '_' || c == '-' }

  predicate IsSlugChar(c: char) { IsAsciiLower(c) || IsDigit(c) || c == '-' }

  /** No two dashes stand next to each other. */
  predicate NoDoubleDash(s: string) {
    |s| < 2 || (!(s[0] == '-' && s[1] == '-') && NoDoubleDash(s[1..]))
  }

  lemma {:induction false} NoDoubleDashSuffix(s: string, k: nat)
    requires k <= |s| && NoDoubleDash(s)
    ensures NoDoubleDash(s[k..])
  {
    if k > 0 {
      NoDoubleDashSuffix(s[1..], k - 1);
      assert s[1..][k - 1..] == s[k..];
    }
  }

  lemma {:induction false} NoDoubleDashPrefix(s: string, k: nat)
    requires k <= |s| && NoDoubleDash(s)
    ensures NoDoubleDash(s[..k])
  {
    if k >= 2 {
      NoDoubleDashPrefix(s[1..], k - 1);
      assert s[..k][1..] == s[1..][..k - 1];
    }
  }

  /** The shape of every string `slugify` returns. */
  predicate IsSlug(s: string) {
    (forall i :: 0 <= i < |s| ==> IsSlugChar(s[i]))
    && NoDoubleDash(s)
    && (s != [] ==> s[0] != '-' && s[|s| - 1] != '-')
  }

  /** `replace(/[^\w\s-]/g, '')`. */
  function StripDisallowed(s: string): (r: string)
    ensures forall c :: c in r ==> IsKept(c) && c in s
  {
    Filter(s, IsKept)
  }

  /** The first `replace` deletes exactly the characters outside
      `[\w\s-]`: the rest stay, in order and as often as they occur. */
  lemma StripDisallowedKeepsTheRest(s: string)
    ensures IsSubseq(StripDisallowed(s), s)
    ensures forall c :: multiset(StripDisallowed(s))[c] == if IsKept(c) then multiset(s)[c] else 0
  {
    FilterIsSubseq(s, IsKept);
    FilterCount(s, IsKept);
  }

  /** Drops the leading run of characters that satisfy `sep`. */
  function SkipRun(s: string, sep: char -> bool): (r: string)
    ensures |r| <= |s| && r == s[|s| - |r|..]
    ensures r == [] || !sep(r[0])
    ensures forall i :: 0 <= i < |s| - |r| ==> sep(s[i])
    ensures s != [] && sep(s[0]) ==> |r| < |s|
  {
    if s != [] && sep(s[0]) then SkipRun(s[1..], sep) else s
  }

  /** A global `replace` of `/[…]+/g` by `'-'`, where `sep` is the bracket
      class: every maximal run of `sep` characters becomes one dash. */
  function CollapseRuns(s: string, sep: char -> bool): (r: string)
    ensures |r| <= |s|
    ensures forall i :: 0 <= i < |r| ==> r[i] == '-' || (r[i] in s && !sep(r[i]))
    ensures sep('-') ==> NoDoubleDash(r)
    ensures s != [] ==> r != [] && r[0] == if sep(s[0]) then '-' else s[0]
    decreases |s|
  {
    if s == [] then []
    else if sep(s[0]) then "-" + CollapseRuns(SkipRun(s, sep), sep)
    else [s[0]] + CollapseRuns(s[1..], sep)
  }

  function TrimLeadingDashes(s: string): (r: string)
    ensures |r| <= |s| && r == s[|s| - |r|..]
    ensures r == [] || r[0] != '-'
    ensures forall i :: 0 <= i < |s| - |r| ==> s[i] == '-'
  {
    if s != [] && s[0] == '-' then
      var r := TrimLeadingDashes(s[1..]);
      assert s[1..][|s| - 1 - |r|..] == s[|s| - |r|..];
      assert forall i :: 1 <= i < |s| - |r| ==> s[i] == s[1..][i - 1];
      r
    else s
  }

  function TrimTrailingDashes(s: string): (r: string)
    ensures |r| <= |s| && r == s[..|r|]
    ensures r == [] || r[|r| - 1] != '-'
    ensures forall i :: |r| <= i < |s| ==> s[i] == '-'
  {
    if s != [] && s[|s| - 1] == '-' then TrimTrailingDashes(s[..|s| - 1]) else s
  }

  /** `replace(/^-+|-+$/g, '')`. */
  function TrimDashes(s: string): (r: string)
    ensures |r| <= |s|
    ensures r == [] || (r[0] != '-' && r[|r| - 1] != '-')
    ensures s == [] || (s[0] != '-' && s[|s| - 1] != '-') ==> r == s
    ensures exists i {:trigger s[i..]} ::
      0 <= i <= |s| - |r| && r == s[i..][..|r|]
      && (forall k :: 0 <= k < i ==> s[k] == '-')
      && (forall k :: i + |r| <= k < |s| ==> s[k] == '-')
  {
    var t := TrimLeadingDashes(s);
    var r := TrimTrailingDashes(t);
    var i := |s| - |t|;
    assert r == s[i..][..|r|];
    assert forall k :: i + |r| <= k < |s| ==> s[k] == t[k - i];
    r
  }

  /** `slugify`: the result consists of `a-z`, `0-9` and single dashes
      that neither open nor close it. */
  function Slugify(text: string): (r: string)
    ensures IsSlug(r)
  {
    var collapsed := CollapseRuns(StripDisallowed(Lower(text)), IsSeparator);
    CollapsedIsSlugShaped(text);
    TrimDashesShape(collapsed);
    TrimDashes(collapsed)
  }

  lemma CollapsedIsSlugShaped(text: string)
    ensures forall c :: c in CollapseRuns(StripDisallowed(Lower(text)), IsSeparator) ==> IsSlugChar(c)
  {
    var lowered := Lower(text);
    var kept := StripDisallowed(lowered);
    assert forall c :: c in lowered ==> !IsAsciiUpper(c);
    assert forall c :: c in kept ==> !IsAsciiUpper(c) && IsKept(c);
  }

  lemma TrimLeadingShape(s: string)
    requires forall c :: c in s ==> IsSlugChar(c)
    requires NoDoubleDash(s)
    ensures var r := TrimLeadingDashes(s);
      (forall c :: c in r ==> IsSlugChar(c)) && NoDoubleDash(r) && (r == [] || r[0] != '-')
  {
    var r := TrimLeadingDashes(s);
    NoDoubleDashSuffix(s, |s| - |r|);
  }

  lemma TrimTrailingShape(s: string)
    requires forall c :: c in s ==> IsSlugChar(c)
    requires NoDoubleDash(s)
    requires s == [] || s[0] != '-'
    ensures IsSlug(TrimTrailingDashes(s))
  {
    var r := TrimTrailingDashes(s);
    NoDoubleDashPrefix(s, |r|);
    assert forall i :: 0 <= i < |r| ==> r[i] == s[i];
  }

  lemma TrimDashesShape(s: string)
    requires forall c :: c in s ==> IsSlugChar(c)
    requires NoDoubleDash(s)
    ensures IsSlug(TrimDashes(s))
  {
    TrimLeadingShape(s);
    TrimTrailingShape(TrimLeadingDashes(s));
  }

  lemma {:induction false} SkipRunKeepsNothing(s: string, sep: char -> bool, keep: char -> bool)
    requires forall c :: sep(c) ==> !keep(c)
    ensures Filter(SkipRun(s, sep), keep) == Filter(s, keep)
  {
    var r := SkipRun(s, sep);
    var skipped := s[..|s| - |r|];
    assert s == skipped + r;
    FilterConcat(skipped, r, keep);
    FilterNone(skipped, keep);
  }

  lemma CollapseKeepsRun(s: string, sep: char -> bool, keep: char -> bool)
    requires sep('-') && s != [] && sep(s[0])
    requires forall c :: sep(c) ==> !keep(c)
    requires Filter(CollapseRuns(SkipRun(s, sep), sep), keep) == Filter(SkipRun(s, sep), keep)
    ensures Filter(CollapseRuns(s, sep), keep) == Filter(s, keep)
  {
    var r := SkipRun(s, sep);
    SkipRunKeepsNothing(s, sep, keep);
    assert CollapseRuns(s, sep) == "-" + CollapseRuns(r, sep);
    FilterConcat("-", CollapseRuns(r, sep), keep);
  }

  lemma CollapseKeepsOther(s: string, sep: char -> bool, keep: char -> bool)
    requires s != [] && !sep(s[0])
    requires Filter(CollapseRuns(s[1..], sep), keep) == Filter(s[1..], keep)
    ensures Filter(CollapseRuns(s, sep), keep) == Filter(s, keep)
  {
    var r := CollapseRuns(s, sep);
    assert r == [s[0]] + CollapseRuns(s[1..], sep);
    assert r[0] == s[0] && r[1..] == CollapseRuns(s[1..], sep);
  }

  /** A character outside the class survives the run-collapse. */
  lemma {:induction false} CollapseKeepsChar(s: string, sep: char -> bool, x: char)
    requires x in s && !sep(x)
    ensures x in CollapseRuns(s, sep)
    decreases |s|
  {
    if s[0] != x {
      if sep(s[0]) {
        var rest := SkipRun(s, sep);
        var j :| 0 <= j < |s| && s[j] == x;
        assert rest[j - (|s| - |rest|)] == x;
        CollapseKeepsChar(rest, sep, x);
        assert CollapseRuns(s, sep) == "-" + CollapseRuns(rest, sep);
      } else {
        assert x in s[1..];
        CollapseKeepsChar(s[1..], sep, x);
        assert CollapseRuns(s, sep) == [s[0]] + CollapseRuns(s[1..], sep);
      }
    }
  }

  /** Collapsing runs neither adds, drops nor reorders the characters that
      are not separators and not dashes. */
  lemma {:induction false} CollapseKeeps(s: string, sep: char -> bool, keep: char -> bool)
    requires sep('-')
    requires forall c :: sep(c) ==> !keep(c)
    ensures Filter(CollapseRuns(s, sep), keep) == Filter(s, keep)
    decreases |s|
  {
    if s != [] {
      if sep(s[0]) {
        CollapseKeeps(SkipRun(s, sep), sep, keep);
        CollapseKeepsRun(s, sep, keep);
      } else {
        CollapseKeeps(s[1..], sep, keep);
        CollapseKeepsOther(s, sep, keep);
      }
    }
  }

  lemma TrimLeadingKeeps(s: string)
    ensures Filter(TrimLeadingDashes(s), IsAlnum) == Filter(s, IsAlnum)
  {
    var front := TrimLeadingDashes(s);
    var lead := s[..|s| - |front|];
    assert s == lead + front;
    FilterConcat(lead, front, IsAlnum);
    FilterNone(lead, IsAlnum);
  }

  lemma TrimTrailingKeeps(s: string)
    ensures Filter(TrimTrailingDashes(s), IsAlnum) == Filter(s, IsAlnum)
  {
    var r := TrimTrailingDashes(s);
    var trail := s[|r|..];
    assert s == r + trail;
    FilterConcat(r, trail, IsAlnum);
    FilterNone(trail, IsAlnum);
  }

  lemma TrimDashesKeeps(s: string)
    ensures Filter(TrimDashes(s), IsAlnum) == Filter(s, IsAlnum)
  {
    TrimLeadingKeeps(s);
    TrimTrailingKeeps(TrimLeadingDashes(s));
  }

  /** The letters and digits of a slug are exactly those of the lower-cased
      text, in order: `slugify` only deletes and re-spaces. */
  lemma SlugifyKeepsAlnums(text: string)
    ensures Filter(Slugify(text), IsAlnum) == Filter(Lower(text), IsAlnum)
  {
    var lowered := Lower(text);
    var kept := StripDisallowed(lowered);
    FilterFilter(lowered, IsKept, IsAlnum, IsAlnum);
    CollapseKeeps(kept, IsSeparator, IsAlnum);
    TrimDashesKeeps(CollapseRuns(kept, IsSeparator));
  }

  /** Text without an ASCII letter or digit (a Chinese category name, say)
      has the empty slug. */
  lemma SlugWithoutAlnumIsEmpty(text: string)
    requires forall i :: 0 <= i < |text| ==> !IsAlnum(text[i])
    ensures Slugify(text) == ""
  {
    var r := Slugify(text);
    SlugifyKeepsAlnums(text);
    FilterNone(Lower(text), IsAlnum);
  }

  lemma TechCategorySlugIsEmpty()
    ensures Slugify("技术") == ""
  {
    var t := "技术";
    assert |t| == 2 && !IsAlnum(t[0]) && !IsAlnum(t[1]);
    SlugWithoutAlnumIsEmpty(t);
  }

  /** A run-collapse changes nothing in a string with no `sep` character
      other than isolated dashes. */
  lemma {:induction false} CollapseFixes(s: string, sep: char -> bool)
    requires sep('-')
    requires forall i :: 0 <= i < |s| ==> sep(s[i]) ==> s[i] == '-'
    requires NoDoubleDash(s)
    ensures CollapseRuns(s, sep) == s
    decreases |s|
  {
    if s != [] {
      if sep(s[0]) {
        assert SkipRun(s, sep) == s[1..] by {
          if |s| > 1 { assert s[1] != '-'; }
        }
      }
      CollapseFixes(s[1..], sep);
      CollapseFixesStep(s, sep);
    }
  }

  lemma CollapseFixesStep(s: string, sep: char -> bool)
    requires sep('-') && s != []
    requires sep(s[0]) ==> SkipRun(s, sep) == s[1..]
    requires CollapseRuns(s[1..], sep) == s[1..]
    requires sep(s[0]) ==> s[0] == '-'
    ensures CollapseRuns(s, sep) == s
  {
    assert s == [s[0]] + s[1..];
  }

  // ----- where the dashes go --------------------------------------------------

  /** A string with no `sep` character comes through the run-collapse
      unchanged. */
  lemma {:induction false} CollapseWithoutSeparator(s: string, sep: char -> bool)
    requires forall i :: 0 <= i < |s| ==> !sep(s[i])
    ensures CollapseRuns(s, sep) == s
    decreases |s|
  {
    if s != [] {
      CollapseWithoutSeparator(s[1..], sep);
      assert CollapseRuns(s, sep) == [s[0]] + s[1..];
    }
  }

  /** Skipping a whole run lands on what follows it. */
  lemma {:induction false} SkipWholeRun(r: string, b: string, sep: char -> bool)
    requires forall i :: 0 <= i < |r| ==> sep(r[i])
    requires b == [] || !sep(b[0])
    ensures SkipRun(r + b, sep) == b
    decreases |r|
  {
    if r != [] {
      assert (r + b)[1..] == r[1..] + b;
      SkipWholeRun(r[1..], b, sep);
    }
  }

  /** A leading run ends inside a string whose last character is not in the
      class, so what comes after that string is untouched. */
  lemma {:induction false} SkipRunAppend(x: string, y: string, sep: char -> bool)
    requires x != [] && !sep(x[|x| - 1])
    ensures SkipRun(x + y, sep) == SkipRun(x, sep) + y
    decreases |x|
  {
    if sep(x[0]) {
      assert (x + y)[1..] == x[1..] + y;
      SkipRunAppend(x[1..], y, sep);
    }
  }

  /** One maximal run of `sep` characters between `a` and `b` becomes one
      dash between their collapsed forms. */
  lemma {:induction false} CollapseRunBetween(a: string, r: string, b: string, sep: char -> bool)
    requires a == [] || !sep(a[|a| - 1])
    requires r != [] && forall i :: 0 <= i < |r| ==> sep(r[i])
    requires b == [] || !sep(b[0])
    ensures CollapseRuns(a + r + b, sep) == CollapseRuns(a, sep) + "-" + CollapseRuns(b, sep)
    decreases |a|
  {
    if a == [] {
      CollapseRunFirst(r, b, sep);
    } else if sep(a[0]) {
      var rest := SkipRun(a, sep);
      CollapseRunBetween(rest, r, b, sep);
      CollapseRunAfterRun(a, r, b, sep);
    } else {
      CollapseRunBetween(a[1..], r, b, sep);
      CollapseRunAfterChar(a, r, b, sep);
    }
  }

  lemma CollapseRunFirst(r: string, b: string, sep: char -> bool)
    requires r != [] && forall i :: 0 <= i < |r| ==> sep(r[i])
    requires b == [] || !sep(b[0])
    ensures CollapseRuns([] + r + b, sep) == CollapseRuns([], sep) + "-" + CollapseRuns(b, sep)
  {
    assert [] + r + b == r + b;
    SkipWholeRun(r, b, sep);
    assert (r + b)[0] == r[0];
  }

  lemma CollapseRunAfterRun(a: string, r: string, b: string, sep: char -> bool)
    requires a != [] && sep(a[0]) && !sep(a[|a| - 1])
    requires CollapseRuns(SkipRun(a, sep) + r + b, sep) == CollapseRuns(SkipRun(a, sep), sep) + "-" + CollapseRuns(b, sep)
    ensures CollapseRuns(a + r + b, sep) == CollapseRuns(a, sep) + "-" + CollapseRuns(b, sep)
  {
    var rest := SkipRun(a, sep);
    ConcatAssoc(a, r, b);
    ConcatAssoc(rest, r, b);
    SkipRunAppend(a, r + b, sep);
    var x := CollapseRuns(rest, sep);
    var y := CollapseRuns(b, sep);
    ConcatAssoc("-", x + "-", y);
    ConcatAssoc("-", x, "-");
  }

  lemma ConcatAssoc(x: string, y: string, z: string)
    ensures x + y + z == x + (y + z)
  {
  }

  lemma CollapseRunAfterChar(a: string, r: string, b: string, sep: char -> bool)
    requires a != [] && !sep(a[0])
    requires CollapseRuns(a[1..] + r + b, sep) == CollapseRuns(a[1..], sep) + "-" + CollapseRuns(b, sep)
    ensures CollapseRuns(a + r + b, sep) == CollapseRuns(a, sep) + "-" + CollapseRuns(b, sep)
  {
    ConcatAssoc(a, r, b);
    ConcatAssoc(a[1..], r, b);
    ConcatTail(a, r + b);
    var x := CollapseRuns(a[1..], sep);
    var y := CollapseRuns(b, sep);
    ConcatAssoc([a[0]], x + "-", y);
    ConcatAssoc([a[0]], x, "-");
  }

  lemma ConcatTail(x: string, y: string)
    requires x != []
    ensures (x + y)[0] == x[0] && (x + y)[1..] == x[1..] + y
  {
  }

  /** Two slugs joined by a run of white space, `_` or `-` have the slug
      that joins them with one dash: `slugify("hello world") == "hello-world"`. */
  lemma SlugifyJoinsWithDash(a: string, r: string, b: string)
    requires IsSlug(a) && IsSlug(b) && a != [] && b != []
    requires r != [] && forall i :: 0 <= i < |r| ==> IsSeparator(r[i])
    ensures Slugify(a + r + b) == a + "-" + b
  {
    var s := a + r + b;
    JoinedIsKept(a, r, b);
    CollapseJoinsSlugs(a, r, b);
    JoinedEnds(a, b);
  }

  lemma JoinedEnds(a: string, b: string)
    requires IsSlug(a) && IsSlug(b) && a != [] && b != []
    ensures var j := a + "-" + b; j[0] != '-' && j[|j| - 1] != '-'
  {
  }

  lemma JoinedIsKept(a: string, r: string, b: string)
    requires IsSlug(a) && IsSlug(b)
    requires forall i :: 0 <= i < |r| ==> IsSeparator(r[i])
    ensures StripDisallowed(Lower(a + r + b)) == a + r + b
  {
    var s := a + r + b;
    assert forall i :: 0 <= i < |s| ==> (IsSlugChar(s[i]) || IsSeparator(s[i]));
    assert Lower(s) == s;
    FilterAll(s, IsKept);
  }

  lemma CollapseJoinsSlugs(a: string, r: string, b: string)
    requires IsSlug(a) && IsSlug(b) && a != [] && b != []
    requires r != [] && forall i :: 0 <= i < |r| ==> IsSeparator(r[i])
    ensures CollapseRuns(a + r + b, IsSeparator) == a + "-" + b
  {
    CollapseFixes(a, IsSeparator);
    CollapseFixes(b, IsSeparator);
    CollapseRunBetween(a, r, b, IsSeparator);
  }

  /** `slugify` sees its text only through `toLowerCase`. */
  lemma SlugifyOfLower(text: string)
    ensures Slugify(text) == Slugify(Lower(text))
  {
    LowerIdempotent(text);
  }

  lemma HelloWorldSlug()
    ensures Slugify("Hello World") == "hello-world"
  {
    LowerHelloWorld();
    SlugifyOfLower("Hello World");
    SlugHelloWorld();
    HelloDashWorld();
  }

  lemma LowerHelloWorld()
    ensures Lower("Hello World") == "hello" + " " + "world"
  {
  }

  lemma HelloDashWorld()
    ensures "hello" + "-" + "world" == "hello-world"
  {
  }

  lemma SlugHelloWorld()
    ensures Slugify("hello" + " " + "world") == "hello" + "-" + "world"
  {
    WordIsSlug("hello");
    WordIsSlug("world");
    SlugifyJoinsWithDash("hello", " ", "world");
  }

  /** Lower-case letters and digits alone make a slug. */
  lemma {:induction false} WordIsSlug(s: string)
    requires forall i :: 0 <= i < |s| ==> IsAsciiLower(s[i]) || IsDigit(s[i])
    ensures IsSlug(s)
    decreases |s|
  {
    if s != [] {
      WordIsSlug(s[1..]);
    }
  }

  /** A slug is its own slug. */
  lemma SlugFixed(s: string)
    requires IsSlug(s)
    ensures Slugify(s) == s
  {
    assert Lower(s) == s;
    FilterAll(s, IsKept);
    CollapseFixes(s, IsSeparator);
    assert TrimLeadingDashes(s) == s;
    assert TrimTrailingDashes(s) == s;
  }

  /** `slugify(slugify(s)) == slugify(s)`. */
  lemma SlugifyIdempotent(text: string)
    ensures Slugify(Slugify(text)) == Slugify(text)
  {
    SlugFixed(Slugify(text));
  }
}
