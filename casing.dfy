/** The case and slug transforms of ens-collections' `utils.js`: `decamelize`,
    `namify` and `slugify`, with character classes and case mapping
    restricted to ASCII.

    Each `str.replace(/re/g, '$1 $2')` of the source is a left-to-right scan
    over the string it is applied to: at position `p` the scan either finds a
    match of the regular expression starting at `p` (it then writes the
    replacement and resumes right after the match) or copies `s[p]` and moves
    on to `p + 1`. Where a pattern has greedy quantifiers, the comment on the
    scan says which matches backtracking can produce. */
module Casing {
  import opened JsStrings

  /** Length of the run of characters of class `cls` that starts at `p`. */
  function Run(s: string, p: nat, cls: char -> bool): (n: nat)
    requires p <= |s|
    ensures p + n <= |s|
    decreases |s| - p
  {
    if p < |s| && cls(s[p]) then 1 + Run(s, p + 1, cls) else 0
  }

  /** The run is made of characters of class `cls` and is maximal. */
  lemma {:induction false} RunIsMaximal(s: string, p: nat, cls: char -> bool)
    requires p <= |s|
    ensures p < |s| && cls(s[p]) ==> Run(s, p, cls) > 0
    ensures forall i :: p <= i < p + Run(s, p, cls) ==> cls(s[i])
    ensures p + Run(s, p, cls) == |s| || !cls(s[p + Run(s, p, cls)])
    decreases |s| - p
  {
    if p < |s| && cls(s[p]) {
      RunIsMaximal(s, p + 1, cls);
    }
  }

  // ---------------------------------------------------------------------------
  // Space insertion

  /** `wide` is `narrow` with zero or more `' '` characters inserted:
      deleting the inserted spaces from `wide` gives back `narrow`. */
  predicate SpacesInserted(narrow: string, wide: string)
    decreases |wide|
  {
    if wide == [] then narrow == []
    else
      (narrow != [] && narrow[0] == wide[0] && SpacesInserted(narrow[1..], wide[1..]))
      || (wide[0] == ' ' && SpacesInserted(narrow, wide[1..]))
  }

  lemma {:induction false} SpacesInsertedRefl(s: string)
    ensures SpacesInserted(s, s)
  {
    if s != [] {
      SpacesInsertedRefl(s[1..]);
    }
  }

  /** Space insertions in two halves make a space insertion in the whole. */
  lemma {:induction false} SpacesInsertedConcat(a: string, b: string, x: string, y: string)
    requires SpacesInserted(a, x) && SpacesInserted(b, y)
    ensures SpacesInserted(a + b, x + y)
    decreases |x|
  {
    if x == [] {
      assert a + b == b && x + y == y;
    } else {
      assert (x + y)[0] == x[0] && (x + y)[1..] == x[1..] + y;
      if a != [] && a[0] == x[0] && SpacesInserted(a[1..], x[1..]) {
        SpacesInsertedConcat(a[1..], b, x[1..], y);
        assert (a + b)[0] == a[0] && (a + b)[1..] == a[1..] + b;
      } else {
        SpacesInsertedConcat(a, b, x[1..], y);
      }
    }
  }

  /** Inserting spaces twice is inserting spaces. */
  lemma {:induction false} SpacesInsertedTrans(a: string, b: string, c: string)
    requires SpacesInserted(a, b) && SpacesInserted(b, c)
    ensures SpacesInserted(a, c)
    decreases |c|
  {
    if c != [] {
      if b != [] && b[0] == c[0] && SpacesInserted(b[1..], c[1..]) {
        if a != [] && a[0] == b[0] && SpacesInserted(a[1..], b[1..]) {
          SpacesInsertedTrans(a[1..], b[1..], c[1..]);
        } else {
          SpacesInsertedTrans(a, b[1..], c[1..]);
        }
      } else {
        SpacesInsertedTrans(a, b, c[1..]);
      }
    }
  }

  /** Deleting every space from both sides gives the same string. */
  lemma {:induction false} SpacesInsertedWithout(a: string, b: string)
    requires SpacesInserted(a, b)
    ensures Without(a, IsBlank) == Without(b, IsBlank)
    decreases |b|
  {
    if b != [] {
      if a != [] && a[0] == b[0] && SpacesInserted(a[1..], b[1..]) {
        SpacesInsertedWithout(a[1..], b[1..]);
      } else {
        SpacesInsertedWithout(a, b[1..]);
      }
    }
  }

  /** The character `' '`. */
  predicate IsBlank(c: char) { c == ' ' }

  /** No ASCII upper-case letter from `p` on. */
  predicate NoUpperFrom(s: string, p: nat) {
    forall i :: p <= i < |s| ==> !IsUpper(s[i])
  }

  // ---------------------------------------------------------------------------
  // decamelize (utils.js:113-120)

  /** What a `'$1 $2'` replacement scan does at one position: the text it
      writes and the position it resumes at. */
  datatype Step = Step(out: string, next: nat)

  /** A match with groups `s[p..mid]` and `s[mid..q]`, written with one space between them. */
  function Replace(s: string, p: nat, mid: nat, q: nat): Step
    requires p <= mid <= q <= |s|
  {
    Step(s[p..mid] + " " + s[mid..q], q)
  }

  /** No match at `p`: `s[p]` is copied. */
  function Keep(s: string, p: nat): Step
    requires p < |s|
  {
    Step([s[p]], p + 1)
  }

  /** A step writes `s[p..next]`, possibly with spaces inserted. */
  predicate StepInserts(s: string, p: nat, st: Step) {
    p <= st.next <= |s| && SpacesInserted(s[p..st.next], st.out)
  }

  lemma ReplaceInserts(s: string, p: nat, mid: nat, q: nat)
    requires p <= mid <= q <= |s|
    ensures StepInserts(s, p, Replace(s, p, mid, q))
  {
    var u, v := s[p..mid], s[mid..q];
    SpacesInsertedRefl(u);
    SpacesInsertedRefl(v);
    assert (" " + v)[1..] == v;
    SpacesInsertedConcat(u, v, u, " " + v);
    assert s[p..q] == u + v;
    assert u + " " + v == u + (" " + v);
  }

  lemma KeepInserts(s: string, p: nat)
    requires p < |s|
    ensures StepInserts(s, p, Keep(s, p))
  {
    SpacesInsertedRefl([s[p]]);
    assert s[p..p + 1] == [s[p]];
  }

  /** A scan that inserts spaces in its step and in the rest inserts spaces in `s[p..]`. */
  lemma ScanInserts(s: string, p: nat, st: Step, rest: string)
    requires StepInserts(s, p, st) && SpacesInserted(s[st.next..], rest)
    ensures SpacesInserted(s[p..], st.out + rest)
  {
    SpacesInsertedConcat(s[p..st.next], s[st.next..], st.out, rest);
    assert s[p..st.next] + s[st.next..] == s[p..];
  }

  /** `/([A-Z]{2,})(\d+)/` at `p`. A match exists exactly when the maximal
      upper-case run from `p` is at least two long and a digit follows it
      (giving back upper-case letters cannot bring a digit next); `\d+` then
      takes the whole digit run. */
  function AcronymDigitsAt(s: string, p: nat): (st: Step)
    requires p < |s|
    ensures p < st.next <= |s|
  {
    var k := Run(s, p, IsUpper);
    if k >= 2 && p + k < |s| && IsDigit(s[p + k]) then
      Replace(s, p, p + k, p + k + Run(s, p + k, IsDigit))
    else Keep(s, p)
  }

  /** `/([\da-z]+)([A-Z]{2,})/` at `p`. A match takes the maximal lower-case
      and digit run from `p` and needs at least two upper-case letters right
      after it (a shorter first group would leave a lower-case letter or digit
      next); `[A-Z]{2,}` then takes the whole upper-case run. */
  function LowerAcronymAt(s: string, p: nat): (st: Step)
    requires p < |s|
    ensures p < st.next <= |s|
  {
    var m := Run(s, p, IsLowerOrDigit);
    if m >= 1 && Run(s, p + m, IsUpper) >= 2 then
      Replace(s, p, p + m, p + m + Run(s, p + m, IsUpper))
    else Keep(s, p)
  }

  /** `/([\da-z])([A-Z])/` at `p`. */
  function LowerUpperAt(s: string, p: nat): (st: Step)
    requires p < |s|
    ensures p < st.next <= |s|
  {
    if p + 1 < |s| && IsLowerOrDigit(s[p]) && IsUpper(s[p + 1]) then Replace(s, p, p + 1, p + 2)
    else Keep(s, p)
  }

  /** `/([A-Z]+)([A-Z][\da-z]+)/` at `p`. `[A-Z]+` first takes the maximal
      upper-case run (length `k`) and must give back exactly its last letter
      for `[A-Z]` to match, so a match exists exactly when `k >= 2` and a
      lower-case letter or digit follows the run; `[\da-z]+` then takes that
      whole run. */
  function AcronymWordAt(s: string, p: nat): (st: Step)
    requires p < |s|
    ensures p < st.next <= |s|
  {
    var k := Run(s, p, IsUpper);
    if k >= 2 && p + k < |s| && IsLowerOrDigit(s[p + k]) then
      Replace(s, p, p + k - 1, p + k + Run(s, p + k, IsLowerOrDigit))
    else Keep(s, p)
  }

  /** `.replace(/([A-Z]{2,})(\d+)/g, '$1 $2')` applied to `s[p..]`. */
  function SpaceAcronymDigits(s: string, p: nat): string
    requires p <= |s|
    decreases |s| - p
  {
    if p == |s| then [] else var st := AcronymDigitsAt(s, p); st.out + SpaceAcronymDigits(s, st.next)
  }

  /** `.replace(/([\da-z]+)([A-Z]{2,})/g, '$1 $2')` applied to `s[p..]`. */
  function SpaceLowerAcronym(s: string, p: nat): string
    requires p <= |s|
    decreases |s| - p
  {
    if p == |s| then [] else var st := LowerAcronymAt(s, p); st.out + SpaceLowerAcronym(s, st.next)
  }

  /** `.replace(/([\da-z])([A-Z])/g, '$1 $2')` applied to `s[p..]`. */
  function SpaceLowerUpper(s: string, p: nat): string
    requires p <= |s|
    decreases |s| - p
  {
    if p == |s| then [] else var st := LowerUpperAt(s, p); st.out + SpaceLowerUpper(s, st.next)
  }

  /** `.replace(/([A-Z]+)([A-Z][\da-z]+)/g, '$1 $2')` applied to `s[p..]`. */
  function SpaceAcronymWord(s: string, p: nat): string
    requires p <= |s|
    decreases |s| - p
  {
    if p == |s| then [] else var st := AcronymWordAt(s, p); st.out + SpaceAcronymWord(s, st.next)
  }

  /** `decamelize(str)` (`utils.js`:113-120): the four replacements in order. */
  function Decamelize(str: string): string {
    var a := SpaceAcronymDigits(str, 0);
    var b := SpaceLowerAcronym(a, 0);
    var c := SpaceLowerUpper(b, 0);
    SpaceAcronymWord(c, 0)
  }

  lemma AcronymDigitsAtInserts(s: string, p: nat)
    requires p < |s|
    ensures StepInserts(s, p, AcronymDigitsAt(s, p))
  {
    var k := Run(s, p, IsUpper);
    if k >= 2 && p + k < |s| && IsDigit(s[p + k]) {
      ReplaceInserts(s, p, p + k, p + k + Run(s, p + k, IsDigit));
    } else {
      KeepInserts(s, p);
    }
  }

  lemma LowerAcronymAtInserts(s: string, p: nat)
    requires p < |s|
    ensures StepInserts(s, p, LowerAcronymAt(s, p))
  {
    var m := Run(s, p, IsLowerOrDigit);
    if m >= 1 && Run(s, p + m, IsUpper) >= 2 {
      ReplaceInserts(s, p, p + m, p + m + Run(s, p + m, IsUpper));
    } else {
      KeepInserts(s, p);
    }
  }

  lemma LowerUpperAtInserts(s: string, p: nat)
    requires p < |s|
    ensures StepInserts(s, p, LowerUpperAt(s, p))
  {
    if p + 1 < |s| && IsLowerOrDigit(s[p]) && IsUpper(s[p + 1]) {
      ReplaceInserts(s, p, p + 1, p + 2);
    } else {
      KeepInserts(s, p);
    }
  }

  lemma AcronymWordAtInserts(s: string, p: nat)
    requires p < |s|
    ensures StepInserts(s, p, AcronymWordAt(s, p))
  {
    var k := Run(s, p, IsUpper);
    if k >= 2 && p + k < |s| && IsLowerOrDigit(s[p + k]) {
      ReplaceInserts(s, p, p + k - 1, p + k + Run(s, p + k, IsLowerOrDigit));
    } else {
      KeepInserts(s, p);
    }
  }

  /** The step copies `s[p..next]` unchanged. */
  predicate CopiesText(s: string, p: nat, st: Step) {
    p < st.next <= |s| && st.out == s[p..st.next]
  }

  /** The step writes `s[p..next]` with one space inserted before `s[m]`. */
  predicate SpaceBefore(s: string, p: nat, st: Step, m: nat) {
    p < m < st.next <= |s| && st.out == s[p..m] + " " + s[m..st.next]
  }

  /** Without a match the step copies the one character `s[p]`. */
  lemma KeepCopies(s: string, p: nat)
    requires p < |s|
    ensures CopiesText(s, p, Keep(s, p)) && Keep(s, p).next == p + 1
  {
    assert s[p..p + 1] == [s[p]];
  }

  /** A step of `/([A-Z]{2,})(\d+)/g` copies its text or puts one space
      between an acronym of two or more capitals and the digits after it. */
  lemma AcronymDigitsAtBoundary(s: string, p: nat)
    requires p < |s|
    ensures var st := AcronymDigitsAt(s, p);
      CopiesText(s, p, st)
      || exists m: nat :: (SpaceBefore(s, p, st, m)
           && p + 2 <= m && IsUpper(s[m - 2]) && IsUpper(s[m - 1]) && IsDigit(s[m]))
  {
    var k := Run(s, p, IsUpper);
    if k >= 2 && p + k < |s| && IsDigit(s[p + k]) {
      RunIsMaximal(s, p, IsUpper);
      assert IsUpper(s[p + k - 2]) && IsUpper(s[p + k - 1]);
      assert SpaceBefore(s, p, AcronymDigitsAt(s, p), p + k);
    } else {
      KeepCopies(s, p);
    }
  }

  /** A step of `/([\da-z]+)([A-Z]{2,})/g` copies its text or puts one space
      between a lower-case letter or digit and two or more capitals. */
  lemma LowerAcronymAtBoundary(s: string, p: nat)
    requires p < |s|
    ensures var st := LowerAcronymAt(s, p);
      CopiesText(s, p, st)
      || exists m: nat :: (SpaceBefore(s, p, st, m)
           && m + 2 <= st.next && IsLowerOrDigit(s[m - 1]) && IsUpper(s[m]) && IsUpper(s[m + 1]))
  {
    var m := Run(s, p, IsLowerOrDigit);
    if m >= 1 && Run(s, p + m, IsUpper) >= 2 {
      RunIsMaximal(s, p, IsLowerOrDigit);
      assert IsLowerOrDigit(s[p + m - 1]);
      RunIsMaximal(s, p + m, IsUpper);
      assert IsUpper(s[p + m]) && IsUpper(s[p + m + 1]);
      assert SpaceBefore(s, p, LowerAcronymAt(s, p), p + m);
    } else {
      KeepCopies(s, p);
    }
  }

  /** A step of `/([\da-z])([A-Z])/g` copies its text or puts one space
      between a lower-case letter or digit and the capital after it. */
  lemma LowerUpperAtBoundary(s: string, p: nat)
    requires p < |s|
    ensures var st := LowerUpperAt(s, p);
      CopiesText(s, p, st)
      || (SpaceBefore(s, p, st, p + 1) && st.next == p + 2 && IsLowerOrDigit(s[p]) && IsUpper(s[p + 1]))
  {
    if !(p + 1 < |s| && IsLowerOrDigit(s[p]) && IsUpper(s[p + 1])) {
      KeepCopies(s, p);
    }
  }

  /** A step of `/([A-Z]+)([A-Z][\da-z]+)/g` copies its text or puts one
      space between two capitals when a lower-case letter or digit follows
      the second: before the capital that starts a word. */
  lemma AcronymWordAtBoundary(s: string, p: nat)
    requires p < |s|
    ensures var st := AcronymWordAt(s, p);
      CopiesText(s, p, st)
      || exists m: nat :: (SpaceBefore(s, p, st, m)
           && m + 2 <= st.next && IsUpper(s[m - 1]) && IsUpper(s[m]) && IsLowerOrDigit(s[m + 1]))
  {
    var k := Run(s, p, IsUpper);
    if k >= 2 && p + k < |s| && IsLowerOrDigit(s[p + k]) {
      RunIsMaximal(s, p, IsUpper);
      assert IsUpper(s[p + k - 2]) && IsUpper(s[p + k - 1]);
      assert SpaceBefore(s, p, AcronymWordAt(s, p), p + k - 1);
    } else {
      KeepCopies(s, p);
    }
  }

  lemma {:induction false} SpaceAcronymDigitsInserts(s: string, p: nat)
    requires p <= |s|
    ensures SpacesInserted(s[p..], SpaceAcronymDigits(s, p))
    decreases |s| - p
  {
    if p < |s| {
      var st := AcronymDigitsAt(s, p);
      AcronymDigitsAtInserts(s, p);
      SpaceAcronymDigitsInserts(s, st.next);
      ScanInserts(s, p, st, SpaceAcronymDigits(s, st.next));
    }
  }

  lemma {:induction false} SpaceLowerAcronymInserts(s: string, p: nat)
    requires p <= |s|
    ensures SpacesInserted(s[p..], SpaceLowerAcronym(s, p))
    decreases |s| - p
  {
    if p < |s| {
      var st := LowerAcronymAt(s, p);
      LowerAcronymAtInserts(s, p);
      SpaceLowerAcronymInserts(s, st.next);
      ScanInserts(s, p, st, SpaceLowerAcronym(s, st.next));
    }
  }

  lemma {:induction false} SpaceLowerUpperInserts(s: string, p: nat)
    requires p <= |s|
    ensures SpacesInserted(s[p..], SpaceLowerUpper(s, p))
    decreases |s| - p
  {
    if p < |s| {
      var st := LowerUpperAt(s, p);
      LowerUpperAtInserts(s, p);
      SpaceLowerUpperInserts(s, st.next);
      ScanInserts(s, p, st, SpaceLowerUpper(s, st.next));
    }
  }

  lemma {:induction false} SpaceAcronymWordInserts(s: string, p: nat)
    requires p <= |s|
    ensures SpacesInserted(s[p..], SpaceAcronymWord(s, p))
    decreases |s| - p
  {
    if p < |s| {
      var st := AcronymWordAt(s, p);
      AcronymWordAtInserts(s, p);
      SpaceAcronymWordInserts(s, st.next);
      ScanInserts(s, p, st, SpaceAcronymWord(s, st.next));
    }
  }

  /** `decamelize` only inserts spaces: deleting the spaces it inserted gives
      back its input. */
  lemma DecamelizeInsertsSpaces(str: string)
    ensures SpacesInserted(str, Decamelize(str))
    ensures |Decamelize(str)| >= |str|
    ensures Without(Decamelize(str), IsBlank) == Without(str, IsBlank)
  {
    var a := SpaceAcronymDigits(str, 0);
    var b := SpaceLowerAcronym(a, 0);
    var c := SpaceLowerUpper(b, 0);
    var d := SpaceAcronymWord(c, 0);
    SpaceAcronymDigitsInserts(str, 0);
    SpaceLowerAcronymInserts(a, 0);
    SpaceLowerUpperInserts(b, 0);
    SpaceAcronymWordInserts(c, 0);
    assert str[0..] == str && a[0..] == a && b[0..] == b && c[0..] == c;
    SpacesInsertedTrans(str, a, b);
    SpacesInsertedTrans(str, b, c);
    SpacesInsertedTrans(str, c, d);
    SpacesInsertedLength(str, d);
    SpacesInsertedWithout(str, d);
  }

  lemma {:induction false} SpacesInsertedLength(a: string, b: string)
    requires SpacesInserted(a, b)
    ensures |b| >= |a|
    decreases |b|
  {
    if b != [] {
      if a != [] && a[0] == b[0] && SpacesInserted(a[1..], b[1..]) {
        SpacesInsertedLength(a[1..], b[1..]);
      } else {
        SpacesInsertedLength(a, b[1..]);
      }
    }
  }

  lemma {:induction false} SpaceAcronymDigitsFixed(s: string, p: nat)
    requires p <= |s| && NoUpperFrom(s, p)
    ensures SpaceAcronymDigits(s, p) == s[p..]
    decreases |s| - p
  {
    if p < |s| {
      SpaceAcronymDigitsFixed(s, p + 1);
      assert [s[p]] + s[p + 1..] == s[p..];
    }
  }

  lemma {:induction false} SpaceLowerAcronymFixed(s: string, p: nat)
    requires p <= |s| && NoUpperFrom(s, p)
    ensures SpaceLowerAcronym(s, p) == s[p..]
    decreases |s| - p
  {
    if p < |s| {
      var m := Run(s, p, IsLowerOrDigit);
      assert p + m < |s| ==> !IsUpper(s[p + m]);
      SpaceLowerAcronymFixed(s, p + 1);
      assert [s[p]] + s[p + 1..] == s[p..];
    }
  }

  lemma {:induction false} SpaceLowerUpperFixed(s: string, p: nat)
    requires p <= |s| && NoUpperFrom(s, p)
    ensures SpaceLowerUpper(s, p) == s[p..]
    decreases |s| - p
  {
    if p < |s| {
      SpaceLowerUpperFixed(s, p + 1);
      assert [s[p]] + s[p + 1..] == s[p..];
    }
  }

  lemma {:induction false} SpaceAcronymWordFixed(s: string, p: nat)
    requires p <= |s| && NoUpperFrom(s, p)
    ensures SpaceAcronymWord(s, p) == s[p..]
    decreases |s| - p
  {
    if p < |s| {
      SpaceAcronymWordFixed(s, p + 1);
      assert [s[p]] + s[p + 1..] == s[p..];
    }
  }

  /** A string without ASCII upper-case letters is returned unchanged. */
  lemma DecamelizeNoUpper(str: string)
    requires NoUpperFrom(str, 0)
    ensures Decamelize(str) == str
  {
    SpaceAcronymDigitsFixed(str, 0);
    SpaceLowerAcronymFixed(str, 0);
    SpaceLowerUpperFixed(str, 0);
    SpaceAcronymWordFixed(str, 0);
  }

  // ---------------------------------------------------------------------------
  // slugify (utils.js:128-132)

  /** `[^\da-z]` */
  predicate IsSlugBreak(c: char) { !IsLowerOrDigit(c) }

  /** A character that may appear in a slug. */
  predicate IsSlugChar(c: char) { IsLowerOrDigit(c) || c == '-' }

  /** No `-` directly follows another `-`. */
  predicate NoDoubleHyphen(r: string) {
    forall i :: 0 < i < |r| && r[i] == '-' ==> r[i - 1] != '-'
  }

  /** A well-formed slug: only `0-9`, `a-z` and single `-`. */
  predicate IsSlug(r: string) {
    (forall i :: 0 <= i < |r| ==> IsSlugChar(r[i])) && NoDoubleHyphen(r)
  }

  /** `c == '-'` */
  predicate IsHyphen(c: char) { c == '-' }

  /** The number of maximal runs of `[^\da-z]` in `s[p..]`, counted at their
      first characters; `inRun` says whether `s[p - 1]` is one of them, so
      that a run that began before `p` is not counted. */
  function RunStarts(s: string, p: nat, inRun: bool): nat
    requires p <= |s|
    decreases |s| - p
  {
    if p == |s| then 0
    else (if IsSlugBreak(s[p]) && !inRun then 1 else 0) + RunStarts(s, p + 1, IsSlugBreak(s[p]))
  }

  /** Skipping the rest of a maximal run of `[^\da-z]` changes neither what
      deleting such characters leaves nor the number of runs still to come. */
  lemma {:induction false} SkipBreakRun(s: string, q: nat, e: nat)
    requires q <= e <= |s|
    requires forall i :: q <= i < e ==> IsSlugBreak(s[i])
    requires e == |s| || !IsSlugBreak(s[e])
    ensures Without(s[q..], IsSlugBreak) == Without(s[e..], IsSlugBreak)
    ensures RunStarts(s, q, true) == RunStarts(s, e, false)
    decreases e - q
  {
    if q < e {
      assert s[q..][1..] == s[q + 1..];
      SkipBreakRun(s, q + 1, e);
    }
  }

  /** `.replace(/[^\da-z]+/g, '-')` from `p`: every maximal run of other
      characters becomes one `-`. The letters and digits are kept, in order,
      and there are as many `-` as there are runs. */
  function HyphenateRuns(s: string, p: nat): (r: string)
    requires p <= |s|
    ensures IsSlug(r)
    ensures Without(r, IsHyphen) == Without(s[p..], IsSlugBreak)
    ensures Count(r, '-') == RunStarts(s, p, false)
    ensures p < |s| && IsLowerOrDigit(s[p]) ==> r != [] && r[0] == s[p]
    ensures p == |s| ==> r == []
    decreases |s| - p
  {
    if p == |s| then []
    else if IsLowerOrDigit(s[p]) then
      var rest := HyphenateRuns(s, p + 1);
      assert ([s[p]] + rest)[1..] == rest;
      assert s[p..][1..] == s[p + 1..];
      [s[p]] + rest
    else
      RunIsMaximal(s, p, IsSlugBreak);
      SkipBreakRun(s, p + 1, p + Run(s, p, IsSlugBreak));
      var rest := HyphenateRuns(s, p + Run(s, p, IsSlugBreak));
      assert ("-" + rest)[1..] == rest;
      assert s[p..][1..] == s[p + 1..];
      "-" + rest
  }

  /** `slugify(val)` (`utils.js`:128-132). */
  function Slugify(val: string): (r: string)
    ensures IsSlug(r)
  {
    HyphenateRuns(ToLowerCase(Decamelize(Trim(val))), 0)
  }

  lemma {:induction false} HyphenateRunsFixed(x: string, p: nat)
    requires p <= |x| && IsSlug(x)
    ensures HyphenateRuns(x, p) == x[p..]
    decreases |x| - p
  {
    if p < |x| {
      if IsLowerOrDigit(x[p]) {
        HyphenateRunsFixed(x, p + 1);
      } else {
        assert p + 1 < |x| ==> x[p + 1] != '-';
        assert Run(x, p, IsSlugBreak) == 1;
        HyphenateRunsFixed(x, p + 1);
      }
      assert [x[p]] + x[p + 1..] == x[p..];
    }
  }

  /** A slug is its own slug. */
  lemma SlugifyFixed(x: string)
    requires IsSlug(x)
    ensures Slugify(x) == x
  {
    SlugShape(x);
    TrimSpaceless(x);
    DecamelizeNoUpper(x);
    LowerFixed(x);
    HyphenateRunsFixed(x, 0);
  }

  lemma SlugShape(x: string)
    requires IsSlug(x)
    ensures NoneIn(x, IsSpace) && NoUpperFrom(x, 0)
  {
    forall i | 0 <= i < |x|
      ensures !IsSpace(x[i]) && !IsUpper(x[i])
    {
      assert IsSlugChar(x[i]);
    }
  }

  lemma LowerFixed(x: string)
    requires NoUpperFrom(x, 0)
    ensures ToLowerCase(x) == x
  {
  }

  /** Slugifying a slug changes nothing. */
  lemma SlugifyIdempotent(val: string)
    ensures Slugify(Slugify(val)) == Slugify(val)
  {
    SlugifyFixed(Slugify(val));
  }

  /** Trimming before slugifying makes no difference. */
  lemma SlugifyTrim(val: string)
    ensures Slugify(Trim(val)) == Slugify(val)
  {
    TrimIdempotent(val);
  }

  // ---------------------------------------------------------------------------
  // namify (utils.js:122-126)

  /** `p.slice(0, 1).toUpperCase() + p.slice(1)` */
  function Capitalize(p: string): (r: string)
    ensures |r| == |p|
    ensures p != [] ==> r[0] == UpperChar(p[0]) && r[1..] == p[1..]
    ensures p != [] && 'a' <= p[0] <= 'z' ==> IsUpper(r[0])
  {
    if p == [] then [] else [UpperChar(p[0])] + p[1..]
  }

  /** Lower-casing a capitalised lower-case word gives the word back. */
  lemma CapitalizeLowered(p: string)
    requires NoneIn(p, IsUpper)
    ensures ToLowerCase(Capitalize(p)) == p
  {
    var r := Capitalize(p);
    forall i | 0 <= i < |p|
      ensures LowerChar(r[i]) == p[i]
    {
      if i > 0 {
        assert r[i] == r[1..][i - 1] == p[1..][i - 1];
      }
    }
  }

  /** `.map(Capitalize)` */
  function CapitalizeAll(ps: seq<string>): (r: seq<string>)
    ensures |r| == |ps| && forall k :: 0 <= k < |ps| ==> r[k] == Capitalize(ps[k])
  {
    seq(|ps|, k requires 0 <= k < |ps| => Capitalize(ps[k]))
  }

  /** `namify(str)` (`utils.js`:122-126). */
  function Namify(str: string): string {
    Join(CapitalizeAll(SplitOn(str, '-')), " ")
  }

  /** A character-by-character reading of `namify`: every `-` becomes a space
      and the character that starts the string or follows a `-` is
      upper-cased; `atStart` says whether the previous character was a `-`
      (or there was none). */
  function NamifyScan(s: string, atStart: bool): (r: string)
    ensures |r| == |s|
  {
    if s == [] then []
    else if s[0] == '-' then " " + NamifyScan(s[1..], true)
    else [if atStart then UpperChar(s[0]) else s[0]] + NamifyScan(s[1..], false)
  }

  lemma JoinCons(x: char, a: string, rest: seq<string>, sep: string)
    ensures Join([[x] + a] + rest, sep) == [x] + Join([a] + rest, sep)
  {
    if rest != [] {
      assert ([[x] + a] + rest)[1..] == rest;
      assert ([a] + rest)[1..] == rest;
    }
  }

  lemma {:induction false} NamifyScanAgrees(s: string, atStart: bool)
    ensures var ps := SplitOn(s, '-');
      Join([if atStart then Capitalize(ps[0]) else ps[0]] + CapitalizeAll(ps[1..]), " ")
      == NamifyScan(s, atStart)
  {
    var ps := SplitOn(s, '-');
    if s == [] {
      assert ps == [[]];
      assert CapitalizeAll(ps[1..]) == [];
    } else {
      var rest := SplitOn(s[1..], '-');
      NamifyScanAgrees(s[1..], if s[0] == '-' then true else false);
      if s[0] == '-' {
        assert ps == [[]] + rest && ps[1..] == rest;
        var caps := CapitalizeAll(rest);
        assert caps == [Capitalize(rest[0])] + CapitalizeAll(rest[1..]);
        assert [[]] + caps == [if atStart then Capitalize(ps[0]) else ps[0]] + CapitalizeAll(ps[1..]);
        assert ([[]] + caps)[1..] == caps;
      } else {
        assert ps == [[s[0]] + rest[0]] + rest[1..];
        var c := if atStart then UpperChar(s[0]) else s[0];
        assert (if atStart then Capitalize(ps[0]) else ps[0]) == [c] + rest[0];
        JoinCons(c, rest[0], CapitalizeAll(rest[1..]), " ");
      }
    }
  }

  /** `namify` agrees with the character-by-character reading. */
  lemma NamifyIsScan(str: string)
    ensures Namify(str) == NamifyScan(str, true)
  {
    var ps := SplitOn(str, '-');
    NamifyScanAgrees(str, true);
    assert CapitalizeAll(ps) == [Capitalize(ps[0])] + CapitalizeAll(ps[1..]);
  }

  lemma {:induction false} NamifyScanCounts(s: string, atStart: bool)
    ensures '-' !in NamifyScan(s, atStart)
    ensures Count(NamifyScan(s, atStart), ' ') == Count(s, '-') + Count(s, ' ')
  {
    if s != [] {
      NamifyScanCounts(s[1..], s[0] == '-');
      var r := NamifyScan(s, atStart);
      assert r[1..] == NamifyScan(s[1..], s[0] == '-');
    }
  }

  /** `namify` keeps the length, leaves no `-`, and turns every `-` into a
      space. */
  lemma NamifyShape(str: string)
    ensures |Namify(str)| == |str|
    ensures '-' !in Namify(str)
    ensures Count(Namify(str), ' ') == Count(str, '-') + Count(str, ' ')
  {
    NamifyIsScan(str);
    NamifyScanCounts(str, true);
  }

  /** For a string without spaces, the words of `namify`'s result are the
      `-`-separated segments of its input, in order, one more than there are
      `-`, each with only its first character upper-cased. */
  lemma NamifyWords(str: string)
    requires ' ' !in str
    ensures SplitOn(Namify(str), ' ') == CapitalizeAll(SplitOn(str, '-'))
    ensures |SplitOn(Namify(str), ' ')| == Count(str, '-') + 1
  {
    var ps := SplitOn(str, '-');
    var caps := CapitalizeAll(ps);
    forall k | 0 <= k < |caps|
      ensures ' ' !in caps[k]
    {
      assert caps[k] == Capitalize(ps[k]);
    }
    SplitOnJoin(caps, ' ');
    SplitOnCount(str, '-');
  }

  /** The character at each position of `NamifyScan`'s result. */
  lemma {:induction false} NamifyScanAt(s: string, atStart: bool, i: nat)
    requires i < |s|
    ensures NamifyScan(s, atStart)[i] ==
      if s[i] == '-' then ' '
      else if (if i == 0 then atStart else s[i - 1] == '-') then UpperChar(s[i])
      else s[i]
  {
    if i > 0 {
      NamifyScanAt(s[1..], s[0] == '-', i - 1);
      assert NamifyScan(s, atStart)[i] == NamifyScan(s[1..], s[0] == '-')[i - 1];
    }
  }

  /** Character by character, `namify` writes a space for each `-`, upper-cases
      the first character and each one following a `-`, and copies the rest. */
  lemma NamifyAt(str: string, i: nat)
    requires i < |str|
    ensures |Namify(str)| == |str|
    ensures Namify(str)[i] ==
      if str[i] == '-' then ' '
      else if i == 0 || str[i - 1] == '-' then UpperChar(str[i])
      else str[i]
  {
    NamifyIsScan(str);
    NamifyScanAt(str, true, i);
  }
}
