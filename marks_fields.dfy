/**
 * `parse_marks_and_description` (debug.py:19-38, and its copy at
 * ExtractInvoiceData.py:13-31) and the `1Z…marks` fix-up that debug.py:129
 * applies to the marks column before parsing it.
 */
module MarksFields {
  import opened Text
  import opened Patterns

  /** `re.sub(r"(?i)of$", "", c)` on an alphanumeric run (which never ends in a newline). */
  function DropOfSuffix(c: string): (r: string)
    ensures r <= c
    ensures |r| == if |c| >= 2 && LabelAt(c, |c| - 2, "of") then |c| - 2 else |c|
    ensures r == c <==> !(|c| >= 2 && LabelAt(c, |c| - 2, "of"))
  {
    if |c| >= 2 && LabelAt(c, |c| - 2, "of") then c[..|c| - 2] else c
  }

  /** Dropping "of" from a `1Z` run leaves a `1Z` run: the "Z" itself is never part of "of". */
  lemma DropOfKeepsPrefix(c: string)
    requires |c| >= 3 && LabelAt(c, 0, ContainerPrefix)
    requires forall k | 2 <= k < |c| :: IsAlnum(c[k])
    ensures var r := DropOfSuffix(c);
      |r| >= 2 && LabelAt(r, 0, ContainerPrefix) && forall k | 0 <= k < |r| :: IsAlnum(r[k])
  {
    assert Lower(c[0]) == Lower(ContainerPrefix[0]) == '1';
    assert Lower(c[1]) == Lower(ContainerPrefix[1]) == 'z';
    LowerKeepsClass(c[0]);
    LowerKeepsClass(c[1]);
    if |c| == 3 {
      assert Lower(c[1]) != Lower("of"[0]);
    }
  }

  /**
   * The container number: the first `1Z…` alphanumeric run, less one trailing
   * "of"; failing that, the first non-blank token after "Number and kind";
   * failing that, "". The `strip()` calls of the source are no-ops on these
   * groups, which hold no whitespace.
   */
  function ContainerNumber(s: string): (r: string)
    ensures HasMatch(ContainerRun, s) ==>
      |r| >= 2 && LabelAt(r, 0, ContainerPrefix) && forall k | 0 <= k < |r| :: IsAlnum(r[k])
    ensures !HasMatch(ContainerRun, s) && HasMatch(NumberAndKind, s) ==>
      |r| > 0 && forall k | 0 <= k < |r| :: !IsSpace(r[k])
    ensures !HasMatch(ContainerRun, s) && !HasMatch(NumberAndKind, s) ==> r == ""
  {
    match LeftmostMatch(ContainerRun, s, 0)
    case Some(p) =>
      var run := s[p..RunEnd(s, p + 2, Alnum)];
      ContainerRunShape(s, p);
      DropOfKeepsPrefix(run);
      DropOfSuffix(run)
    case None =>
      match LeftmostMatch(NumberAndKind, s, 0)
      case Some(p) =>
        var q := RunEnd(s, p + |NumberAndKindLabel|, Space);
        TokenShape(s, q);
        s[q..RunEnd(s, q, NonSpace)]
      case None => ""
  }

  /** The maximal `1Z` run at a match: "1Z", then alphanumerics only. */
  lemma ContainerRunShape(s: string, p: nat)
    requires p <= |s| && ContainerRunAt(s, p)
    ensures var run := s[p..RunEnd(s, p + 2, Alnum)];
      |run| >= 3 && LabelAt(run, 0, ContainerPrefix) && forall k | 2 <= k < |run| :: IsAlnum(run[k])
  {
    var run := s[p..RunEnd(s, p + 2, Alnum)];
    assert forall k | 0 <= k < |ContainerPrefix| :: run[k] == s[p + k];
  }

  /** The `\S+` run at a non-space is non-empty and holds no whitespace. */
  lemma TokenShape(s: string, q: nat)
    requires q < |s| && !IsSpace(s[q])
    ensures var r := s[q..RunEnd(s, q, NonSpace)];
      |r| > 0 && forall k | 0 <= k < |r| :: !IsSpace(r[k])
  {
    assert InClass(s[q], NonSpace);
  }

  /**
   * The description: the rest of the line after the first "Description:"
   * label and the whitespace after it, stripped; "" without the label.
   */
  function Description(s: string): (r: string)
    ensures !HasMatch(DescriptionText, s) ==> r == ""
    ensures r == [] || (!IsSpace(r[0]) && !IsSpace(r[|r| - 1]))
    ensures '\n' !in r
  {
    match LeftmostMatch(DescriptionText, s, 0)
    case Some(p) =>
      var q := DescriptionStart(s, p).value;
      LineRunShape(s, q);
      Strip(s[q..RunEnd(s, q, LineChar)])
    case None => ""
  }

  /** The `.+` run holds no newline. */
  lemma LineRunShape(s: string, q: nat)
    requires q <= |s|
    ensures forall c | c in s[q..RunEnd(s, q, LineChar)] :: c != '\n'
  {
    var line := s[q..RunEnd(s, q, LineChar)];
    assert forall k | 0 <= k < |line| :: InClass(line[k], LineChar);
  }

  /**
   * `re.sub(r"(?i)(1Z[A-Za-z0-9]+)(marks)", r"\1 Marks", s[p..])`: matches
   * are replaced left to right and scanning resumes after each one.
   */
  function FixFrom(s: string, p: nat): (r: string)
    requires p <= |s|
    ensures (forall q | p <= q < |s| :: !GluedMarksAt(s, q)) ==> r == s[p..]
    ensures |r| >= |s| - p
    decreases |s| - p
  {
    if p == |s| then []
    else
      match GlueSplit(s, p)
      case Some(g) =>
        assert GluedMarksAt(s, p);
        s[p..g] + (" Marks" + FixFrom(s, g + |MarksWord|))
      case None =>
        var rest := FixFrom(s, p + 1);
        assert s[p..] == [s[p]] + s[p + 1..];
        [s[p]] + rest
  }

  function FixGluedMarks(s: string): (r: string)
    ensures !HasMatch(GluedMarks, s) ==> r == s
    ensures |r| >= |s|
  {
    assert forall q | 0 <= q < |s| :: MatchesAt(GluedMarks, s, q) == GluedMarksAt(s, q);
    FixFrom(s, 0)
  }

  lemma MarksWordLetters()
    ensures forall j | 0 <= j < |MarksWord| :: IsAsciiLetter(MarksWord[j]) && Lower(MarksWord[j]) == MarksWord[j]
  {
  }

  /** "marks" cannot be matched across a non-alphanumeric last character of `a`. */
  lemma MarksProbeLocal(a: string, b: string, v: nat)
    requires v < |a| && !IsAlnum(a[|a| - 1])
    ensures ProbeAt(MarksFollows, a + b, v) == ProbeAt(MarksFollows, a, v)
  {
    if v + |MarksWord| <= |a| {
      LabelAtLocal(a, b, v, MarksWord);
    } else if v + |MarksWord| <= |a + b| {
      var k := |a| - 1 - v;
      assert (a + b)[v + k] == a[|a| - 1];
      MarksWordLetters();
      LowerKeepsClass(a[|a| - 1]);
      assert Lower((a + b)[v + k]) != Lower(MarksWord[k]);
    }
  }

  /** The greedy back-off inside `a` does not see what follows `a`. */
  lemma {:induction false} LastAtLocal(a: string, b: string, lo: nat, hi: nat)
    requires hi < |a| && !IsAlnum(a[|a| - 1])
    ensures LastAt(MarksFollows, a + b, lo, hi) == LastAt(MarksFollows, a, lo, hi)
    decreases hi
  {
    MarksProbeLocal(a, b, hi);
    if lo < hi && !ProbeAt(MarksFollows, a, hi) {
      LastAtLocal(a, b, lo, hi - 1);
    }
  }

  /** A glue match starting inside `a` ends inside it when `a` ends outside `[A-Za-z0-9]`. */
  lemma GlueSplitLocal(a: string, b: string, q: nat)
    requires q < |a| && !IsAlnum(a[|a| - 1])
    ensures GlueSplit(a + b, q) == GlueSplit(a, q)
  {
    LowerKeepsClass(a[|a| - 1]);
    if q + |ContainerPrefix| <= |a| {
      LabelAtLocal(a, b, q, ContainerPrefix);
    } else {
      assert (a + b)[q] == a[|a| - 1];
      assert Lower((a + b)[q]) != Lower(ContainerPrefix[0]);
    }
    if LabelAt(a, q, ContainerPrefix) {
      assert Lower(a[q + 1]) == Lower(ContainerPrefix[1]);
      LowerKeepsClass(a[q + 1]);
      RunEndLocal(a, b, q + 2, Alnum);
      LastAtLocal(a, b, q + 3, RunEnd(a, q + 2, Alnum));
    }
  }

  /** The substitution scan from a position looks only forward: a prefix does not change it. */
  lemma {:induction false} FixFromShift(pre: string, u: string, j: nat)
    requires j <= |u|
    ensures FixFrom(pre + u, |pre| + j) == FixFrom(u, j)
    decreases |u| - j
  {
    if j < |u| {
      match GlueSplit(u, j)
      case Some(g) =>
        var n := g + |MarksWord|;
        FixFromAtGlue(u, j, g, n);
        FixFromShift(pre, u, n);
        ShiftedGlueStep(pre, u, j, g, n);
      case None =>
        var n := j + 1;
        FixFromShift(pre, u, n);
        ShiftedPlainStep(pre, u, j, n);
    }
  }

  /** Induction step of FixFromShift at a glued match of `u`. */
  lemma ShiftedGlueStep(pre: string, u: string, j: nat, g: nat, n: nat)
    requires j < |u| && GlueSplit(u, j) == Some(g) && n == g + |MarksWord| <= |u|
    requires FixFrom(pre + u, |pre| + n) == FixFrom(u, n)
    ensures FixFrom(pre + u, |pre| + j) == FixFrom(u, j)
  {
    FixFromAtGlue(u, j, g, n);
    ShiftedGlueUnfold(pre, u, j, g, n);
    SliceAfterPrefix(pre, u, j, g);
  }

  /** The scan of `pre + u` meets the glued match of `u`, moved by `|pre|`. */
  lemma ShiftedGlueUnfold(pre: string, u: string, j: nat, g: nat, n: nat)
    requires j < |u| && GlueSplit(u, j) == Some(g) && j <= g && n == g + |MarksWord| <= |u|
    ensures FixFrom(pre + u, |pre| + j) == (pre + u)[|pre| + j..|pre| + g] + (" Marks" + FixFrom(pre + u, |pre| + n))
  {
    GlueSplitShiftSome(pre, u, j, g);
    FixFromAtGlue(pre + u, |pre| + j, |pre| + g, |pre| + n);
  }

  /** GlueSplitShift where `u` has a glued match at `j`. */
  lemma GlueSplitShiftSome(pre: string, u: string, j: nat, g: nat)
    requires j < |u| && GlueSplit(u, j) == Some(g)
    ensures GlueSplit(pre + u, |pre| + j) == Some(|pre| + g)
  {
    GlueSplitShift(pre, u, j);
  }

  /** Induction step of FixFromShift where no glued match of `u` starts. */
  lemma ShiftedPlainStep(pre: string, u: string, j: nat, n: nat)
    requires j < |u| && GlueSplit(u, j) == None && n == j + 1
    requires FixFrom(pre + u, |pre| + n) == FixFrom(u, n)
    ensures FixFrom(pre + u, |pre| + j) == FixFrom(u, j)
  {
    GlueSplitShift(pre, u, j);
    assert (pre + u)[|pre| + j] == u[j];
    assert FixFrom(u, n) + [] == FixFrom(u, n);
    PlainStepsAgree(pre + u, |pre| + j, |pre| + n, u, j, n, []);
    assert FixFrom(u, j) + [] == FixFrom(u, j);
  }

  /** Two scans that meet a glued match, keeping the same text before it, agree when what follows does. */
  lemma GlueStepsAgree(s: string, q: nat, h: nat, qn: nat, u: string, j: nat, g: nat, jn: nat, t: string)
    requires q < |s| && GlueSplit(s, q) == Some(h) && q <= h && qn == h + |MarksWord| <= |s|
    requires j < |u| && GlueSplit(u, j) == Some(g) && j <= g && jn == g + |MarksWord| <= |u|
    requires s[q..h] == u[j..g]
    requires FixFrom(s, qn) == FixFrom(u, jn) + t
    ensures FixFrom(s, q) == FixFrom(u, j) + t
  {
    FixFromAtGlue(s, q, h, qn);
    FixFromAtGlue(u, j, g, jn);
    ConcatAssoc(" Marks", FixFrom(u, jn), t);
    ConcatAssoc(u[j..g], " Marks" + FixFrom(u, jn), t);
  }

  /** Two scans that keep the same character where no glued match starts agree when what follows does. */
  lemma PlainStepsAgree(s: string, q: nat, qn: nat, u: string, j: nat, jn: nat, t: string)
    requires q < |s| && GlueSplit(s, q) == None && qn == q + 1
    requires j < |u| && GlueSplit(u, j) == None && jn == j + 1
    requires s[q] == u[j]
    requires FixFrom(s, qn) == FixFrom(u, jn) + t
    ensures FixFrom(s, q) == FixFrom(u, j) + t
  {
    FixFromAtPlain(s, q, qn);
    FixFromAtPlain(u, j, jn);
    ConcatAssoc([u[j]], FixFrom(u, jn), t);
  }

  /** Scanning `a + b` from inside `a` is scanning `a`, then `b`, when `a` ends outside `[A-Za-z0-9]`. */
  lemma {:induction false} FixFromSplit(a: string, b: string, p: nat)
    requires p <= |a| && (|a| == 0 || !IsAlnum(a[|a| - 1]))
    ensures FixFrom(a + b, p) == FixFrom(a, p) + FixFrom(b, 0)
    decreases |a| - p
  {
    if p == |a| {
      FixFromShift(a, b, 0);
    } else {
      match GlueSplit(a, p)
      case Some(g) =>
        var n := g + |MarksWord|;
        FixFromAtGlue(a, p, g, n);
        FixFromSplit(a, b, n);
        LocalGlueStep(a, b, p, g, n);
      case None =>
        var n := p + 1;
        FixFromSplit(a, b, n);
        LocalPlainStep(a, b, p, n);
    }
  }

  /** Induction step of FixFromSplit at a glued match inside `a`. */
  lemma LocalGlueStep(a: string, b: string, p: nat, g: nat, n: nat)
    requires p < |a| && !IsAlnum(a[|a| - 1]) && GlueSplit(a, p) == Some(g) && n == g + |MarksWord| <= |a|
    requires FixFrom(a + b, n) == FixFrom(a, n) + FixFrom(b, 0)
    ensures FixFrom(a + b, p) == FixFrom(a, p) + FixFrom(b, 0)
  {
    GlueSplitLocal(a, b, p);
    FixFromAtGlue(a, p, g, n);
    SliceBeforeRest(a, b, p, g);
    GlueStepsAgree(a + b, p, g, n, a, p, g, n, FixFrom(b, 0));
  }

  /** Induction step of FixFromSplit where no glued match starts inside `a`. */
  lemma LocalPlainStep(a: string, b: string, p: nat, n: nat)
    requires p < |a| && !IsAlnum(a[|a| - 1]) && GlueSplit(a, p) == None && n == p + 1
    requires FixFrom(a + b, n) == FixFrom(a, n) + FixFrom(b, 0)
    ensures FixFrom(a + b, p) == FixFrom(a, p) + FixFrom(b, 0)
  {
    GlueSplitLocal(a, b, p);
    assert (a + b)[p] == a[p];
    PlainStepsAgree(a + b, p, n, a, p, n, FixFrom(b, 0));
  }

  /** No glued match spans a non-alphanumeric character, so the substitution splits there. */
  lemma FixGluedMarksSplit(a: string, b: string)
    requires |a| == 0 || !IsAlnum(a[|a| - 1])
    ensures FixGluedMarks(a + b) == FixGluedMarks(a) + FixGluedMarks(b)
  {
    FixFromSplit(a, b, 0);
  }

  /** In `1Z` + w + "marks" + rest, group 1 of the glue pattern ends right before that "marks". */
  lemma GlueSplitOfRun(z: char, w: string, rest: string)
    requires z == 'Z' || z == 'z'
    requires |w| > 0 && forall k | 0 <= k < |w| :: IsAlnum(w[k])
    requires rest == [] || !IsAlnum(rest[0])
    ensures GlueSplit(['1', z] + w + MarksWord + rest, 0) == Some(|w| + 2)
  {
    var s := ['1', z] + w + MarksWord + rest;
    var g := |w| + 2;
    var e := g + |MarksWord|;
    GluedRunEnd(z, w, rest);
    NoMarksAfterGlue(z, w, rest);
    LastAtIs(MarksFollows, s, 3, e, g);
  }

  /** The alphanumeric run of `1Z` + w + "marks" + rest ends where `rest` starts. */
  lemma GluedRunEnd(z: char, w: string, rest: string)
    requires z == 'Z' || z == 'z'
    requires |w| > 0 && forall k | 0 <= k < |w| :: IsAlnum(w[k])
    requires rest == [] || !IsAlnum(rest[0])
    ensures var s := ['1', z] + w + MarksWord + rest;
      LabelAt(s, 0, ContainerPrefix) && RunEnd(s, 2, Alnum) == |w| + 2 + |MarksWord|
  {
    var s := ['1', z] + w + MarksWord + rest;
    var body := w + MarksWord;
    MarksWordLetters();
    assert s == ['1', z] + body + rest;
    assert forall m | 0 <= m < |body| :: IsAlnum(body[m]);
    RunEndIs(body, 0, Alnum, |body|);
    RunEndShift(['1', z], body, rest, 0, Alnum);
    assert LabelAt(s, 0, ContainerPrefix);
  }

  /** "marks" sits right after w, and no later start inside the run is followed by "marks". */
  lemma NoMarksAfterGlue(z: char, w: string, rest: string)
    requires rest == [] || !IsAlnum(rest[0])
    ensures var s := ['1', z] + w + MarksWord + rest;
      var g := |w| + 2;
      ProbeAt(MarksFollows, s, g) && forall v | g < v <= g + |MarksWord| :: !ProbeAt(MarksFollows, s, v)
  {
    var s := ['1', z] + w + MarksWord + rest;
    var g := |w| + 2;
    var e := g + |MarksWord|;
    MarksWordLetters();
    assert forall m | g <= m < e :: s[m] == MarksWord[m - g];
    assert ProbeAt(MarksFollows, s, g);
    forall v | g < v <= e ensures !ProbeAt(MarksFollows, s, v) {
      if v + |MarksWord| <= |s| {
        var k := e - v;
        assert s[v + k] == rest[0];
        LowerKeepsClass(rest[0]);
        assert Lower(s[v + k]) != Lower(MarksWord[k]);
      }
    }
  }

  /** A `1Z` run (at least one character after "1Z") at the front of the text is its container number. */
  lemma ContainerOfLeadingRun(head: string, tail: string)
    requires |head| >= 3 && LabelAt(head, 0, ContainerPrefix)
    requires forall k | 0 <= k < |head| :: IsAlnum(head[k])
    requires tail == [] || !IsAlnum(tail[0])
    ensures ContainerNumber(head + tail) == DropOfSuffix(head)
  {
    var t := head + tail;
    assert forall k | 0 <= k < |head| :: t[k] == head[k];
    assert MatchesAt(ContainerRun, t, 0);
    LeftmostAtStart(ContainerRun, t);
    RunEndIs(head, 2, Alnum, |head|);
    RunEndBeforeRest(head, tail, 2, Alnum);
    SliceOfConcat(head, tail, |head|);
  }

  /** A `1Z` run glued to "marks" gets " Marks" inserted before the word. */
  lemma GluedMarksSeparated(z: char, w: string, rest: string)
    requires z == 'Z' || z == 'z'
    requires |w| > 0 && forall k | 0 <= k < |w| :: IsAlnum(w[k])
    requires rest == [] || !IsAlnum(rest[0])
    ensures FixGluedMarks(['1', z] + w + MarksWord + rest)
         == (['1', z] + w) + (" Marks" + FixFrom(['1', z] + w + MarksWord + rest, |w| + 7))
  {
    var s := ['1', z] + w + MarksWord + rest;
    GlueSplitOfRun(z, w, rest);
    FixFromAtGlue(s, 0, |w| + 2, |w| + 7);
    assert s[0..|w| + 2] == ['1', z] + w;
  }

  /** A glued `1Z` run after a text ending outside `[A-Za-z0-9]` also gets " Marks" in place of its "marks". */
  lemma GluedMarksAfter(a: string, z: char, w: string, rest: string)
    requires |a| == 0 || !IsAlnum(a[|a| - 1])
    requires z == 'Z' || z == 'z'
    requires |w| > 0 && forall k | 0 <= k < |w| :: IsAlnum(w[k])
    requires rest == [] || !IsAlnum(rest[0])
    ensures var t := ['1', z] + w + MarksWord + rest;
      FixGluedMarks(a + t) == FixGluedMarks(a) + ((['1', z] + w) + (" Marks" + FixFrom(t, |w| + 7)))
  {
    var t := ['1', z] + w + MarksWord + rest;
    FixGluedMarksSplit(a, t);
    GluedMarksSeparated(z, w, rest);
  }

  /** After the fix-up, the container number of such a text is the run itself, less a trailing "of". */
  lemma GluedContainer(z: char, w: string, rest: string)
    requires z == 'Z' || z == 'z'
    requires |w| > 0 && forall k | 0 <= k < |w| :: IsAlnum(w[k])
    requires rest == [] || !IsAlnum(rest[0])
    ensures ContainerNumber(FixGluedMarks(['1', z] + w + MarksWord + rest)) == DropOfSuffix(['1', z] + w)
  {
    var head := ['1', z] + w;
    var tail := " Marks" + FixFrom(['1', z] + w + MarksWord + rest, |w| + 7);
    GluedMarksSeparated(z, w, rest);
    assert FixGluedMarks(['1', z] + w + MarksWord + rest) == head + tail;
    PrefixedRun(z, w);
    assert tail[0] == ' ';
    ContainerOfLeadingRun(head, tail);
  }

  /** "1Z" followed by an alphanumeric run is a `1Z` run. */
  lemma PrefixedRun(z: char, w: string)
    requires z == 'Z' || z == 'z'
    requires |w| > 0 && forall k | 0 <= k < |w| :: IsAlnum(w[k])
    ensures var head := ['1', z] + w;
      |head| >= 3 && LabelAt(head, 0, ContainerPrefix) && forall k | 0 <= k < |head| :: IsAlnum(head[k])
  {
    var head := ['1', z] + w;
    assert Lower(head[0]) == Lower(ContainerPrefix[0]) && Lower(head[1]) == Lower(ContainerPrefix[1]);
    assert forall k | 2 <= k < |head| :: head[k] == w[k - 2];
  }

  /** Unfolding step of FixFrom at a glued match: the text up to the end of group 1, " Marks", then the scan from `n`, past "marks". */
  lemma FixFromAtGlue(s: string, p: nat, g: nat, n: nat)
    requires p < |s| && GlueSplit(s, p) == Some(g) && n == g + |MarksWord|
    ensures p <= g && n <= |s|
    ensures FixFrom(s, p) == s[p..g] + (" Marks" + FixFrom(s, n))
  {
  }

  /** Unfolding step of FixFrom where no glued match starts: the character is kept and the scan moves on by one. */
  lemma FixFromAtPlain(s: string, p: nat, n: nat)
    requires p < |s| && GlueSplit(s, p) == None && n == p + 1
    ensures FixFrom(s, p) == [s[p]] + FixFrom(s, n)
  {
  }

  /** The text "1Z999AA10123456785marks" yields the container number "1Z999AA10123456785". */
  lemma GluedExample(s: string)
    requires s == "1Z999AA10123456785marks"
    ensures ContainerNumber(FixGluedMarks(s)) == "1Z999AA10123456785"
  {
    var w := "999AA10123456785";
    assert forall k | 0 <= k < |w| :: IsAlnum(w[k]);
    assert s == ['1', 'Z'] + w + MarksWord + "" by {
      assert ['1', 'Z'] + w == "1Z999AA10123456785";
    }
    GluedKeepsRun('Z', w, "");
    assert ['1', 'Z'] + w == "1Z999AA10123456785";
  }

  /** A glued run that does not end in "o" plus one more character is the container number whole. */
  lemma GluedKeepsRun(z: char, w: string, rest: string)
    requires z == 'Z' || z == 'z'
    requires |w| >= 2 && forall k | 0 <= k < |w| :: IsAlnum(w[k])
    requires w[|w| - 2] != 'o' && w[|w| - 2] != 'O'
    requires rest == [] || !IsAlnum(rest[0])
    ensures ContainerNumber(FixGluedMarks(['1', z] + w + MarksWord + rest)) == ['1', z] + w
  {
    var head := ['1', z] + w;
    assert DropOfSuffix(head) == head by {
      assert head[|head| - 2] == w[|w| - 2];
      DropOfSuffixKeeps(head);
    }
    GluedContainer(z, w, rest);
  }

  /** A run whose next-to-last character is no "o" keeps its end. */
  lemma DropOfSuffixKeeps(c: string)
    requires |c| < 2 || (c[|c| - 2] != 'o' && c[|c| - 2] != 'O')
    ensures DropOfSuffix(c) == c
  {
    if |c| >= 2 {
      assert Lower(c[|c| - 2]) != Lower("of"[0]);
    }
  }

  /** The description is the text after the label and its whitespace, up to the end of the line. */
  lemma DescriptionAfterLabel(gap: string, d: string, tail: string)
    requires forall k | 0 <= k < |gap| :: IsSpace(gap[k])
    requires |d| > 0 && !IsSpace(d[0]) && !IsSpace(d[|d| - 1])
    requires forall k | 0 <= k < |d| :: d[k] != '\n'
    requires tail == [] || tail[0] == '\n'
    ensures Description(DescriptionLabel + gap + d + tail) == d
  {
    var s := DescriptionLabel + gap + d + tail;
    var w := |DescriptionLabel| + |gap|;
    DescriptionGap(gap, d, tail);
    LeftmostAtStart(DescriptionText, s);
    assert RunEnd(s, w, LineChar) == w + |d| && s[w..w + |d|] == d by {
      assert forall m | w <= m < w + |d| :: s[m] == d[m - w];
      assert w + |d| < |s| ==> s[w + |d|] == tail[0];
      RunEndIs(s, w, LineChar, w + |d|);
    }
  }

  /** The label and its whitespace match, and the group starts where `d` does. */
  lemma DescriptionGap(gap: string, d: string, tail: string)
    requires forall k | 0 <= k < |gap| :: IsSpace(gap[k])
    requires |d| > 0 && !IsSpace(d[0]) && d[0] != '\n'
    ensures var s := DescriptionLabel + gap + d + tail;
      MatchesAt(DescriptionText, s, 0) && DescriptionStart(s, 0) == Some(|DescriptionLabel| + |gap|)
  {
    var s := DescriptionLabel + gap + d + tail;
    var w := |DescriptionLabel| + |gap|;
    LabelAtPrefix(s, DescriptionLabel, gap + d + tail);
    RunEndIs(gap, 0, Space, |gap|);
    assert s == DescriptionLabel + gap + (d + tail);
    RunEndShift(DescriptionLabel, gap, d + tail, 0, Space);
    assert s[w] == d[0];
  }

  /** Without a `1Z` run, the container number is the first token after "Number and kind" and its whitespace. */
  lemma ContainerAfterNumberAndKind(gap: string, tok: string, tail: string)
    requires forall k | 0 <= k < |gap| :: IsSpace(gap[k])
    requires |tok| > 0 && forall k | 0 <= k < |tok| :: !IsSpace(tok[k])
    requires tail == [] || IsSpace(tail[0])
    requires !HasMatch(ContainerRun, NumberAndKindLabel + gap + tok + tail)
    ensures ContainerNumber(NumberAndKindLabel + gap + tok + tail) == tok
  {
    var pre := NumberAndKindLabel + gap;
    var s := pre + tok + tail;
    var q := |pre|;
    NumberAndKindGap(gap, tok, tail);
    LeftmostAtStart(NumberAndKind, s);
    RunEndIs(tok, 0, NonSpace, |tok|);
    RunEndShift(pre, tok, tail, 0, NonSpace);
    assert s[q..q + |tok|] == tok;
  }

  /** The label and its whitespace match, and the whitespace ends where the token starts. */
  lemma NumberAndKindGap(gap: string, tok: string, tail: string)
    requires forall k | 0 <= k < |gap| :: IsSpace(gap[k])
    requires |tok| > 0 && !IsSpace(tok[0])
    ensures var s := NumberAndKindLabel + gap + tok + tail;
      NumberAndKindAt(s, 0) && RunEnd(s, |NumberAndKindLabel|, Space) == |NumberAndKindLabel| + |gap|
  {
    var s := NumberAndKindLabel + gap + tok + tail;
    LabelAtPrefix(s, NumberAndKindLabel, gap + tok + tail);
    RunEndIs(gap, 0, Space, |gap|);
    assert s == NumberAndKindLabel + gap + (tok + tail);
    RunEndShift(NumberAndKindLabel, gap, tok + tail, 0, Space);
  }

  /** One trailing "of", in any case, is cut from the container run: "1Z12345OF pkgs" gives "1Z12345". */
  lemma ContainerOfExample(s: string)
    requires s == "1Z12345OF pkgs"
    ensures ContainerNumber(s) == "1Z12345"
  {
    var head := "1Z12345OF";
    assert s == head + " pkgs";
    assert forall k | 0 <= k < |head| :: IsAlnum(head[k]);
    assert LabelAt(head, 0, ContainerPrefix);
    ContainerOfLeadingRun(head, " pkgs");
    DropOfExample(head);
  }

  /** "1Z12345OF" loses its trailing "OF". */
  lemma DropOfExample(head: string)
    requires head == "1Z12345OF"
    ensures DropOfSuffix(head) == "1Z12345"
  {
    assert LabelAt(head, |head| - 2, "of");
    assert head[..|head| - 2] == "1Z12345";
  }
}
