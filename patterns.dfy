/**
 * The regular expressions of the invoice parsers (debug.py:19-58 and
 * ExtractInvoiceData.py:13-48), each written out as a predicate "the pattern
 * matches at position p", together with the leftmost-position search that
 * `re.search` performs. Greedy quantifiers that may have to give characters
 * back are resolved by `LastAt`, which probes from the right.
 */
module Patterns {
  import opened Text

  const ContainerPrefix := "1Z"
  const NumberAndKindLabel := "Number and kind"
  const DescriptionLabel := "Description:"
  const CommodityLabel := "33 Commodity (HS) Code"
  const GrossMassLabel := "35 Gross Mass (Kg)"
  const MarksWord := "marks"

  /** What a backtracking quantifier needs to find right after the text it keeps. */
  datatype Probe = MarksFollows | LineCharFollows

  predicate ProbeAt(pr: Probe, s: string, q: nat) {
    match pr
    case MarksFollows => LabelAt(s, q, MarksWord)
    case LineCharFollows => q < |s| && s[q] != '\n'
  }

  /** The largest `q` in `[lo, hi]` satisfying the probe: the first one a greedy quantifier tries. */
  function LastAt(pr: Probe, s: string, lo: nat, hi: nat): (r: Option<nat>)
    requires hi <= |s|
    ensures r.Some? ==> lo <= r.value <= hi && ProbeAt(pr, s, r.value)
    ensures r.Some? ==> forall q | r.value < q <= hi :: !ProbeAt(pr, s, q)
    ensures r.None? ==> forall q | lo <= q <= hi :: !ProbeAt(pr, s, q)
    decreases hi
  {
    if hi < lo then None
    else if ProbeAt(pr, s, hi) then Some(hi)
    else if hi == lo then None
    else LastAt(pr, s, lo, hi - 1)
  }

  /** The greedy choice is `q` when the probe holds there and nowhere above it. */
  lemma {:induction false} LastAtIs(pr: Probe, s: string, lo: nat, hi: nat, q: nat)
    requires lo <= q <= hi <= |s| && ProbeAt(pr, s, q)
    requires forall v | q < v <= hi :: !ProbeAt(pr, s, v)
    ensures LastAt(pr, s, lo, hi) == Some(q)
    decreases hi
  {
    if hi > q {
      LastAtIs(pr, s, lo, hi - 1, q);
    }
  }

  /** An optional position moved `d` places to the right. */
  function ShiftBy(o: Option<nat>, d: nat): Option<nat> {
    match o
    case None => None
    case Some(q) => Some(q + d)
  }

  /** A probe looks only forward, so a prefix moves its answer without changing it. */
  lemma ProbeAtShift(pr: Probe, pre: string, u: string, q: nat)
    requires q <= |u|
    ensures ProbeAt(pr, pre + u, |pre| + q) == ProbeAt(pr, u, q)
  {
    match pr
    case MarksFollows => LabelAtShift(pre, u, q, MarksWord);
    case LineCharFollows =>
      if q < |u| {
        assert (pre + u)[|pre| + q] == u[q];
      }
  }

  /** The greedy back-off on `pre + u` is that on `u`, moved by `|pre|`. */
  lemma {:induction false} LastAtShift(pr: Probe, pre: string, u: string, lo: nat, hi: nat)
    requires hi <= |u|
    ensures LastAt(pr, pre + u, |pre| + lo, |pre| + hi) == ShiftBy(LastAt(pr, u, lo, hi), |pre|)
    decreases hi
  {
    ProbeAtShift(pr, pre, u, hi);
    if lo < hi && !ProbeAt(pr, u, hi) {
      LastAtShift(pr, pre, u, lo, hi - 1);
    }
  }

  /**
   * Where the group `(.+)` of `Description:\s*(.+)` starts when the label
   * sits at `p`: `\s*` first takes all the whitespace and gives back
   * characters until `.` (anything but a newline) can match.
   */
  function DescriptionStart(s: string, p: nat): Option<nat>
    requires LabelAt(s, p, DescriptionLabel)
  {
    var after := p + |DescriptionLabel|;
    LastAt(LineCharFollows, s, after, RunEnd(s, after, Space))
  }

  /** Start of the number in `35 Gross Mass \(Kg\)[A-Za-z]*(\d+\.\d+)` when the label sits at `p`. */
  function GrossMassStart(s: string, p: nat): nat
    requires LabelAt(s, p, GrossMassLabel)
  {
    RunEnd(s, p + |GrossMassLabel|, Letter)
  }

  /**
   * A `\d+\.\d+` number starts at `q`. Giving back letters or digits cannot
   * help, so it is there exactly when the maximal digit run at `q` is
   * followed by a dot and a second, non-empty digit run.
   */
  predicate DecimalAt(s: string, q: nat)
    requires q <= |s|
  {
    var a := RunEnd(s, q, Digit);
    q < a < |s| && s[a] == '.' && a + 1 < RunEnd(s, a + 1, Digit)
  }

  /** End of that number: the second digit run taken greedily. */
  function DecimalEnd(s: string, q: nat): nat
    requires q <= |s| && DecimalAt(s, q)
  {
    RunEnd(s, RunEnd(s, q, Digit) + 1, Digit)
  }

  /**
   * For `(1Z[A-Za-z0-9]+)(marks)` at `p`: the end of group 1. The greedy run
   * is given back until "marks" follows, so this is the LAST "marks" inside
   * the alphanumeric run, at least one character after "1Z".
   */
  function GlueSplit(s: string, p: nat): Option<nat>
    requires p <= |s|
  {
    if LabelAt(s, p, ContainerPrefix) then
      LastAt(MarksFollows, s, p + 3, RunEnd(s, p + 2, Alnum))
    else
      None
  }

  /** Group 1 of the glue pattern at `|pre| + j` of `pre + u` is that at `j` of `u`, moved by `|pre|`. */
  lemma GlueSplitShift(pre: string, u: string, j: nat)
    requires j <= |u|
    ensures GlueSplit(pre + u, |pre| + j) == ShiftBy(GlueSplit(u, j), |pre|)
  {
    LabelAtShift(pre, u, j, ContainerPrefix);
    if LabelAt(u, j, ContainerPrefix) {
      RunEndShift(pre, u, [], j + 2, Alnum);
      assert pre + u + [] == pre + u;
      LastAtShift(MarksFollows, pre, u, j + 3, RunEnd(u, j + 2, Alnum));
    }
  }

  datatype Pattern =
    | ContainerRun     // (?i)(1Z[A-Za-z0-9]+)(?![A-Za-z0-9])
    | NumberAndKind    // (?i)Number and kind\s*(\S+)
    | DescriptionText  // (?i)Description:\s*(.+)
    | CommodityDigits  // 33 Commodity \(HS\) Code(\d+), IGNORECASE
    | GrossMassNumber  // 35 Gross Mass \(Kg\)[A-Za-z]*(\d+\.\d+), IGNORECASE
    | GluedMarks       // (?i)(1Z[A-Za-z0-9]+)(marks)

  /** The pattern matches starting at position `p`. */
  predicate MatchesAt(pat: Pattern, s: string, p: nat)
    requires p <= |s|
  {
    match pat
    case ContainerRun => ContainerRunAt(s, p)
    case NumberAndKind => NumberAndKindAt(s, p)
    case DescriptionText => DescriptionAt(s, p)
    case CommodityDigits => CommodityDigitsAt(s, p)
    case GrossMassNumber => GrossMassAt(s, p)
    case GluedMarks => GluedMarksAt(s, p)
  }

  /** "1Z" and at least one alphanumeric; the maximal run always passes the negative lookahead. */
  predicate ContainerRunAt(s: string, p: nat) {
    LabelAt(s, p, ContainerPrefix) && p + 2 < |s| && IsAlnum(s[p + 2])
  }

  /** The label, then `\s*` must stop at a non-space for `\S+` to match. */
  predicate NumberAndKindAt(s: string, p: nat) {
    LabelAt(s, p, NumberAndKindLabel) && RunEnd(s, p + |NumberAndKindLabel|, Space) < |s|
  }

  predicate CommodityDigitsAt(s: string, p: nat) {
    LabelAt(s, p, CommodityLabel) && p + |CommodityLabel| < |s| && IsDigit(s[p + |CommodityLabel|])
  }

  /** The label, then `.+` can start somewhere inside or right after the whitespace. */
  predicate DescriptionAt(s: string, p: nat) {
    LabelAt(s, p, DescriptionLabel) && DescriptionStart(s, p).Some?
  }

  predicate GrossMassAt(s: string, p: nat) {
    LabelAt(s, p, GrossMassLabel) && DecimalAt(s, GrossMassStart(s, p))
  }

  predicate GluedMarksAt(s: string, p: nat) {
    p <= |s| && GlueSplit(s, p).Some?
  }

  predicate HasMatch(pat: Pattern, s: string) {
    exists p | 0 <= p <= |s| :: MatchesAt(pat, s, p)
  }

  /** The first index, from `from` on, where `bs` holds. */
  function FirstTrue(bs: seq<bool>, from: nat): (r: Option<nat>)
    requires from <= |bs|
    ensures r.Some? ==> from <= r.value < |bs| && bs[r.value]
    ensures r.Some? ==> forall q | from <= q < r.value :: !bs[q]
    ensures r.None? ==> forall q | from <= q < |bs| :: !bs[q]
    decreases |bs| - from
  {
    if from == |bs| then None
    else if bs[from] then Some(from)
    else FirstTrue(bs, from + 1)
  }

  /** `re.search`: the first position, from `from` on, where the pattern matches. */
  function LeftmostMatch(pat: Pattern, s: string, from: nat): (r: Option<nat>)
    requires from <= |s|
    ensures r.Some? ==> from <= r.value <= |s| && MatchesAt(pat, s, r.value)
    ensures r.Some? ==> forall q | from <= q < r.value :: !MatchesAt(pat, s, q)
    ensures r.None? ==> forall q | from <= q <= |s| :: !MatchesAt(pat, s, q)
  {
    var bs := seq(|s| + 1, q requires 0 <= q <= |s| => MatchesAt(pat, s, q));
    assert forall q | 0 <= q <= |s| :: bs[q] == MatchesAt(pat, s, q);
    FirstTrue(bs, from)
  }

  lemma LeftmostAtStart(pat: Pattern, s: string)
    requires MatchesAt(pat, s, 0)
    ensures LeftmostMatch(pat, s, 0) == Some(0)
  {
  }
}
