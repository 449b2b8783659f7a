/**
 * `parse_commodity_and_grossmass` (debug.py:40-58, and its copy at
 * ExtractInvoiceData.py:33-48): the HS commodity code and the gross mass
 * read from the joined text of column 12.
 */
module CustomsFields {
  import opened Text
  import opened Patterns

  /** `raw[:-2] if len(raw) >= 2 else raw`: the last two digits of the code are dropped. */
  function DropCheckDigits(raw: string): (r: string)
    ensures r <= raw
    ensures |r| == if |raw| >= 2 then |raw| - 2 else |raw|
  {
    if |raw| >= 2 then raw[..|raw| - 2] else raw
  }

  predicate AllDigits(s: string) {
    forall k | 0 <= k < |s| :: IsDigit(s[k])
  }

  /** The commodity code: the digit run after the first labelled code, less its last two digits. */
  function CommodityCode(s: string): (r: string)
    ensures AllDigits(r)
    ensures !HasMatch(CommodityDigits, s) ==> r == ""
  {
    match LeftmostMatch(CommodityDigits, s, 0)
    case Some(p) =>
      var start := p + |CommodityLabel|;
      DropCheckDigits(s[start..RunEnd(s, start, Digit)])
    case None => ""
  }

  /** A `\d+\.\d+` number and nothing else. */
  predicate IsDecimal(r: string) {
    DecimalAt(r, 0) && DecimalEnd(r, 0) == |r|
  }

  /** The gross mass: the decimal number after the first "35 Gross Mass (Kg)" label that has one. */
  function GrossMass(s: string): (r: string)
    ensures HasMatch(GrossMassNumber, s) ==> IsDecimal(r)
    ensures !HasMatch(GrossMassNumber, s) ==> r == ""
  {
    match LeftmostMatch(GrossMassNumber, s, 0)
    case Some(p) =>
      var q := GrossMassStart(s, p);
      var r := s[q..DecimalEnd(s, q)];
      DecimalOfSlice(s, q);
      r
    case None => ""
  }

  /** The number a `DecimalAt` position starts is itself a decimal. */
  lemma DecimalOfSlice(s: string, q: nat)
    requires q <= |s| && DecimalAt(s, q)
    ensures IsDecimal(s[q..DecimalEnd(s, q)])
  {
    var e := DecimalEnd(s, q);
    var r := s[q..e];
    var a := RunEnd(s, q, Digit);
    assert forall m | 0 <= m < |r| :: r[m] == s[q + m];
    RunEndIs(r, 0, Digit, a - q);
    RunEndIs(r, a - q + 1, Digit, |r|);
  }

  /** The labelled digit run loses its last two digits; a one-digit run is kept. */
  lemma CommodityAfterLabel(digits: string, rest: string)
    requires |digits| > 0 && AllDigits(digits)
    requires rest == [] || !IsDigit(rest[0])
    ensures CommodityCode(CommodityLabel + digits + rest) == DropCheckDigits(digits)
  {
    var s := CommodityLabel + digits + rest;
    var n := |CommodityLabel|;
    LabelAtPrefix(s, CommodityLabel, digits + rest);
    assert s[n] == digits[0];
    LeftmostAtStart(CommodityDigits, s);
    RunEndIs(digits, 0, Digit, |digits|);
    RunEndShift(CommodityLabel, digits, rest, 0, Digit);
    assert s[n..n + |digits|] == digits;
  }

  lemma CommodityExamples(six: string, one: string)
    requires six == CommodityLabel + "123456"
    requires one == CommodityLabel + "1"
    ensures CommodityCode(six) == "1234"
    ensures CommodityCode(one) == "1"
  {
    assert six == CommodityLabel + "123456" + "";
    CommodityAfterLabel("123456", "");
    assert one == CommodityLabel + "1" + "";
    CommodityAfterLabel("1", "");
  }

  /** A decimal number placed inside a text is found there, and ends where it ends. */
  lemma DecimalShift(pre: string, num: string, rest: string)
    requires IsDecimal(num)
    requires rest == [] || !IsDigit(rest[0])
    ensures DecimalAt(pre + num + rest, |pre|)
    ensures DecimalEnd(pre + num + rest, |pre|) == |pre| + |num|
  {
    var s := pre + num + rest;
    var a := RunEnd(num, 0, Digit);
    RunEndShift(pre, num, rest, 0, Digit);
    assert s[|pre| + a] == num[a];
    RunEndShift(pre, num, rest, a + 1, Digit);
  }

  /** The letters after the gross-mass label end where the number starts. */
  lemma LettersBeforeNumber(letters: string, num: string, rest: string)
    requires forall k | 0 <= k < |letters| :: IsAsciiLetter(letters[k])
    requires IsDecimal(num)
    ensures RunEnd(GrossMassLabel + letters + num + rest, |GrossMassLabel|, Letter)
         == |GrossMassLabel| + |letters|
  {
    var s := GrossMassLabel + letters + num + rest;
    var n := |GrossMassLabel|;
    assert forall m | n <= m < n + |letters| :: s[m] == letters[m - n];
    assert s[n + |letters|] == num[0];
    RunEndIs(s, n, Letter, n + |letters|);
  }

  /** After the label and any letters, the gross mass is the decimal number that follows. */
  lemma GrossMassAfterLabel(letters: string, num: string, rest: string)
    requires forall k | 0 <= k < |letters| :: IsAsciiLetter(letters[k])
    requires IsDecimal(num)
    requires rest == [] || !IsDigit(rest[0])
    ensures GrossMass(GrossMassLabel + letters + num + rest) == num
  {
    var pre := GrossMassLabel + letters;
    var s := pre + num + rest;
    LabelAtPrefix(s, GrossMassLabel, letters + num + rest);
    LettersBeforeNumber(letters, num, rest);
    DecimalShift(pre, num, rest);
    assert GrossMassStart(s, 0) == |pre|;
    assert GrossMassAt(s, 0);
    LeftmostAtStart(GrossMassNumber, s);
    GrossMassAtStart(s);
    assert s[|pre|..|pre| + |num|] == num;
  }

  /** A gross-mass match at the very start of the text gives its number. */
  lemma GrossMassAtStart(s: string)
    requires LeftmostMatch(GrossMassNumber, s, 0) == Some(0)
    ensures GrossMassAt(s, 0)
    ensures GrossMass(s) == s[GrossMassStart(s, 0)..DecimalEnd(s, GrossMassStart(s, 0))]
  {
  }
}
