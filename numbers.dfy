/**
 * `parse_all_numbers` and `parse_item_price` (debug.py:60-82), and the
 * `list.remove` that the price fallback applies to their result
 * (debug.py:151-152).
 */
module Numbers {
  import opened Text

  /**
   * `re.findall(r"[\d,\.]+", s)`: the maximal runs of digits, commas and
   * dots, left to right.
   */
  function NumericTokens(s: string): (ts: seq<string>)
    ensures forall t | t in ts :: |t| > 0 && forall k | 0 <= k < |t| :: IsNumChar(t[k])
    decreases |s|
  {
    if |s| == 0 then []
    else if !IsNumChar(s[0]) then NumericTokens(s[1..])
    else
      var n := RunEnd(s, 0, NumChar);
      [s[..n]] + NumericTokens(s[n..])
  }

  /** A single run of numeric characters is one token. */
  lemma TokensOfRun(t: string)
    requires |t| > 0 && forall k | 0 <= k < |t| :: IsNumChar(t[k])
    ensures NumericTokens(t) == [t]
  {
    RunEndIs(t, 0, NumChar, |t|);
    assert t[..|t|] == t;
    assert t[|t|..] == [];
  }

  /** A character outside the class is skipped. */
  lemma TokensSkip(s: string)
    requires |s| > 0 && !IsNumChar(s[0])
    ensures NumericTokens(s) == NumericTokens(s[1..])
  {
  }

  /** A maximal run at the front is the first token. */
  lemma TokensTake(s: string)
    requires |s| > 0 && IsNumChar(s[0])
    ensures NumericTokens(s) == [s[..RunEnd(s, 0, NumChar)]] + NumericTokens(s[RunEnd(s, 0, NumChar)..])
  {
  }

  /** A character outside the class splits the scan into two independent scans. */
  lemma {:induction false} TokensSeparated(a: string, c: char, b: string)
    requires !IsNumChar(c)
    ensures NumericTokens(a + [c] + b) == NumericTokens(a) + NumericTokens(b)
    decreases |a|
  {
    var s := a + [c] + b;
    if |a| == 0 {
      assert s[1..] == b;
      TokensSkip(s);
    } else if !IsNumChar(a[0]) {
      TokensSeparatedSkip(a, c, b);
    } else {
      TokensSeparatedTake(a, c, b);
    }
  }

  lemma {:induction false} TokensSeparatedSkip(a: string, c: char, b: string)
    requires !IsNumChar(c) && |a| > 0 && !IsNumChar(a[0])
    ensures NumericTokens(a + [c] + b) == NumericTokens(a) + NumericTokens(b)
    decreases |a|, 0
  {
    var s := a + [c] + b;
    assert s[0] == a[0];
    assert s[1..] == a[1..] + [c] + b;
    TokensSkip(s);
    TokensSkip(a);
    TokensSeparated(a[1..], c, b);
  }

  lemma {:induction false} TokensSeparatedTake(a: string, c: char, b: string)
    requires !IsNumChar(c) && |a| > 0 && IsNumChar(a[0])
    ensures NumericTokens(a + [c] + b) == NumericTokens(a) + NumericTokens(b)
    decreases |a|, 0
  {
    var m := RunEnd(a, 0, NumChar);
    var t := a[m..];
    calc {
      NumericTokens(a + [c] + b);
    == { ConcatAssoc(a, [c], b); }
      NumericTokens(a + ([c] + b));
    == { TokensTakeFront(a, [c] + b); }
      [a[..m]] + NumericTokens(t + ([c] + b));
    == { ConcatAssoc(t, [c], b); TokensSeparated(t, c, b); }
      [a[..m]] + (NumericTokens(t) + NumericTokens(b));
    == { ConcatAssoc([a[..m]], NumericTokens(t), NumericTokens(b)); }
      [a[..m]] + NumericTokens(t) + NumericTokens(b);
    == { TokensTake(a); }
      NumericTokens(a) + NumericTokens(b);
    }
  }

  /** The first run of `a` stays the first token when what follows `a` does not continue it. */
  lemma TokensTakeFront(a: string, rest: string)
    requires |a| > 0 && IsNumChar(a[0])
    requires rest == [] || !IsNumChar(rest[0])
    ensures NumericTokens(a + rest) ==
      [a[..RunEnd(a, 0, NumChar)]] + NumericTokens(a[RunEnd(a, 0, NumChar)..] + rest)
  {
    var m := RunEnd(a, 0, NumChar);
    RunEndBeforeRest(a, rest, 0, NumChar);
    SliceOfConcat(a, rest, m);
    TokensTake(a + rest);
  }

  /** Turning newlines into spaces, as the scan first does, never changes its tokens. */
  lemma {:induction false} TokensIgnoreNewlines(s: string)
    ensures NumericTokens(NewlinesToSpaces(s)) == NumericTokens(s)
    decreases |s|
  {
    var r := NewlinesToSpaces(s);
    if |s| > 0 {
      if !IsNumChar(s[0]) {
        assert r[1..] == NewlinesToSpaces(s[1..]);
        TokensIgnoreNewlines(s[1..]);
      } else {
        var n := RunEnd(s, 0, NumChar);
        RunEndIs(r, 0, NumChar, n);
        assert r[..n] == s[..n];
        assert r[n..] == NewlinesToSpaces(s[n..]);
        TokensIgnoreNewlines(s[n..]);
      }
    }
  }

  /** `t.replace(c, '')`. */
  function RemoveChar(t: string, c: char): (r: string)
    ensures c !in r
    ensures forall d :: d in r <==> d in t && d != c
    ensures forall d | d != c :: multiset(r)[d] == multiset(t)[d]
    decreases |t|
  {
    if |t| == 0 then ""
    else
      var rest := RemoveChar(t[1..], c);
      assert t == [t[0]] + t[1..];
      if t[0] == c then rest else [t[0]] + rest
  }

  /** `val.replace(',', '').replace('.', '')`. */
  function Collapse(t: string): (r: string)
    ensures ',' !in r && '.' !in r
    ensures forall d | d != ',' && d != '.' :: multiset(r)[d] == multiset(t)[d]
  {
    RemoveChar(RemoveChar(t, ','), '.')
  }

  /** The tokens the number scan skips. */
  predicate IsBoilerplate(t: string) {
    Collapse(t) == "42"
  }

  /** The tokens that survive the boilerplate filter, in their order. */
  function KeepNumbers(ts: seq<string>): (r: seq<string>)
    ensures |r| <= |ts|
    ensures forall t :: t in r <==> t in ts && !IsBoilerplate(t)
    decreases |ts|
  {
    if |ts| == 0 then []
    else
      var init := KeepNumbers(ts[..|ts| - 1]);
      var last := ts[|ts| - 1];
      assert ts == ts[..|ts| - 1] + [last];
      if IsBoilerplate(last) then init else init + [last]
  }

  /** The filter works on each part of a list separately. */
  lemma {:induction false} KeepConcat(a: seq<string>, b: seq<string>)
    ensures KeepNumbers(a + b) == KeepNumbers(a) + KeepNumbers(b)
    decreases |b|
  {
    if |b| > 0 {
      var b' := b[..|b| - 1];
      assert (a + b)[..|a + b| - 1] == a + b';
      assert (a + b)[|a + b| - 1] == b[|b| - 1];
      KeepConcat(a, b');
    } else {
      assert a + b == a;
    }
  }

  /** What `parse_all_numbers(text)` returns. */
  function CleanedNumbers(text: string): (r: seq<string>)
    ensures forall t | t in r :: |t| > 0 && forall k | 0 <= k < |t| :: IsNumChar(t[k])
    ensures forall t | t in r :: !IsBoilerplate(t)
  {
    KeepNumbers(NumericTokens(NewlinesToSpaces(text)))
  }

  /** The numbers are those of the raw text: the newline replacement is immaterial. */
  lemma CleanedNumbersIgnoreNewlines(text: string)
    ensures CleanedNumbers(text) == KeepNumbers(NumericTokens(text))
  {
    TokensIgnoreNewlines(text);
  }

  /** `parse_all_numbers`: scan the tokens and keep those that do not collapse to "42". */
  method ParseAllNumbers(text: string) returns (cleaned: seq<string>)
    ensures cleaned == CleanedNumbers(text)
  {
    var nums := NumericTokens(NewlinesToSpaces(text));
    cleaned := [];
    for i := 0 to |nums|
      invariant cleaned == KeepNumbers(nums[..i])
    {
      assert nums[..i + 1] == nums[..i] + [nums[i]];
      if Collapse(nums[i]) == "42" {
        continue;
      }
      cleaned := cleaned + [nums[i]];
    }
    assert nums[..|nums|] == nums;
  }

  /** Two texts joined by a space give the numbers of the first, then those of the second. */
  lemma CleanedNumbersSeparated(a: string, b: string)
    ensures CleanedNumbers(a + " " + b) == CleanedNumbers(a) + CleanedNumbers(b)
  {
    var na := NewlinesToSpaces(a);
    var nb := NewlinesToSpaces(b);
    assert NewlinesToSpaces(a + " " + b) == na + [' '] + nb;
    TokensSeparated(na, ' ', nb);
    KeepConcat(NumericTokens(na), NumericTokens(nb));
  }

  lemma CollapseExamples()
    ensures Collapse("42") == "42"
    ensures Collapse("31.80") == "3180"
    ensures Collapse("42.50") == "4250"
  {
    CollapsePlain("42");
    assert "31.80" == "31" + "." + "80";
    CollapseDecimal("31", "80");
    assert "42.50" == "42" + "." + "50";
    CollapseDecimal("42", "50");
  }

  /** Text without separators collapses to itself. */
  lemma CollapsePlain(a: string)
    requires ',' !in a && '.' !in a
    ensures Collapse(a) == a
  {
    RemoveAbsent(a, ',');
    RemoveAbsent(a, '.');
  }

  /** A dot between two separator-free parts is dropped. */
  lemma CollapseDecimal(a: string, b: string)
    requires ',' !in a && '.' !in a && ',' !in b && '.' !in b
    ensures Collapse(a + "." + b) == a + b
  {
    var t := a + "." + b;
    assert ',' !in t;
    RemoveAbsent(t, ',');
    RemoveAround(a, '.', b);
    RemoveAbsent(a, '.');
    RemoveAbsent(b, '.');
  }

  /** Removing a character that does not occur changes nothing. */
  lemma {:induction false} RemoveAbsent(t: string, c: char)
    requires c !in t
    ensures RemoveChar(t, c) == t
    decreases |t|
  {
    if |t| > 0 {
      RemoveAbsent(t[1..], c);
    }
  }

  /** Removing `c` around one occurrence of it: both sides lose theirs and the occurrence goes. */
  lemma {:induction false} RemoveAround(a: string, c: char, b: string)
    ensures RemoveChar(a + [c] + b, c) == RemoveChar(a, c) + RemoveChar(b, c)
    decreases |a|
  {
    var s := a + [c] + b;
    if |a| == 0 {
      assert s[1..] == b;
    } else {
      assert s[0] == a[0];
      assert s[1..] == a[1..] + [c] + b;
      RemoveAround(a[1..], c, b);
    }
  }

  /** Numeric runs separated by a space are the tokens, in order. */
  lemma TokensOfRuns(a: string, b: string)
    requires |a| > 0 && forall k | 0 <= k < |a| :: IsNumChar(a[k])
    requires |b| > 0 && forall k | 0 <= k < |b| :: IsNumChar(b[k])
    ensures NumericTokens(a + " " + b) == [a, b]
  {
    TokensOfRun(a);
    TokensOfRun(b);
    TokensSeparated(a, ' ', b);
  }

  lemma TokensOfThree(a: string, b: string, c: string)
    requires |a| > 0 && forall k | 0 <= k < |a| :: IsNumChar(a[k])
    requires |b| > 0 && forall k | 0 <= k < |b| :: IsNumChar(b[k])
    requires |c| > 0 && forall k | 0 <= k < |c| :: IsNumChar(c[k])
    ensures NumericTokens(a + " " + b + " " + c) == [a, b, c]
  {
    var bc := b + " " + c;
    TokensOfRuns(b, c);
    TokensOfRun(a);
    TokensSeparated(a, ' ', bc);
    ConcatAssoc(a + " ", b + " ", c);
    ConcatAssoc(a + " ", b, " ");
  }

  lemma TokensExample(text: string)
    requires text == "42 31.80 42.50"
    ensures NumericTokens(text) == ["42", "31.80", "42.50"]
  {
    var a, b, c := "42", "31.80", "42.50";
    assert text == a + " " + b + " " + c;
    assert forall k | 0 <= k < |b| :: IsNumChar(b[k]);
    assert forall k | 0 <= k < |c| :: IsNumChar(c[k]);
    TokensOfThree(a, b, c);
  }

  lemma KeepExample(ts: seq<string>)
    requires ts == ["42", "31.80", "42.50"]
    ensures KeepNumbers(ts) == ["31.80", "42.50"]
  {
    CollapseExamples();
    assert ts[..2][..1] == ["42"];
    assert ts[..2] == ["42", "31.80"];
    assert KeepNumbers(["42"]) == [];
    assert KeepNumbers(ts[..2]) == ["31.80"];
  }

  /** "42 31.80 42.50" yields ["31.80", "42.50"]. */
  lemma CleanedNumbersExample(text: string)
    requires text == "42 31.80 42.50"
    ensures CleanedNumbers(text) == ["31.80", "42.50"]
  {
    CleanedNumbersIgnoreNewlines(text);
    TokensExample(text);
    KeepExample(NumericTokens(text));
  }

  /** `xs[-1]` under `if xs`: the last element of a list of numbers, or "" for none. */
  function LastOr(xs: seq<string>): string {
    if |xs| > 0 then xs[|xs| - 1] else ""
  }

  /** `parse_item_price`: the last number of the text, or "" when it has none. */
  function ItemPrice(text: string): (r: string)
    ensures r == "" <==> CleanedNumbers(text) == []
    ensures r != "" ==> r in CleanedNumbers(text) && !IsBoilerplate(r)
  {
    LastOr(CleanedNumbers(text))
  }

  /** The price of two texts joined by a space is the second one's, unless it has no numbers. */
  lemma ItemPriceOfJoin(a: string, b: string)
    ensures CleanedNumbers(b) != [] ==> ItemPrice(a + " " + b) == ItemPrice(b)
    ensures CleanedNumbers(b) == [] ==> ItemPrice(a + " " + b) == ItemPrice(a)
  {
    CleanedNumbersSeparated(a, b);
    LastOfConcat(CleanedNumbers(a), CleanedNumbers(b));
  }

  /** The last element of a concatenation. */
  lemma LastOfConcat(xs: seq<string>, ys: seq<string>)
    ensures ys != [] ==> LastOr(xs + ys) == LastOr(ys)
    ensures ys == [] ==> LastOr(xs + ys) == LastOr(xs)
  {
    if ys == [] {
      assert xs + ys == xs;
    }
  }

  /** `xs.index(x)`. */
  function FirstIndex(xs: seq<string>, x: string): (i: nat)
    requires x in xs
    ensures i < |xs| && xs[i] == x && x !in xs[..i]
    decreases |xs|
  {
    if xs[0] == x then 0
    else
      var j := FirstIndex(xs[1..], x);
      assert xs[..j + 1] == [xs[0]] + xs[1..][..j];
      j + 1
  }

  /** `xs.remove(x)` where `x in xs` has been checked: the first occurrence goes. */
  function RemoveFirst(xs: seq<string>, x: string): (r: seq<string>)
    requires x in xs
    ensures r == xs[..FirstIndex(xs, x)] + xs[FirstIndex(xs, x) + 1..]
    ensures multiset(r) == multiset(xs) - multiset{x}
    decreases |xs|
  {
    if xs[0] == x then
      assert xs == [x] + xs[1..];
      xs[1..]
    else
      var tail := xs[1..];
      var rest := RemoveFirst(tail, x);
      RemoveFirstCons(xs, x, rest);
      [xs[0]] + rest
  }

  lemma RemoveFirstCons(xs: seq<string>, x: string, rest: seq<string>)
    requires |xs| > 0 && xs[0] != x && x in xs[1..]
    requires rest == xs[1..][..FirstIndex(xs[1..], x)] + xs[1..][FirstIndex(xs[1..], x) + 1..]
    requires multiset(rest) == multiset(xs[1..]) - multiset{x}
    ensures [xs[0]] + rest == xs[..FirstIndex(xs, x)] + xs[FirstIndex(xs, x) + 1..]
    ensures multiset([xs[0]] + rest) == multiset(xs) - multiset{x}
  {
    FirstIndexCons(xs, x);
    SpliceCons(xs, FirstIndex(xs[1..], x));
    MultisetCons(xs, x, rest);
  }

  lemma FirstIndexCons(xs: seq<string>, x: string)
    requires |xs| > 0 && xs[0] != x && x in xs[1..]
    ensures FirstIndex(xs, x) == FirstIndex(xs[1..], x) + 1
  {
  }

  /** Cutting out position `j + 1` of `xs` is cutting out position `j` of its tail. */
  lemma SpliceCons(xs: seq<string>, j: nat)
    requires j + 1 < |xs|
    ensures xs[..j + 1] + xs[j + 2..] == [xs[0]] + (xs[1..][..j] + xs[1..][j + 1..])
  {
    var tail := xs[1..];
    assert xs[..j + 1] == [xs[0]] + tail[..j];
    assert xs[j + 2..] == tail[j + 1..];
  }

  lemma MultisetCons(xs: seq<string>, x: string, rest: seq<string>)
    requires |xs| > 0 && xs[0] != x
    requires multiset(rest) == multiset(xs[1..]) - multiset{x}
    ensures multiset([xs[0]] + rest) == multiset(xs) - multiset{x}
  {
    assert xs == [xs[0]] + xs[1..];
  }
}
