/**
 * The Python string primitives the extractor relies on: the character
 * classes of its regular expressions, ASCII case folding for `(?i)` and
 * `case=False`, maximal runs of a class, `str.strip()` and `" ".join`.
 */
module Text {

  datatype Option<T> = None | Some(value: T)

  predicate IsDigit(c: char) { '0' <= c <= '9' }

  predicate IsAsciiLetter(c: char) { 'A' <= c <= 'Z' || 'a' <= c <= 'z' }

  /** The class `[A-Za-z0-9]`. */
  predicate IsAlnum(c: char) { IsAsciiLetter(c) || IsDigit(c) }

  /** Python's whitespace (`str.isspace()`, which is also what `\s` matches in a str pattern). */
  predicate IsSpace(c: char) {
    c == ' ' || '\t' <= c <= '\r' || '\U{1c}' <= c <= '\U{1f}' || c == '\U{85}' || c == '\U{a0}'
    || c == '\U{1680}' || '\U{2000}' <= c <= '\U{200a}' || c == '\U{2028}' || c == '\U{2029}'
    || c == '\U{202f}' || c == '\U{205f}' || c == '\U{3000}'
  }

  /** The class `[\d,\.]` of the numeric-token scan. */
  predicate IsNumChar(c: char) { IsDigit(c) || c == ',' || c == '.' }

  datatype CharClass = Digit | Letter | Alnum | Space | NonSpace | LineChar | NumChar

  predicate InClass(c: char, k: CharClass) {
    match k
    case Digit => IsDigit(c)
    case Letter => IsAsciiLetter(c)
    case Alnum => IsAlnum(c)
    case Space => IsSpace(c)
    case NonSpace => !IsSpace(c)
    case LineChar => c != '\n'   // what `.` matches without DOTALL
    case NumChar => IsNumChar(c)
  }

  /** End of the maximal run of class `k` that starts at `i`: what a greedy `k*` consumes. */
  function RunEnd(s: string, i: nat, k: CharClass): (j: nat)
    requires i <= |s|
    ensures i <= j <= |s|
    ensures forall m | i <= m < j :: InClass(s[m], k)
    ensures j == |s| || !InClass(s[j], k)
    decreases |s| - i
  {
    if i == |s| || !InClass(s[i], k) then i else RunEnd(s, i + 1, k)
  }

  /** A run end is determined by the two facts RunEnd promises. */
  lemma RunEndIs(s: string, i: nat, k: CharClass, j: nat)
    requires i <= j <= |s|
    requires forall m | i <= m < j :: InClass(s[m], k)
    requires j == |s| || !InClass(s[j], k)
    ensures RunEnd(s, i, k) == j
  {
  }

  /** A run of `t` seen inside `pre + t + post` ends at the same place, unless `post` continues it. */
  lemma RunEndShift(pre: string, t: string, post: string, i: nat, k: CharClass)
    requires i <= |t|
    requires RunEnd(t, i, k) < |t| || post == [] || !InClass(post[0], k)
    ensures RunEnd(pre + t + post, |pre| + i, k) == |pre| + RunEnd(t, i, k)
  {
    var s := pre + t + post;
    var j := RunEnd(t, i, k);
    assert forall m | |pre| + i <= m < |pre| + j :: s[m] == t[m - |pre|];
    if j < |t| {
      assert s[|pre| + j] == t[j];
    } else if post != [] {
      assert s[|pre| + j] == post[0];
    }
    RunEndIs(s, |pre| + i, k, |pre| + j);
  }

  /** ASCII lower-casing, the folding that `(?i)`, `case=False` and `str.lower()` apply here. */
  function Lower(c: char): char {
    if 'A' <= c <= 'Z' then (c as int + 32) as char else c
  }

  lemma LowerKeepsClass(c: char)
    ensures IsAlnum(Lower(c)) <==> IsAlnum(c)
    ensures IsAsciiLetter(c) ==> IsAsciiLetter(Lower(c))
    ensures !IsAsciiLetter(c) ==> Lower(c) == c
  {
  }

  /** The regex literal `lab` matches case-insensitively at position `p` of `s`. */
  predicate LabelAt(s: string, p: nat, lab: string) {
    p + |lab| <= |s| && forall k | 0 <= k < |lab| :: Lower(s[p + k]) == Lower(lab[k])
  }

  /** `re.search(lab, s, re.IGNORECASE)` for a pattern without metacharacters succeeds. */
  predicate ContainsCI(s: string, lab: string) {
    exists p | 0 <= p <= |s| :: LabelAt(s, p, lab)
  }

  /** A literal at position `j` of `u` is matched at the same place after any prefix. */
  lemma LabelAtShift(pre: string, u: string, j: nat, lab: string)
    requires j <= |u|
    ensures LabelAt(pre + u, |pre| + j, lab) == LabelAt(u, j, lab)
  {
    if j + |lab| <= |u| {
      assert forall k | 0 <= k < |lab| :: (pre + u)[|pre| + j + k] == u[j + k] && lab[k] == lab[k];
    }
  }

  /** A literal that fits inside `a` is matched the same whatever follows `a`. */
  lemma LabelAtLocal(a: string, b: string, j: nat, lab: string)
    requires j + |lab| <= |a|
    ensures LabelAt(a + b, j, lab) == LabelAt(a, j, lab)
  {
    assert forall k | 0 <= k < |lab| :: (a + b)[j + k] == a[j + k] && lab[k] == lab[k];
  }

  /** A run of class `k` inside `a`, whose last character is outside the class, ends the same whatever follows. */
  lemma {:induction false} RunEndLocal(a: string, b: string, i: nat, k: CharClass)
    requires i < |a| && !InClass(a[|a| - 1], k)
    ensures RunEnd(a + b, i, k) == RunEnd(a, i, k)
    decreases |a| - i
  {
    assert (a + b)[i] == a[i];
    if InClass(a[i], k) {
      RunEndLocal(a, b, i + 1, k);
    }
  }

  lemma LabelAtPrefix(s: string, lab: string, rest: string)
    requires s == lab + rest
    ensures LabelAt(s, 0, lab)
  {
    assert forall k | 0 <= k < |lab| :: s[k] == lab[k];
  }

  /** Start of the text that survives a right strip of `s[lo..j]`. */
  function TrailEnd(s: string, lo: nat, j: nat): (e: nat)
    requires lo <= j <= |s|
    ensures lo <= e <= j
    ensures forall k | e <= k < j :: IsSpace(s[k])
    ensures e == lo || !IsSpace(s[e - 1])
    decreases j
  {
    if j == lo || !IsSpace(s[j - 1]) then j else TrailEnd(s, lo, j - 1)
  }

  /** Python `s.strip()`. */
  function Strip(s: string): (r: string)
    ensures |r| <= |s|
    ensures r == [] || (!IsSpace(r[0]) && !IsSpace(r[|r| - 1]))
    ensures r == [] <==> forall k | 0 <= k < |s| :: IsSpace(s[k])
    ensures |s| > 0 && !IsSpace(s[0]) && !IsSpace(s[|s| - 1]) ==> r == s
    ensures forall c | c in r :: c in s
  {
    var i := RunEnd(s, 0, Space);
    s[i..TrailEnd(s, i, |s|)]
  }

  /** Stripping spaces around a word whose ends are not spaces gives the word. */
  lemma StripOfPadded(gap: string, word: string, gap2: string)
    requires forall k | 0 <= k < |gap| :: IsSpace(gap[k])
    requires forall k | 0 <= k < |gap2| :: IsSpace(gap2[k])
    requires |word| > 0 && !IsSpace(word[0]) && !IsSpace(word[|word| - 1])
    ensures Strip(gap + word + gap2) == word
  {
    var line := gap + word + gap2;
    var e := |gap| + |word|;
    assert forall k | 0 <= k < |word| :: line[|gap| + k] == word[k];
    assert forall k | e <= k < |line| :: line[k] == gap2[k - e];
    RunEndIs(line, 0, Space, |gap|);
    TrailEndIs(line, |gap|, e);
    assert line[|gap|..e] == word;
  }

  /** Where the right strip stops when only spaces follow a non-space. */
  lemma TrailEndIs(s: string, lo: nat, e: nat)
    requires lo < e <= |s| && !IsSpace(s[e - 1])
    requires forall k | e <= k < |s| :: IsSpace(s[k])
    ensures TrailEnd(s, lo, |s|) == e
    decreases |s| - e
  {
    if e < |s| {
      TrailEndDown(s, lo, e, |s|);
    }
  }

  lemma {:induction false} TrailEndDown(s: string, lo: nat, e: nat, j: nat)
    requires lo < e <= j <= |s| && !IsSpace(s[e - 1])
    requires forall k | e <= k < j :: IsSpace(s[k])
    ensures TrailEnd(s, lo, j) == e
    decreases j
  {
    if j > e {
      TrailEndDown(s, lo, e, j - 1);
    }
  }

  /** Python `" ".join(parts)`. */
  function JoinSpaces(parts: seq<string>): string
    decreases |parts|
  {
    if |parts| == 0 then ""
    else if |parts| == 1 then parts[0]
    else parts[0] + " " + JoinSpaces(parts[1..])
  }

  /** Python `s.replace('\n', ' ')`. */
  function NewlinesToSpaces(s: string): (r: string)
    ensures |r| == |s|
    ensures forall k | 0 <= k < |s| :: r[k] == (if s[k] == '\n' then ' ' else s[k])
  {
    seq(|s|, k requires 0 <= k < |s| => if s[k] == '\n' then ' ' else s[k])
  }

  /** Extending a prefix of `s` by its next element. A solver hint about sequences, not a fact about the extractor. */
  lemma AppendNext<T>(pre: seq<T>, s: seq<T>, j: nat)
    requires j < |s|
    ensures pre + s[..j] + [s[j]] == pre + s[..j + 1]
  {
    assert s[..j + 1] == s[..j] + [s[j]];
  }

  /** Cutting `a + b` inside `a`. A solver hint about sequences, not a fact about the extractor. */
  /** A slice of `u` read past a prefix. */
  lemma SliceAfterPrefix<T>(pre: seq<T>, u: seq<T>, i: nat, k: nat)
    requires i <= k <= |u|
    ensures (pre + u)[|pre| + i..|pre| + k] == u[i..k]
  {
  }

  /** A slice inside `a` read from `a + b`. */
  lemma SliceBeforeRest<T>(a: seq<T>, b: seq<T>, i: nat, k: nat)
    requires i <= k <= |a|
    ensures (a + b)[i..k] == a[i..k]
  {
  }

  lemma SliceOfConcat<T>(a: seq<T>, b: seq<T>, m: nat)
    requires m <= |a|
    ensures (a + b)[..m] == a[..m]
    ensures (a + b)[m..] == a[m..] + b
  {
  }

  /** A run inside `a` ends at the same place in `a + rest` when `rest` does not continue it. */
  lemma RunEndBeforeRest(a: string, rest: string, i: nat, k: CharClass)
    requires i <= |a|
    requires RunEnd(a, i, k) < |a| || rest == [] || !InClass(rest[0], k)
    ensures RunEnd(a + rest, i, k) == RunEnd(a, i, k)
  {
    var none: string := [];
    RunEndShift(none, a, rest, i, k);
    assert none + a == a;
  }

  /** Regrouping a concatenation. A solver hint about sequences, not a fact about the extractor. */
  lemma ConcatAssoc<T>(x: seq<T>, y: seq<T>, z: seq<T>)
    ensures x + (y + z) == x + y + z
  {
  }
}
