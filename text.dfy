/**
 * Character classes and the small string primitives the evaluator relies on:
 * maximal-munch scanners (the building blocks of the dedicated pattern
 * matchers), Python's `str.replace`, `str.strip` and `str.split`.
 *
 * Regular-expression classes are modelled on ASCII: `\d` is `0`-`9` and `\s`
 * is the six ASCII white-space characters.
 */
module Text {

  import opened Wrappers

  /** `\d` */
  predicate IsDigit(c: char) {
    '0' <= c <= '9'
  }

  /** `[a-zA-Z]` */
  predicate IsLetter(c: char) {
    'a' <= c <= 'z' || 'A' <= c <= 'Z'
  }

  /**
   * `\s` on ASCII. `str.strip` uses the same six characters here, although
   * Python's removes more (the separators `\x1c`-`\x1f`, `\x85` and the
   * Unicode spaces).
   */
  predicate IsSpace(c: char) {
    c == ' ' || c == '\t' || c == '\n' || c == '\r' || c == '\U{000B}' || c == '\U{000C}'
  }

  predicate AllDigits(w: string) {
    forall k :: 0 <= k < |w| ==> IsDigit(w[k])
  }

  predicate AllLetters(w: string) {
    forall k :: 0 <= k < |w| ==> IsLetter(w[k])
  }

  predicate AllSpaces(w: string) {
    forall k :: 0 <= k < |w| ==> IsSpace(w[k])
  }

  /** The text of a literal `\d+(\.\d+)?`: digits, optionally a point and more digits. */
  predicate IsDecimal(w: string) {
    || (|w| > 0 && AllDigits(w))
    || (exists k :: 0 < k < |w| - 1 && w[k] == '.' && AllDigits(w[..k]) && AllDigits(w[k + 1..]))
  }

  /** End of the maximal run of white space starting at `i`. */
  function SkipSpaces(s: string, i: nat): (j: nat)
    requires i <= |s|
    ensures i <= j <= |s|
    ensures j == |s| || !IsSpace(s[j])
    decreases |s| - i
  {
    if i < |s| && IsSpace(s[i]) then SkipSpaces(s, i + 1) else i
  }

  /** Everything SkipSpaces skips is white space. */
  lemma {:induction false} SkipSpacesReadsSpaces(s: string, i: nat)
    requires i <= |s|
    ensures forall k :: i <= k < SkipSpaces(s, i) ==> IsSpace(s[k])
    decreases |s| - i
  {
    if i < |s| && IsSpace(s[i]) {
      SkipSpacesReadsSpaces(s, i + 1);
    }
  }

  /** White space from `i` up to `i + n`, then something else: `SkipSpaces` stops at `i + n`. */
  lemma {:induction false} SkipSpacesOver(s: string, i: nat, n: nat)
    requires i + n < |s|
    requires forall k :: i <= k < i + n ==> IsSpace(s[k])
    requires !IsSpace(s[i + n])
    ensures SkipSpaces(s, i) == i + n
    decreases n
  {
    if n > 0 {
      SkipSpacesOver(s, i + 1, n - 1);
    }
  }

  /** End of the maximal run of digits starting at `i`. */
  function DigitsEnd(s: string, i: nat): (j: nat)
    requires i <= |s|
    ensures i <= j <= |s|
    ensures j == |s| || !IsDigit(s[j])
    decreases |s| - i
  {
    if i < |s| && IsDigit(s[i]) then DigitsEnd(s, i + 1) else i
  }

  /** Everything DigitsEnd skips is digits. */
  lemma {:induction false} DigitsEndReadsDigits(s: string, i: nat)
    requires i <= |s|
    ensures forall k :: i <= k < DigitsEnd(s, i) ==> IsDigit(s[k])
    decreases |s| - i
  {
    if i < |s| && IsDigit(s[i]) {
      DigitsEndReadsDigits(s, i + 1);
    }
  }

  /** End of the maximal run of letters starting at `i`. */
  function LettersEnd(s: string, i: nat): (j: nat)
    requires i <= |s|
    ensures i <= j <= |s|
    ensures j == |s| || !IsLetter(s[j])
    decreases |s| - i
  {
    if i < |s| && IsLetter(s[i]) then LettersEnd(s, i + 1) else i
  }

  /** Everything LettersEnd skips is letters. */
  lemma {:induction false} LettersEndReadsLetters(s: string, i: nat)
    requires i <= |s|
    ensures forall k :: i <= k < LettersEnd(s, i) ==> IsLetter(s[k])
    decreases |s| - i
  {
    if i < |s| && IsLetter(s[i]) {
      LettersEndReadsLetters(s, i + 1);
    }
  }

  /** A run of `n` letters followed by a non-letter is read by LettersEnd as a whole. */
  lemma {:induction false} LettersEndOfLetters(s: string, i: nat, n: nat)
    requires i + n <= |s|
    requires forall k :: i <= k < i + n ==> IsLetter(s[k])
    requires i + n == |s| || !IsLetter(s[i + n])
    ensures LettersEnd(s, i) == i + n
    decreases n
  {
    if n > 0 {
      LettersEndOfLetters(s, i + 1, n - 1);
    }
  }

  /**
   * The end of the decimal literal `\d+(\.\d+)?` that starts at `i`, if one
   * does. Both quantifiers are greedy and every character that may follow a
   * literal in the patterns of this model is neither a digit nor a point, so
   * backtracking never yields a different match: the longest literal is the
   * only one.
   */
  function NumberEnd(s: string, i: nat): (r: Option<nat>)
    requires i <= |s|
    ensures r.Some? ==> i < r.value <= |s|
    ensures r.Some? ==> r.value == |s| || !IsDigit(s[r.value])
    ensures r.None? <==> i == |s| || !IsDigit(s[i])
  {
    var d := DigitsEnd(s, i);
    if d == i then None
    else if d < |s| && s[d] == '.' && DigitsEnd(s, d + 1) > d + 1 then Some(DigitsEnd(s, d + 1))
    else Some(d)
  }

  /** What NumberEnd reads is a decimal literal. */
  lemma NumberEndReadsDecimal(s: string, i: nat)
    requires i <= |s| && NumberEnd(s, i).Some?
    ensures IsDecimal(s[i..NumberEnd(s, i).value])
  {
    var d := DigitsEnd(s, i);
    var e := NumberEnd(s, i).value;
    var w := s[i..e];
    DigitsEndReadsDigits(s, i);
    if e == d {
      AllDigitsOfSlice(s, i, d);
    } else {
      var k := d - i;
      assert w[k] == '.';
      assert w[..k] == s[i..d] && w[k + 1..] == s[d + 1..e];
      DigitsEndReadsDigits(s, d + 1);
      AllDigitsOfSlice(s, i, d);
      AllDigitsOfSlice(s, d + 1, e);
    }
  }

  lemma AllDigitsOfSlice(s: string, i: nat, j: nat)
    requires i <= j <= |s|
    requires forall k :: i <= k < j ==> IsDigit(s[k])
    ensures AllDigits(s[i..j])
  {
    forall k | 0 <= k < j - i
      ensures IsDigit(s[i..j][k])
    {
      assert s[i..j][k] == s[i + k];
    }
  }

  lemma {:induction false} DigitsEndOfDigits(s: string, i: nat, n: nat)
    requires i + n <= |s|
    requires forall k :: i <= k < i + n ==> IsDigit(s[k])
    requires i + n == |s| || !IsDigit(s[i + n])
    ensures DigitsEnd(s, i) == i + n
    decreases n
  {
    if n > 0 {
      DigitsEndOfDigits(s, i + 1, n - 1);
    }
  }

  /**
   * A decimal literal `w` written at `i` and followed by a character that can
   * neither extend it nor start a fraction is read back exactly by NumberEnd.
   */
  lemma NumberEndOfLiteral(s: string, i: nat, w: string)
    requires i + |w| < |s| && s[i..i + |w|] == w && IsDecimal(w)
    requires !IsDigit(s[i + |w|]) && s[i + |w|] != '.'
    ensures NumberEnd(s, i) == Some(i + |w|)
  {
    SliceWrittenAt(s, i, w);
    if |w| > 0 && AllDigits(w) {
      forall j | i <= j < i + |w|
        ensures IsDigit(s[j])
      {
        assert s[i + (j - i)] == w[j - i];
      }
      DigitsEndOfDigits(s, i, |w|);
    } else {
      var k :| 0 < k < |w| - 1 && w[k] == '.' && AllDigits(w[..k]) && AllDigits(w[k + 1..]);
      FractionDigits(s, i, w, k);
      FractionEnd(s, i, k, |w|);
    }
  }

  /** The digits of `w` before and after its point `k`, where `w` is written at `i`. */
  lemma FractionDigits(s: string, i: nat, w: string, k: nat)
    requires WrittenAt(s, i, w) && 0 < k < |w| - 1 && w[k] == '.' && AllDigits(w[..k]) && AllDigits(w[k + 1..])
    ensures forall j :: i <= j < i + k ==> IsDigit(s[j])
    ensures s[i + k] == '.'
    ensures forall j :: i + k + 1 <= j < i + |w| ==> IsDigit(s[j])
  {
    forall j | i <= j < i + k
      ensures IsDigit(s[j])
    {
      assert s[i + (j - i)] == w[..k][j - i];
    }
    assert s[i + k] == w[k];
    forall j | i + k + 1 <= j < i + |w|
      ensures IsDigit(s[j])
    {
      assert s[i + (j - i)] == w[k + 1..][j - i - k - 1];
    }
  }

  /** Digits on `[i, i + k)`, a point, digits on `(i + k, i + n)` and then no digit: NumberEnd stops at `i + n`. */
  lemma FractionEnd(s: string, i: nat, k: nat, n: nat)
    requires 0 < k < n - 1 && i + n < |s| && s[i + k] == '.' && !IsDigit(s[i + n])
    requires forall j :: i <= j < i + k ==> IsDigit(s[j])
    requires forall j :: i + k + 1 <= j < i + n ==> IsDigit(s[j])
    ensures NumberEnd(s, i) == Some(i + n)
  {
    DigitsEndOfDigits(s, i, k);
    DigitsEndOfDigits(s, i + k + 1, n - k - 1);
  }

  /** Does `pat` occur in `s` at position `k`? */
  predicate OccursAt(s: string, pat: string, k: nat) {
    k + |pat| <= |s| && s[k..k + |pat|] == pat
  }

  /** Python's `pat in s`. */
  predicate Contains(s: string, pat: string) {
    exists k: nat | k <= |s| :: OccursAt(s, pat, k)
  }

  /**
   * Python's `s.replace(pat, with)`: every non-overlapping occurrence of `pat`,
   * found from left to right, is replaced by `with`; the inserted text is not
   * searched again.
   */
  function ReplaceAll(s: string, pat: string, with: string): string
    requires pat != []
    decreases |s|
  {
    if |s| < |pat| then s
    else if s[..|pat|] == pat then with + ReplaceAll(s[|pat|..], pat, with)
    else [s[0]] + ReplaceAll(s[1..], pat, with)
  }

  /** A text in which `pat` does not occur is returned as it is. */
  lemma {:induction false} ReplaceAllAbsent(s: string, pat: string, with: string)
    requires pat != [] && !Contains(s, pat)
    ensures ReplaceAll(s, pat, with) == s
    decreases |s|
  {
    if |s| >= |pat| {
      assert !OccursAt(s, pat, 0);
      forall k: nat | k <= |s[1..]|
        ensures !OccursAt(s[1..], pat, k)
      {
        assert !OccursAt(s, pat, k + 1);
        if k + |pat| <= |s[1..]| {
          assert s[1..][k..k + |pat|] == s[k + 1..k + 1 + |pat|];
        }
      }
      ReplaceAllAbsent(s[1..], pat, with);
    }
  }

  /** The text obtained by writing `with` in place of each `c` of `s`. */
  function SubstituteChar(s: string, c: char, with: string): string
    decreases |s|
  {
    if s == [] then [] else (if s[0] == c then with else [s[0]]) + SubstituteChar(s[1..], c, with)
  }

  /**
   * Replacing a one-character text is character-wise substitution: every
   * occurrence of `c` is replaced and every other character is kept.
   */
  lemma {:induction false} ReplaceAllChar(s: string, c: char, with: string)
    ensures ReplaceAll(s, [c], with) == SubstituteChar(s, c, with)
    decreases |s|
  {
    if s != [] {
      ReplaceAllChar(s[1..], c, with);
    }
  }

  /** Position of the first `c` in `s`, or `|s|` when there is none. */
  function IndexOf(s: string, c: char): (k: nat)
    ensures k <= |s|
    ensures k < |s| ==> s[k] == c
    ensures forall j :: 0 <= j < k ==> s[j] != c
    decreases |s|
  {
    if s == [] then 0 else if s[0] == c then 0 else 1 + IndexOf(s[1..], c)
  }

  /** Python's `s.split(c)[0]`: the text before the first `c`. */
  function BeforeFirst(s: string, c: char): string {
    s[..IndexOf(s, c)]
  }

  /**
   * Python's `s.split(c, 1)[1]`: the text after the first `c`. Python raises
   * IndexError when `c` does not occur, so callers must make sure it does.
   */
  function AfterFirst(s: string, c: char): string
    requires c in s
  {
    s[IndexOf(s, c) + 1..]
  }

  /** Start of the maximal run of white space that ends at `j`. */
  function SpacesBefore(s: string, j: nat): (k: nat)
    requires j <= |s|
    ensures k <= j
    ensures forall m :: k <= m < j ==> IsSpace(s[m])
    ensures k == 0 || !IsSpace(s[k - 1])
  {
    if j > 0 && IsSpace(s[j - 1]) then SpacesBefore(s, j - 1) else j
  }

  /** Where the text kept by `strip` starts. */
  function StripStart(s: string): nat {
    SkipSpaces(s, 0)
  }

  /** Where the text kept by `strip` ends. */
  function StripEnd(s: string): (j: nat)
    ensures StripStart(s) <= j <= |s|
  {
    var k := SpacesBefore(s, |s|);
    if k < StripStart(s) then StripStart(s) else k
  }

  /**
   * Python's `s.strip()`: `s` without its leading and trailing white space.
   * Everything cut away is white space and the result neither starts nor
   * ends with white space.
   */
  function Strip(s: string): (r: string)
    ensures r == s[StripStart(s)..StripEnd(s)]
    ensures AllSpaces(s[..StripStart(s)]) && AllSpaces(s[StripEnd(s)..])
    ensures r == [] || (!IsSpace(r[0]) && !IsSpace(r[|r| - 1]))
  {
    SkipSpacesReadsSpaces(s, 0);
    s[StripStart(s)..StripEnd(s)]
  }

  /** Text that neither starts nor ends with white space is kept whole by `strip`. */
  lemma StripOfTrimmed(s: string)
    requires s == [] || (!IsSpace(s[0]) && !IsSpace(s[|s| - 1]))
    ensures Strip(s) == s
  {
    if s != [] {
      assert SpacesBefore(s, |s|) == |s|;
    }
  }

  /** `w` stands in `s` from `i` on, character by character. */
  predicate WrittenAt(s: string, i: nat, w: string) {
    i + |w| <= |s| && forall k :: 0 <= k < |w| ==> s[i + k] == w[k]
  }

  lemma WrittenAtSlice(s: string, i: nat, w: string)
    requires WrittenAt(s, i, w)
    ensures s[i..i + |w|] == w
  {
  }

  lemma SliceWrittenAt(s: string, i: nat, w: string)
    requires i + |w| <= |s| && s[i..i + |w|] == w
    ensures WrittenAt(s, i, w)
  {
    forall k | 0 <= k < |w|
      ensures s[i + k] == w[k]
    {
      assert s[i..i + |w|][k] == s[i + k];
    }
  }

  /** The pieces of `a + b + c` written at `i` stand at their own offsets. */
  lemma SplitWrittenAt(s: string, i: nat, a: string, b: string, c: string)
    requires WrittenAt(s, i, a + b + c)
    ensures WrittenAt(s, i, a) && WrittenAt(s, i + |a|, b) && WrittenAt(s, i + |a| + |b|, c)
  {
    var w := a + b + c;
    assert forall k :: 0 <= k < |a| ==> w[k] == a[k];
    assert forall k :: 0 <= k < |b| ==> w[|a| + k] == b[k];
    assert forall k :: 0 <= k < |c| ==> w[|a| + |b| + k] == c[k];
  }

  /** Pieces written one after the other make up their concatenation. */
  lemma JoinWrittenAt(s: string, i: nat, a: string, b: string, c: string)
    requires WrittenAt(s, i, a) && WrittenAt(s, i + |a|, b) && WrittenAt(s, i + |a| + |b|, c)
    ensures WrittenAt(s, i, a + b + c)
  {
    var w := a + b + c;
    forall k | 0 <= k < |w| ensures s[i + k] == w[k] {
      if k < |a| {
      } else if k < |a| + |b| {
        assert s[i + |a| + (k - |a|)] == b[k - |a|];
      } else {
        assert s[i + |a| + |b| + (k - |a| - |b|)] == c[k - |a| - |b|];
      }
    }
  }
}
