/**
 * The derivative notation `d(inner)/d(t)`. `evaluate_expression` lists the
 * inner texts with `re.findall(r"d\((.*?)\)/d\(t\)", expr)`: the search is
 * leftmost and non-overlapping, and the lazy `.*?` stops the inner text at
 * the FIRST `)/d(t)` after `d(`, on the same line. A derivative that has
 * been computed is put in the text under a placeholder name that depends
 * only on the inner text.
 */
module Derivatives {

  import opened Wrappers
  import opened Text
  import opened Scanning

  /** The text that closes a derivative. */
  const Terminator: string := ")/d(t)"

  /** The prefix of every placeholder name. */
  const Prefix: string := "__DERIVATIVE_RESULT_"

  /** The derivative notation around `inner`. */
  function Occurrence(inner: string): string {
    "d(" + inner + Terminator
  }

  /**
   * The first position from `i` on where the terminator starts, if it
   * comes before the end of the line: `.` does not match a newline.
   */
  function CloseFrom(s: string, i: nat): (r: Option<nat>)
    requires i <= |s|
    ensures r.Some? ==> i <= r.value && OccursAt(s, Terminator, r.value)
    decreases |s| - i
  {
    if OccursAt(s, Terminator, i) then Some(i)
    else if i == |s| || s[i] == '\n' then None
    else CloseFrom(s, i + 1)
  }

  /** The terminator CloseFrom finds is the first one, and no newline comes before it. */
  lemma {:induction false} CloseFromIsFirst(s: string, i: nat, k: nat)
    requires i <= k <= |s| && CloseFrom(s, i).Some? && k < CloseFrom(s, i).value
    ensures !OccursAt(s, Terminator, k) && s[k] != '\n'
    decreases |s| - i
  {
    if k > i {
      CloseFromIsFirst(s, i + 1, k);
    }
  }

  /** Conversely, the first terminator on the line is found. */
  lemma {:induction false} CloseFromOfFirst(s: string, i: nat, k: nat)
    requires i <= k && OccursAt(s, Terminator, k)
    requires forall j :: i <= j < k ==> !OccursAt(s, Terminator, j) && s[j] != '\n'
    ensures CloseFrom(s, i) == Some(k)
    decreases k - i
  {
    if i < k {
      CloseFromOfFirst(s, i + 1, k);
    }
  }

  /** Does `d(` start at `p`? */
  predicate OpensAt(s: string, p: nat) {
    p + 2 <= |s| && s[p..p + 2] == "d("
  }

  /** The match of the derivative pattern at `p`, if any; it captures the inner text. */
  function DerivativeAt(s: string, p: nat): (r: Option<Hit<string>>)
    requires p <= |s|
    ensures r.Some? ==> r.value.start == p < r.value.end <= |s| && OpensAt(s, p)
    ensures r.Some? ==> p + 8 + |r.value.data| == r.value.end
    ensures r.Some? ==> s[p..r.value.end] == Occurrence(r.value.data)
  {
    if !OpensAt(s, p) then None
    else
      var k :- CloseFrom(s, p + 2);
      assert s[p..k + 6] == s[p..p + 2] + s[p + 2..k] + s[k..k + 6];
      Some(Hit(p, k + 6, s[p + 2..k]))
  }

  /**
   * The inner text of a match is as short as it can be: the terminator does
   * not start anywhere inside it, and it holds no newline.
   */
  lemma {:induction false} InnerStopsAtFirstTerminator(s: string, p: nat, k: nat)
    requires p <= |s| && DerivativeAt(s, p).Some?
    requires p + 2 <= k < p + 2 + |DerivativeAt(s, p).value.data|
    ensures !OccursAt(s, Terminator, k) && s[k] != '\n'
  {
    CloseFromIsFirst(s, p + 2, k);
  }

  /** `d(inner)/d(t)` is written at `p` in `s`. */
  predicate OccurrenceLayout(s: string, p: nat, inner: string) {
    var k := p + 2 + |inner|;
    k + 6 <= |s| && s[p..p + 2] == "d(" && s[p + 2..k] == inner && s[k..k + 6] == Terminator
  }

  lemma {:induction false} OccurrenceIsLayout(s: string, p: nat, inner: string)
    requires p + |Occurrence(inner)| <= |s| && s[p..p + |Occurrence(inner)|] == Occurrence(inner)
    ensures OccurrenceLayout(s, p, inner)
  {
    var o := Occurrence(inner);
    var k := p + 2 + |inner|;
    assert s[p..p + 2] == s[p..p + |o|][..2] == o[..2];
    assert s[p + 2..k] == s[p..p + |o|][2..2 + |inner|] == o[2..2 + |inner|];
    assert s[k..k + 6] == s[p..p + |o|][2 + |inner|..] == o[2 + |inner|..];
  }

  lemma {:induction false} DerivativeAtOfLayout(s: string, p: nat, inner: string)
    requires OccurrenceLayout(s, p, inner)
    requires forall k :: p + 2 <= k < p + 2 + |inner| ==> !OccursAt(s, Terminator, k) && s[k] != '\n'
    ensures DerivativeAt(s, p) == Some(Hit(p, p + 8 + |inner|, inner))
  {
    CloseFromOfFirst(s, p + 2, p + 2 + |inner|);
  }

  /**
   * Conversely, `d(` followed by an inner text that holds no newline and
   * within which no terminator starts, and then by the terminator, is a
   * match of exactly that inner text.
   */
  lemma {:induction false} DerivativeAtOfOccurrence(s: string, p: nat, inner: string)
    requires p + |Occurrence(inner)| <= |s| && s[p..p + |Occurrence(inner)|] == Occurrence(inner)
    requires forall k :: p + 2 <= k < p + 2 + |inner| ==> !OccursAt(s, Terminator, k) && s[k] != '\n'
    ensures DerivativeAt(s, p) == Some(Hit(p, p + |Occurrence(inner)|, inner))
  {
    OccurrenceIsLayout(s, p, inner);
    DerivativeAtOfLayout(s, p, inner);
  }

  /** The derivative pattern searched for in `s`. */
  function DerivativeMatcher(s: string): (m: nat -> Option<Hit<string>>)
    ensures IsMatcher(m, |s|)
  {
    (p: nat) => if p <= |s| then DerivativeAt(s, p) else None
  }

  /** `re.findall(derivative_pattern, s)`: the inner texts, from left to right. */
  function Inners(s: string): (r: seq<string>)
    ensures forall i :: 0 <= i < |r| ==> |r[i]| + 8 <= |s|
  {
    var hs := Scan(DerivativeMatcher(s), |s|, 0);
    InnersShorter(s, hs);
    seq(|hs|, i requires 0 <= i < |hs| => hs[i].data)
  }

  lemma InnersShorter(s: string, hs: seq<Hit<string>>)
    requires hs == Scan(DerivativeMatcher(s), |s|, 0)
    ensures forall i :: 0 <= i < |hs| ==> |hs[i].data| + 8 <= |s|
  {
    forall i | 0 <= i < |hs| ensures |hs[i].data| + 8 <= |s| {
      ScanAreMatches(DerivativeMatcher(s), |s|, 0, i);
    }
  }

  /** Every inner text listed occurs in `s` in the derivative notation. */
  lemma InnersOccur(s: string, i: nat)
    requires i < |Inners(s)|
    ensures Contains(s, Occurrence(Inners(s)[i]))
  {
    var hs := Scan(DerivativeMatcher(s), |s|, 0);
    ScanAreMatches(DerivativeMatcher(s), |s|, 0, i);
    assert OccursAt(s, Occurrence(Inners(s)[i]), hs[i].start);
  }

  /** A text without `d(` lists no derivative. */
  lemma NoInnersWithoutOpening(s: string)
    requires forall p :: 0 <= p <= |s| ==> !OpensAt(s, p)
    ensures Inners(s) == []
  {
    ScanEmpty(DerivativeMatcher(s), |s|, 0);
  }

  /** A text in which `)/d(t)` occurs nowhere lists no derivative either. */
  lemma NoInnersWithoutTerminator(s: string)
    requires forall k :: 0 <= k <= |s| ==> !OccursAt(s, Terminator, k)
    ensures Inners(s) == []
  {
    forall p | 0 <= p <= |s|
      ensures DerivativeMatcher(s)(p).None?
    {
      if OpensAt(s, p) {
        assert CloseFrom(s, p + 2).None?;
      }
    }
    ScanEmpty(DerivativeMatcher(s), |s|, 0);
  }

  /**
   * Nested derivatives are not nested matches: in `d(d(sin(t))/d(t))/d(t)`
   * the inner text stops at the first terminator, so the only inner text
   * listed is `d(sin(t)`, which is not a well-formed expression.
   */
  lemma {:induction false} NestedDerivativeInner()
    ensures Inners("d(d(sin(t))/d(t))/d(t)") == ["d(sin(t)"]
  {
    var s := "d(d(sin(t))/d(t))/d(t)";
    var m := DerivativeMatcher(s);
    var inner := "d(sin(t)";
    OuterMatch();
    ScanTakes(m, 22, 0, Hit(0, 16, inner));
    TailWithoutMatch();
  }

  lemma {:induction false} OuterMatch()
    ensures DerivativeAt("d(d(sin(t))/d(t))/d(t)", 0) == Some(Hit(0, 16, "d(sin(t)"))
  {
    var inner := "d(sin(t)";
    assert "d(d(sin(t))/d(t))/d(t)" == Occurrence(inner) + Terminator;
    assert forall j :: 0 <= j < |inner| ==> inner[j] != '\n';
    assert forall j :: 0 <= j < |inner| - 1 ==> inner[j] != ')';
    FirstOccurrenceMatches(inner, Terminator);
  }

  /**
   * A text that starts with `d(inner)/d(t)` matches there with that inner
   * text, provided the inner text holds no newline and no `)/`.
   */
  lemma {:induction false} FirstOccurrenceMatches(inner: string, rest: string)
    requires forall j :: 0 <= j < |inner| ==> inner[j] != '\n'
    requires forall j :: 0 <= j < |inner| - 1 ==> !(inner[j] == ')' && inner[j + 1] == '/')
    ensures DerivativeAt(Occurrence(inner) + rest, 0) == Some(Hit(0, |inner| + 8, inner))
  {
    var o := Occurrence(inner);
    var s := o + rest;
    assert s[0..|o|] == o;
    OccurrenceIsLayout(s, 0, inner);
    forall k | 2 <= k < 2 + |inner| ensures !OccursAt(s, Terminator, k) && s[k] != '\n' {
      assert s[k] == inner[k - 2];
      if k + 6 <= |s| {
        if s[k] == ')' {
          if k + 1 < 2 + |inner| {
            assert s[k + 1] == inner[k - 1];
          } else {
            assert s[k + 1] == o[2 + |inner|];
          }
          NotTerminatorAt(s, k, 1);
        } else {
          NotTerminatorAt(s, k, 0);
        }
      }
    }
    DerivativeAtOfLayout(s, 0, inner);
  }

  /** No terminator starts at `k` when one of its characters is missing. */
  lemma NotTerminatorAt(s: string, k: nat, j: nat)
    requires k + 6 <= |s| && j < 6 && s[k + j] != Terminator[j]
    ensures !OccursAt(s, Terminator, k)
  {
    assert s[k..k + 6][j] == s[k + j];
  }

  lemma {:induction false} TailWithoutMatch()
    ensures Scan(DerivativeMatcher("d(d(sin(t))/d(t))/d(t)"), 22, 16) == []
  {
    var s := "d(d(sin(t))/d(t))/d(t)";
    var m := DerivativeMatcher(s);
    assert CloseFrom(s, 22) == None;
    assert CloseFrom(s, 21) == None;
    assert CloseFrom(s, 20) == None;
    assert m(22).None? && Scan(m, 22, 22) == [];
    assert m(21).None? && Scan(m, 22, 21) == [];
    assert m(20).None? && Scan(m, 22, 20) == [];
    assert m(19).None? && Scan(m, 22, 19) == [];
    assert m(18).None? && Scan(m, 22, 18) == [];
    assert m(17).None? && Scan(m, 22, 17) == [];
    assert m(16).None? && Scan(m, 22, 16) == [];
  }

  /** The placeholder name for the derivative of `inner`, built from the text of `hash(inner)`. */
  function PlaceholderKey(hashText: string -> string, inner: string): string {
    Prefix + hashText(inner) + "_"
  }

  /** The names `evaluate_expression` treats as placeholders. */
  predicate IsPlaceholderKey(key: string) {
    |Prefix| <= |key| && key[..|Prefix|] == Prefix
  }

  /** Every placeholder name carries the prefix, and equal inner texts give equal names. */
  lemma PlaceholderKeyIsPlaceholder(hashText: string -> string, inner: string, other: string)
    ensures IsPlaceholderKey(PlaceholderKey(hashText, inner))
    ensures inner == other ==> PlaceholderKey(hashText, inner) == PlaceholderKey(hashText, other)
  {
    assert PlaceholderKey(hashText, inner)[..|Prefix|] == Prefix;
  }

  /** Python's `hash` gives a signed integer; its text is a decimal numeral, negative or not. */
  predicate IntegerText(w: string) {
    || (|w| > 0 && AllDigits(w))
    || (|w| > 1 && w[0] == '-' && AllDigits(w[1..]))
  }

  /** A Python name: a letter or `_`, then letters, digits and `_`. */
  predicate IsName(w: string) {
    && |w| > 0
    && (IsLetter(w[0]) || w[0] == '_')
    && forall k :: 0 < k < |w| ==> IsLetter(w[k]) || IsDigit(w[k]) || w[k] == '_'
  }

  /**
   * The placeholder is a Python name exactly when the hash is not negative:
   * a negative hash puts a `-` in the middle of it, and the text put in place
   * of the derivative then no longer names the stored value.
   */
  lemma PlaceholderKeyIsName(hashText: string -> string, inner: string)
    requires IntegerText(hashText(inner))
    ensures IsName(PlaceholderKey(hashText, inner)) <==> hashText(inner)[0] != '-'
  {
    var h := hashText(inner);
    var key := PlaceholderKey(hashText, inner);
    assert forall k :: 0 <= k < |Prefix| ==> key[k] == Prefix[k];
    assert forall k :: 0 <= k < |h| ==> key[|Prefix| + k] == h[k];
    assert key[|key| - 1] == '_';
    if h[0] == '-' {
      assert key[|Prefix|] == '-';
    } else {
      forall k | 0 < k < |key| ensures IsLetter(key[k]) || IsDigit(key[k]) || key[k] == '_' {
        if |Prefix| <= k < |Prefix| + |h| {
          assert key[k] == h[k - |Prefix|];
        }
      }
    }
  }
}
