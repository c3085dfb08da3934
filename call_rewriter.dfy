/**
 * The call rewriter of `evaluate_expression`: the pattern
 * `([a-zA-Z]+)\(([^()]+)\)` is substituted with a callback. A call of a
 * registered function becomes the text `evaluate_function('name', 'arg', t)`,
 * which the final evaluation then runs; any other call is given back as it
 * was matched. Both copies of the evaluator do the same.
 */
module CallRewriter {

  import opened Wrappers
  import opened Text
  import opened Spans
  import opened Scanning

  /** What a call match captured: the function name and the argument text. */
  datatype Call = Call(name: string, arg: string)

  predicate IsParen(c: char) {
    c == '(' || c == ')'
  }

  /** `[^()]+` holds of `w`. */
  predicate ParenFree(w: string) {
    forall k :: 0 <= k < |w| ==> !IsParen(w[k])
  }

  /** The text `name(arg)`. */
  function CallText(name: string, arg: string): string {
    name + "(" + arg + ")"
  }

  /** End of the maximal run of characters other than parentheses starting at `i`. */
  function ArgEnd(s: string, i: nat): (j: nat)
    requires i <= |s|
    ensures i <= j <= |s|
    ensures j == |s| || IsParen(s[j])
    decreases |s| - i
  {
    if i < |s| && !IsParen(s[i]) then ArgEnd(s, i + 1) else i
  }

  lemma {:induction false} ArgEndReadsArg(s: string, i: nat)
    requires i <= |s|
    ensures forall k :: i <= k < ArgEnd(s, i) ==> !IsParen(s[k])
    decreases |s| - i
  {
    if i < |s| && !IsParen(s[i]) {
      ArgEndReadsArg(s, i + 1);
    }
  }

  lemma {:induction false} ArgEndOfArg(s: string, i: nat, n: nat)
    requires i + n <= |s|
    requires forall k :: i <= k < i + n ==> !IsParen(s[k])
    requires i + n == |s| || IsParen(s[i + n])
    ensures ArgEnd(s, i) == i + n
    decreases n
  {
    if n > 0 {
      ArgEndOfArg(s, i + 1, n - 1);
    }
  }

  /**
   * The match of the call pattern at `p`, if any. Neither group can give
   * back characters to the next part of the pattern (a letter is not `(`
   * and an argument character is not `)`), so the only match is the one
   * with the longest letter run and the longest argument.
   */
  function CallAt(s: string, p: nat): (r: Option<Hit<Call>>)
    requires p <= |s|
    ensures r.Some? ==> r.value.start == p < r.value.end <= |s|
    ensures r.Some? ==> s[p..r.value.end] == CallText(r.value.data.name, r.value.data.arg)
    ensures r.Some? ==> s[r.value.end - 1] == ')'
    ensures r.Some? ==> var c := r.value.data;
                        && c.name != [] && AllLetters(c.name) && LettersEnd(s, p) == p + |c.name|
                        && c.arg != [] && ParenFree(c.arg)
  {
    var l := LettersEnd(s, p);
    if l == p || l == |s| || s[l] != '(' then None
    else
      var m := ArgEnd(s, l + 1);
      if m == l + 1 || m == |s| || s[m] != ')' then None
      else
        LettersEndReadsLetters(s, p);
        ArgEndReadsArg(s, l + 1);
        assert s[p..m + 1] == s[p..l] + "(" + s[l + 1..m] + ")";
        Some(Hit(p, m + 1, Call(s[p..l], s[l + 1..m])))
  }

  /** In `name(arg)` the only `(` follows the name and the only `)` is the last character. */
  lemma CallTextParens(name: string, arg: string)
    requires AllLetters(name) && ParenFree(arg)
    ensures var s := CallText(name, arg);
            forall k :: 0 <= k < |s| ==> (s[k] == '(' <==> k == |name|) && (s[k] == ')' <==> k == |s| - 1)
  {
    var s := CallText(name, arg);
    forall k | 0 <= k < |s|
      ensures (s[k] == '(' <==> k == |name|) && (s[k] == ')' <==> k == |s| - 1)
    {
      if k < |name| {
        assert s[k] == name[k] && IsLetter(name[k]);
      } else if |name| < k < |s| - 1 {
        assert s[k] == arg[k - |name| - 1] && !IsParen(arg[k - |name| - 1]);
      }
    }
  }

  /** `name(arg)` is written at `p` in `s`, and a character follows it. */
  predicate CallLayout(s: string, p: nat, name: string, arg: string) {
    var l := p + |name|;
    var m := l + 1 + |arg|;
    m < |s| && s[p..l] == name && s[l] == '(' && s[l + 1..m] == arg && s[m] == ')'
  }

  lemma {:induction false} CallTextLayout(s: string, p: nat, name: string, arg: string)
    requires p + |CallText(name, arg)| <= |s| && s[p..p + |CallText(name, arg)|] == CallText(name, arg)
    ensures CallLayout(s, p, name, arg)
  {
    var c := CallText(name, arg);
    var l := p + |name|;
    var m := l + 1 + |arg|;
    assert s[p..l] == c[..|name|];
    assert s[l] == c[|name|];
    assert c[|name| + 1..|name| + 1 + |arg|] == arg;
    assert forall k :: l + 1 <= k < m ==> s[k] == s[p..p + |c|][k - p];
    assert s[l + 1..m] == s[p..p + |c|][|name| + 1..|name| + 1 + |arg|];
    assert s[m] == c[|c| - 1];
  }

  lemma {:induction false} CallAtOfLayout(s: string, p: nat, name: string, arg: string)
    requires name != [] && AllLetters(name) && arg != [] && ParenFree(arg)
    requires CallLayout(s, p, name, arg)
    ensures CallAt(s, p) == Some(Hit(p, p + |name| + |arg| + 2, Call(name, arg)))
  {
    var l := p + |name|;
    var m := l + 1 + |arg|;
    assert forall k :: p <= k < l ==> s[k] == s[p..l][k - p];
    LettersEndOfLetters(s, p, |name|);
    assert forall k :: l + 1 <= k < m ==> s[k] == s[l + 1..m][k - l - 1];
    ArgEndOfArg(s, l + 1, |arg|);
  }

  /**
   * Conversely, a call written at `p` (a non-empty letter run, a non-empty
   * argument without parentheses) is matched there exactly.
   */
  lemma {:induction false} CallAtOfCall(s: string, p: nat, name: string, arg: string)
    requires name != [] && AllLetters(name) && arg != [] && ParenFree(arg)
    requires p + |CallText(name, arg)| <= |s| && s[p..p + |CallText(name, arg)|] == CallText(name, arg)
    ensures CallAt(s, p) == Some(Hit(p, p + |CallText(name, arg)|, Call(name, arg)))
  {
    CallTextLayout(s, p, name, arg);
    CallAtOfLayout(s, p, name, arg);
  }

  /** A letter in front of a call extends its name, so the pattern matches there too. */
  lemma {:induction false} CallAtLetterBefore(s: string, q: nat)
    requires q < |s| && IsLetter(s[q]) && CallAt(s, q + 1).Some?
    ensures CallAt(s, q).Some?
  {
    assert LettersEnd(s, q) == LettersEnd(s, q + 1);
  }

  /** The call pattern searched for in `s`. */
  function CallMatcher(s: string): (m: nat -> Option<Hit<Call>>)
    ensures IsMatcher(m, |s|)
  {
    (p: nat) => if p <= |s| then CallAt(s, p) else None
  }

  /** The text `evaluate_function('name', 'arg', t)` that replaces a registered call. */
  function Marker(name: string, arg: string): string {
    "evaluate_function('" + name + "', '" + arg + "', t)"
  }

  /** `replace_func_call`: a registered call becomes its marker, any other call stays as matched. */
  function ReplaceCall(definitions: map<string, string>): Hit<Call> -> string {
    (h: Hit<Call>) =>
      if h.data.name in definitions then Marker(h.data.name, h.data.arg)
      else CallText(h.data.name, h.data.arg)
  }

  /** `re.sub(func_pattern, replace_func_call, s)`. */
  function RewriteCalls(s: string, definitions: map<string, string>): string {
    Sub(CallMatcher(s), ReplaceCall(definitions), s)
  }

  /** A name is matched only as a whole word: a matched call never starts right after a letter. */
  lemma {:induction false} CallsAreWords(s: string, i: nat)
    requires i < |Scan(CallMatcher(s), |s|, 0)|
    ensures var h := Scan(CallMatcher(s), |s|, 0)[i];
            h.start == 0 || !IsLetter(s[h.start - 1])
  {
    CallsExtendLeft(s);
    WordsOf(s, CallMatcher(s), i);
  }

  lemma CallsExtendLeft(s: string)
    ensures var m := CallMatcher(s);
            forall q: nat :: q < |s| && IsLetter(s[q]) && m(q + 1).Some? ==> m(q).Some?
  {
    var m := CallMatcher(s);
    forall q: nat | q < |s| && IsLetter(s[q]) && m(q + 1).Some? ensures m(q).Some? {
      CallAtLetterBefore(s, q);
    }
  }

  /** CallsAreWords for any matcher whose matches end in `)` and extend to the left over letters. */
  lemma {:induction false} WordsOf(s: string, m: nat -> Option<Hit<Call>>, i: nat)
    requires IsMatcher(m, |s|) && i < |Scan(m, |s|, 0)|
    requires forall p: nat :: p <= |s| && m(p).Some? ==> s[m(p).value.end - 1] == ')'
    requires forall q: nat :: q < |s| && IsLetter(s[q]) && m(q + 1).Some? ==> m(q).Some?
    ensures var h := Scan(m, |s|, 0)[i];
            h.start == 0 || !IsLetter(s[h.start - 1])
  {
    var hs := Scan(m, |s|, 0);
    var h := hs[i];
    ScanAreMatches(m, |s|, 0, i);
    if h.start > 0 && IsLetter(s[h.start - 1]) {
      var j := ScanPrecededByMatch(m, |s|, i);
      ScanAreMatches(m, |s|, 0, j);
    }
  }

  /** When no call the scan finds has a registered name, the text is left as it is. */
  lemma {:induction false} UnregisteredUnchanged(s: string, definitions: map<string, string>)
    requires forall i :: 0 <= i < |Scan(CallMatcher(s), |s|, 0)| ==> Scan(CallMatcher(s), |s|, 0)[i].data.name !in definitions
    ensures RewriteCalls(s, definitions) == s
  {
    var m := CallMatcher(s);
    var hs := Scan(m, |s|, 0);
    forall i | 0 <= i < |hs|
      ensures ReplaceCall(definitions)(hs[i]) == s[hs[i].start..hs[i].end]
    {
      ScanAreMatches(m, |s|, 0, i);
      assert CallAt(s, hs[i].start) == Some(hs[i]);
    }
    SubIdentity(m, ReplaceCall(definitions), s);
  }

  /** A text without an opening parenthesis holds no call. */
  lemma {:induction false} NoParenthesisUnchanged(s: string, definitions: map<string, string>)
    requires '(' !in s
    ensures RewriteCalls(s, definitions) == s
  {
    forall p | 0 <= p <= |s| ensures CallMatcher(s)(p).None? {
      var l := LettersEnd(s, p);
      assert l < |s| ==> s[l] in s;
    }
    SubWithoutMatch(CallMatcher(s), ReplaceCall(definitions), s);
  }

  /** A lone call becomes its marker exactly when its name is registered. */
  lemma {:induction false} RewriteSingleCall(name: string, arg: string, definitions: map<string, string>)
    requires name != [] && AllLetters(name) && arg != [] && ParenFree(arg)
    ensures name in definitions ==> RewriteCalls(CallText(name, arg), definitions) == Marker(name, arg)
    ensures name !in definitions ==> RewriteCalls(CallText(name, arg), definitions) == CallText(name, arg)
  {
    var s := CallText(name, arg);
    CallAtOfCall(s, 0, name, arg);
    SubOfWholeMatch(CallMatcher(s), ReplaceCall(definitions), s, Hit(0, |s|, Call(name, arg)));
  }

  /** With only `x` registered, `ax(t)` is a call of `ax` and stays as it is. */
  lemma {:induction false} OnlyWholeNamesRewritten(body: string)
    ensures RewriteCalls("ax(t)", map["x" := body]) == "ax(t)"
  {
    assert CallText("ax", "t") == "ax(t)";
    assert AllLetters("ax") && ParenFree("t");
    RewriteSingleCall("ax", "t", map["x" := body]);
  }

  /**
   * An argument holding parentheses is never rewritten: in `x(x(t))` only
   * the inner call matches, and the outer one is kept around its marker.
   */
  lemma {:induction false} NestedCallKeepsOuter(body: string)
    ensures RewriteCalls("x(x(t))", map["x" := body]) == "x(" + Marker("x", "t") + ")"
  {
    var s := "x(x(t))";
    NestedCallScan();
    SubOfSingleHit(CallMatcher(s), ReplaceCall(map["x" := body]), s, Hit(2, 6, Call("x", "t")));
    assert s[..2] == "x(" && s[6..] == ")";
  }

  lemma {:induction false} NestedCallScan()
    ensures Scan(CallMatcher("x(x(t))"), 7, 0) == [Hit(2, 6, Call("x", "t"))]
  {
    var s := "x(x(t))";
    var m := CallMatcher(s);
    assert LettersEnd(s, 0) == 1 && ArgEnd(s, 2) == 3 && m(0).None?;
    assert LettersEnd(s, 1) == 1 && m(1).None?;
    CallAtOfCall(s, 2, "x", "t");
    assert m(2) == Some(Hit(2, 6, Call("x", "t")));
    assert LettersEnd(s, 6) == 6 && m(6).None?;
    assert LettersEnd(s, 7) == 7 && m(7).None?;
    assert Scan(m, 7, 7) == [];
    assert Scan(m, 7, 6) == [];
  }
}
