/**
 * The definition branch of `parse_and_plot`: a line of the form
 * `name(v) = body` registers a function and is not plotted; any other line
 * is evaluated on the time axis and plotted unless the evaluation gave
 * None. Both copies of `parse_and_plot` take this branch in the same way.
 */
module Plotter {

  import opened Wrappers
  import opened Text
  import opened Evaluator

  /**
   * `re.match` of `^[a-zA-Z]+\([a-zA-Z]\)\s*=`: a run of letters, `(`, one
   * letter, `)`, white space and `=`; the position of that `=`. Neither
   * repetition can give back characters (a letter run cannot end in `(`,
   * a white-space run cannot end in `=`), so there is no other way to match.
   */
  function DefinitionHead(s: string): (r: Option<nat>)
    ensures r.Some? ==> r.value < |s| && s[r.value] == '='
  {
    var l := LettersEnd(s, 0);
    if l == 0 || l + 3 > |s| || s[l] != '(' || !IsLetter(s[l + 1]) || s[l + 2] != ')' then None
    else
      var j := SkipSpaces(s, l + 3);
      if j < |s| && s[j] == '=' then Some(j) else None
  }

  /** The test of `parse_and_plot`: an `=` somewhere, and the head pattern at the start. */
  predicate IsDefinition(s: string) {
    '=' in s && DefinitionHead(s).Some?
  }

  /** `expression.split("(")[0].strip()`. */
  function DefinitionName(s: string): string {
    Strip(BeforeFirst(s, '('))
  }

  /** `expression.split("=", 1)[1].strip()`. */
  function DefinitionBody(s: string): string
    requires '=' in s
  {
    Strip(AfterFirst(s, '='))
  }

  /**
   * Only lines of the definition shape are definitions: a non-empty run of
   * letters, `(`, one letter, `)`, white space, and the `=` the head ends on.
   */
  lemma DefinitionShape(s: string)
    requires IsDefinition(s)
    ensures var l := LettersEnd(s, 0);
            var j := DefinitionHead(s).value;
            && 0 < l && l + 3 <= j && AllLetters(s[..l])
            && s[l] == '(' && IsLetter(s[l + 1]) && s[l + 2] == ')'
            && AllSpaces(s[l + 3..j]) && s[j] == '='
  {
    var l := LettersEnd(s, 0);
    var j := DefinitionHead(s).value;
    LettersEndReadsLetters(s, 0);
    SkipSpacesReadsSpaces(s, l + 3);
    assert forall k :: 0 <= k < l ==> s[..l][k] == s[k];
    assert forall k :: l + 3 <= k < j ==> s[l + 3..j][k - l - 3] == s[k];
  }

  /** The `=` test is implied by the pattern: a line is a definition exactly when the head matches. */
  lemma DefinitionIsHead(s: string)
    ensures IsDefinition(s) <==> DefinitionHead(s).Some?
  {
    if DefinitionHead(s).Some? {
      assert s[DefinitionHead(s).value] == '=';
    }
  }

  /**
   * For a definition, the name is the leading run of letters: the text
   * before the first `(`, which has nothing to strip.
   */
  lemma DefinitionNameIsLetters(s: string)
    requires IsDefinition(s)
    ensures var l := LettersEnd(s, 0);
            DefinitionName(s) == s[..l] && DefinitionName(s) != [] && AllLetters(DefinitionName(s))
  {
    var l := LettersEnd(s, 0);
    LettersEndReadsLetters(s, 0);
    assert s[l] == '(';
    assert IndexOf(s, '(') == l by {
      assert forall k :: 0 <= k < l ==> IsLetter(s[k]);
    }
    StripOfTrimmed(s[..l]);
  }

  /**
   * For a definition, the `=` the pattern ended on is the first one, so the
   * body is the stripped text after it.
   */
  lemma DefinitionBodyAfterHead(s: string)
    requires IsDefinition(s)
    ensures AfterFirst(s, '=') == s[DefinitionHead(s).value + 1..]
    ensures DefinitionBody(s) == Strip(s[DefinitionHead(s).value + 1..])
  {
    var l := LettersEnd(s, 0);
    var j := DefinitionHead(s).value;
    LettersEndReadsLetters(s, 0);
    SkipSpacesReadsSpaces(s, l + 3);
    HeadHasFirstEquals(s, l, j);
  }

  /** Letters, `(`, a letter, `)` and white space hold no `=`: the one that follows is the first. */
  lemma HeadHasFirstEquals(s: string, l: nat, j: nat)
    requires l + 3 <= j < |s| && s[j] == '='
    requires forall k :: 0 <= k < l ==> IsLetter(s[k])
    requires s[l] == '(' && IsLetter(s[l + 1]) && s[l + 2] == ')'
    requires forall k :: l + 3 <= k < j ==> IsSpace(s[k])
    ensures IndexOf(s, '=') == j
  {
  }

  /**
   * The converse: `name(v) = body`, written with any white space before the
   * `=`, is a definition of `name` with the stripped `body`.
   */
  lemma {:induction false} DefinitionOfParts(name: string, x: char, spaces: string, body: string)
    requires name != [] && AllLetters(name) && IsLetter(x) && AllSpaces(spaces)
    ensures var s := name + "(" + [x] + ")" + spaces + "=" + body;
            IsDefinition(s) && DefinitionName(s) == name && DefinitionBody(s) == Strip(body)
  {
    var s := name + "(" + [x] + ")" + spaces + "=" + body;
    var l := |name|;
    var j := l + 3 + |spaces|;
    assert s[..l] == name;
    assert forall k :: 0 <= k < l ==> s[k] == name[k];
    assert s[l] == '(' && s[l + 1] == x && s[l + 2] == ')' && s[j] == '=';
    LettersEndOfLetters(s, 0, l);
    assert forall k :: l + 3 <= k < j ==> s[k] == spaces[k - l - 3];
    assert SkipSpaces(s, l + 3) == j by {
      SkipSpacesOver(s, l + 3, |spaces|);
    }
    assert DefinitionHead(s) == Some(j);
    DefinitionNameIsLetters(s);
    DefinitionBodyAfterHead(s);
    assert s[j + 1..] == body;
  }

  /** The parameter is a single letter: `f(tt) = t` is not a definition, and is evaluated instead. */
  lemma TwoLetterParameterIsNoDefinition()
    ensures !IsDefinition("f(tt) = t")
  {
    var s := "f(tt) = t";
    LettersEndOfLetters(s, 0, 1);
  }

  /** What `parse_and_plot` ends with. */
  datatype Action =
    | Defined(name: string, body: string)  // the registry was updated; nothing is plotted
    | NothingToPlot                        // the evaluation returned None
    | Plot(samples: seq<real>)             // the samples drawn against the time axis
    | Failed(error: Error)                 // the evaluation raised, and so does `parse_and_plot`

  /** The action for what the evaluation of a non-definition gave. */
  function ActionOf(o: Outcome): Action {
    match o
    case Raised(e) => Failed(e)
    case Returned(None) => NothingToPlot
    case Returned(Some(y)) => Plot(y)
  }

  /**
   * `parse_and_plot(expression)` with the time axis `t` that `linspace`
   * built: a definition is registered and nothing is evaluated; any other
   * line is evaluated, and plotted when that gave samples.
   */
  method ParseAndPlot(ev: Evaluator, expression: string, t: seq<real>) returns (a: Action)
    modifies ev
    ensures IsDefinition(expression) ==>
              && a == Defined(DefinitionName(expression), DefinitionBody(expression))
              && ev.definitions == old(ev.definitions)[a.name := a.body]
              && ev.store == old(ev.store)
    ensures !IsDefinition(expression) ==>
              && ev.definitions == old(ev.definitions)
              && var r := EvalSpec(ev.variant, ev.rt, ev.definitions, expression, t, old(ev.store));
                 ev.store == r.store && a == ActionOf(r.outcome)
  {
    var head := DefinitionHead(expression);
    if '=' in expression && head.Some? {
      var name := DefinitionName(expression);
      var body := DefinitionBody(expression);
      ev.DefineFunction(name, body);
      return Defined(name, body);
    }
    var o := ev.EvaluateExpression(expression, t);
    a := ActionOf(o);
  }
}
