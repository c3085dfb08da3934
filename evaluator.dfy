/**
 * The evaluator: a registry of user functions, and `evaluate_expression`,
 * which computes the derivatives written in an expression, puts them in
 * the module's global namespace under placeholder names, normalises the
 * rect arguments, rewrites the calls of user functions, and hands the text
 * to Python's `eval`.
 *
 * `eval` itself, and the evaluation of a time transform, are parameters of
 * the model (a Runtime); so are Python's float printing and `hash`. The
 * part of the global namespace the model keeps is the Store: names bound
 * to sample arrays, among them the placeholders.
 */
module Evaluator {

  import opened Wrappers
  import opened Text
  import opened Signals
  import opened RectNormalizer
  import opened CallRewriter
  import opened Derivatives
  import opened Scanning

  /** The module's global names that hold sample arrays. */
  type Store = map<string, seq<real>>

  /** The exceptions that leave `evaluate_expression` or `evaluate_function`. */
  datatype Error =
    | UnknownFunction(name: string)
    | TimeTransformFailed
    | DerivativeFailed

  /** A call returns a value (None is Python's None) or raises. */
  datatype Outcome = Returned(value: Option<seq<real>>) | Raised(error: Error)

  /**
   * What the model does not compute itself: `eval` of the processed text
   * given `t`, the placeholders in the namespace and the registry that the
   * `evaluate_function` calls in the text read (None when it raises),
   * the evaluation of a time-transform text (None when it raises), the
   * printing of a float literal and the text of `hash`.
   */
  datatype Runtime = Runtime(
    eval: (string, seq<real>, Store, map<string, string>) -> Option<seq<real>>,
    evalTime: (string, seq<real>) -> Option<seq<real>>,
    floatRepr: string -> string,
    hashText: string -> string)

  /** The placeholders among the global names: what is copied into the namespace of `eval`. */
  function Placeholders(g: Store): (p: Store)
    ensures forall k :: k in p <==> k in g && IsPlaceholderKey(k)
    ensures forall k :: k in p ==> p[k] == g[k]
  {
    map k | k in g && IsPlaceholderKey(k) :: g[k]
  }

  /** The global names once every placeholder has been deleted. */
  function WithoutPlaceholders(g: Store): (w: Store)
    ensures forall k :: k in w <==> k in g && !IsPlaceholderKey(k)
    ensures forall k :: k in w ==> w[k] == g[k]
  {
    map k | k in g && !IsPlaceholderKey(k) :: g[k]
  }

  /** What a call gives back, and the global names after it. */
  datatype Eval = Eval(outcome: Outcome, store: Store)

  /** Where the derivative loop stands: still going, or left by an exception. */
  datatype Loop = Continue(expr: string, store: Store) | Abort(error: Error, store: Store)

  /** The text handed to `eval`: rect arguments normalised, then calls of registered functions rewritten. */
  function Processed(v: Variant, rt: Runtime, definitions: map<string, string>, e: string): string {
    RewriteCalls(Normalized(v, rt.floatRepr, e), definitions)
  }

  /**
   * The `try` block: `eval` with the placeholders in its namespace. Only when
   * it returns are the placeholders deleted; when it raises, the error is
   * swallowed, None is returned and nothing is deleted.
   */
  function FinalEval(v: Variant, rt: Runtime, definitions: map<string, string>, e: string, t: seq<real>, g: Store): Eval {
    var r := rt.eval(Processed(v, rt, definitions, e), t, Placeholders(g), definitions);
    if r.Some? then Eval(Returned(r), WithoutPlaceholders(g)) else Eval(Returned(None), g)
  }

  /** `evaluate_expression(e, t)` started with the global names `g`. */
  function EvalSpec(v: Variant, rt: Runtime, definitions: map<string, string>, e: string, t: seq<real>, g: Store): Eval
    decreases |e|, 1
  {
    match DerivLoop(v, rt, definitions, e, Inners(e), e, t, g)
    case Abort(err, g') => Eval(Raised(err), g')
    case Continue(e', g') => FinalEval(v, rt, definitions, e', t, g')
  }

  /**
   * The derivative loop over the inner texts still to do, with the current
   * text `cur`; it stops at the first exception.
   */
  function DerivLoop(v: Variant, rt: Runtime, definitions: map<string, string>, orig: string,
                     inners: seq<string>, cur: string, t: seq<real>, g: Store): Loop
    requires forall i :: 0 <= i < |inners| ==> |inners[i]| < |orig|
    decreases |orig|, 0, |inners|
  {
    if inners == [] then Continue(cur, g)
    else
      match Step(v, rt, definitions, inners[0], cur, t, g)
      case Abort(err, g') => Abort(err, g')
      case Continue(cur', g') => DerivLoop(v, rt, definitions, orig, inners[1..], cur', t, g')
  }

  /** One round of the loop: the inner text is evaluated recursively, and what it gave is used. */
  function Step(v: Variant, rt: Runtime, definitions: map<string, string>, inner: string, cur: string,
                t: seq<real>, g: Store): Loop
    decreases |inner|, 2
  {
    AfterInner(rt, inner, cur, t, EvalSpec(v, rt, definitions, inner, t, g))
  }

  /**
   * What the loop does with the evaluation `r` of an inner text: an
   * exception leaves the loop; None moves on; a value has its derivative
   * computed (which raises on a too short array or time axis), every
   * `d(inner)/d(t)` in the text is replaced by the placeholder name, and
   * the derivative is stored under that name.
   */
  function AfterInner(rt: Runtime, inner: string, cur: string, t: seq<real>, r: Eval): Loop {
    match r.outcome
    case Raised(err) => Abort(err, r.store)
    case Returned(None) => Continue(cur, r.store)
    case Returned(Some(f)) =>
      match ComputeDerivative(f, t)
      case None => Abort(DerivativeFailed, r.store)
      case Some(d) =>
        var key := PlaceholderKey(rt.hashText, inner);
        Continue(ReplaceAll(cur, Occurrence(inner), key), r.store[key := d])
  }

  /**
   * `evaluate_function(name, targ, t)`: an unknown name raises before
   * anything is evaluated; otherwise every `t` of the argument text is
   * replaced by `t_values`, that text is evaluated to give the new time
   * axis, and the body is evaluated on it.
   */
  function CallSpec(v: Variant, rt: Runtime, definitions: map<string, string>, name: string, targ: string,
                    t: seq<real>, g: Store): Eval
  {
    if name !in definitions then Eval(Raised(UnknownFunction(name)), g)
    else
      match rt.evalTime(ReplaceAll(targ, "t", "t_values"), t)
      case None => Eval(Raised(TimeTransformFailed), g)
      case Some(tm) => EvalSpec(v, rt, definitions, definitions[name], tm, g)
  }

  // ---------------------------------------------------------------------
  // What an evaluation does to the global names.
  // ---------------------------------------------------------------------

  /** `g` and `h` bind the same names other than placeholders, to the same arrays. */
  ghost predicate SameOutside(g: Store, h: Store) {
    forall k :: !IsPlaceholderKey(k) ==> (k in g <==> k in h) && (k in g ==> g[k] == h[k])
  }

  /**
   * An evaluation writes and deletes placeholders only: every other global
   * name is left as it was, whatever the evaluation raises or returns.
   */
  lemma {:induction false} EvalKeepsOthers(v: Variant, rt: Runtime, definitions: map<string, string>, e: string, t: seq<real>, g: Store)
    ensures SameOutside(EvalSpec(v, rt, definitions, e, t, g).store, g)
    decreases |e|, 1
  {
    LoopKeepsOthers(v, rt, definitions, e, Inners(e), e, t, g);
  }

  lemma {:induction false} LoopKeepsOthers(v: Variant, rt: Runtime, definitions: map<string, string>, orig: string,
                                           inners: seq<string>, cur: string, t: seq<real>, g: Store)
    requires forall i :: 0 <= i < |inners| ==> |inners[i]| < |orig|
    ensures SameOutside(DerivLoop(v, rt, definitions, orig, inners, cur, t, g).store, g)
    decreases |orig|, 0, |inners|
  {
    if inners != [] {
      StepKeepsOthers(v, rt, definitions, inners[0], cur, t, g);
      match Step(v, rt, definitions, inners[0], cur, t, g)
      case Abort(_, _) =>
      case Continue(cur', g') =>
        LoopKeepsOthers(v, rt, definitions, orig, inners[1..], cur', t, g');
    }
  }

  lemma {:induction false} StepKeepsOthers(v: Variant, rt: Runtime, definitions: map<string, string>, inner: string, cur: string,
                                           t: seq<real>, g: Store)
    ensures SameOutside(Step(v, rt, definitions, inner, cur, t, g).store, g)
    decreases |inner|, 2
  {
    EvalKeepsOthers(v, rt, definitions, inner, t, g);
    PlaceholderKeyIsPlaceholder(rt.hashText, inner, inner);
  }

  /** A call that returns a value leaves no placeholder behind, not even those of the calls around it. */
  lemma SuccessLeavesNoPlaceholder(v: Variant, rt: Runtime, definitions: map<string, string>, e: string, t: seq<real>, g: Store)
    requires EvalSpec(v, rt, definitions, e, t, g).outcome.Returned?
    requires EvalSpec(v, rt, definitions, e, t, g).outcome.value.Some?
    ensures Placeholders(EvalSpec(v, rt, definitions, e, t, g).store) == map[]
  {
  }

  /**
   * So a call that returns a value leaves the global names exactly as they
   * were, less every placeholder.
   */
  lemma SuccessStore(v: Variant, rt: Runtime, definitions: map<string, string>, e: string, t: seq<real>, g: Store)
    requires EvalSpec(v, rt, definitions, e, t, g).outcome.Returned?
    requires EvalSpec(v, rt, definitions, e, t, g).outcome.value.Some?
    ensures EvalSpec(v, rt, definitions, e, t, g).store == WithoutPlaceholders(g)
  {
    EvalKeepsOthers(v, rt, definitions, e, t, g);
    SuccessLeavesNoPlaceholder(v, rt, definitions, e, t, g);
  }

  /**
   * Without derivative notation the evaluation is the final `eval` alone:
   * on success every placeholder is deleted, on failure the global names
   * are left exactly as they were.
   */
  lemma WithoutDerivatives(v: Variant, rt: Runtime, definitions: map<string, string>, e: string, t: seq<real>, g: Store)
    requires Inners(e) == []
    ensures var r := rt.eval(Processed(v, rt, definitions, e), t, Placeholders(g), definitions);
            EvalSpec(v, rt, definitions, e, t, g)
            == if r.Some? then Eval(Returned(r), WithoutPlaceholders(g)) else Eval(Returned(None), g)
  {
  }

  /**
   * A lone call of a registered function whose name does not end in `rect`
   * reaches `eval` as the text `evaluate_function('name', 'arg', t)`,
   * together with the registry that this call reads the body from. The
   * text holds no `rect(` for the normaliser and no `)/d(t)` for the
   * derivative pattern, since its only `(` follows the name and its only
   * `)` is its last character.
   */
  lemma RegisteredCallIsDelegated(v: Variant, rt: Runtime, definitions: map<string, string>, name: string, arg: string,
                                  t: seq<real>, g: Store)
    requires name in definitions && name != [] && AllLetters(name) && arg != [] && ParenFree(arg)
    requires |name| < 4 || name[|name| - 4..] != "rect"
    ensures var r := rt.eval(Marker(name, arg), t, Placeholders(g), definitions);
            EvalSpec(v, rt, definitions, CallText(name, arg), t, g)
            == if r.Some? then Eval(Returned(r), WithoutPlaceholders(g)) else Eval(Returned(None), g)
  {
    var s := CallText(name, arg);
    CallTextParens(name, arg);
    forall k | 0 <= k <= |s|
      ensures !OccursAt(s, Terminator, k)
    {
      if k + 6 <= |s| {
        assert s[k..k + 6][0] == s[k] != ')';
      }
    }
    NoInnersWithoutTerminator(s);
    forall p | 0 <= p <= |s|
      ensures !StartsRect(s, p)
    {
      CallNotRectAt(name, arg, p);
    }
    NormalizedWithoutRect(v, rt.floatRepr, s);
    RewriteSingleCall(name, arg, definitions);
    WithoutDerivatives(v, rt, definitions, s, t, g);
  }

  /** `rect(` could only start four characters before the `(` of a call, so only in a name ending in `rect`. */
  lemma CallNotRectAt(name: string, arg: string, p: nat)
    requires AllLetters(name) && ParenFree(arg) && (|name| < 4 || name[|name| - 4..] != "rect")
    requires p <= |CallText(name, arg)|
    ensures !StartsRect(CallText(name, arg), p)
  {
    var s := CallText(name, arg);
    CallTextParens(name, arg);
    if p + 5 <= |s| {
      assert s[p..p + 5][4] == s[p + 4];
      if p + 4 == |name| {
        assert s[p..p + 4] == name[|name| - 4..];
        assert s[p..p + 5][..4] == s[p..p + 4];
        assert "rect("[..4] == "rect";
      }
    }
  }

  /**
   * The canonical `rect((t-c)/w)` holds no call: its only `(` are the two
   * after `rect`, and the second of them stops any argument after the first.
   */
  lemma NoCallInCanonical(c: string, w: string, definitions: map<string, string>)
    requires FloatChars(c) && FloatChars(w)
    ensures RewriteCalls(CanonicalText(c, w), definitions) == CanonicalText(c, w)
  {
    var s := CanonicalText(c, w);
    assert s[..8] == "rect((t-";
    forall k | 6 <= k < |s|
      ensures s[k] != '('
    {
      if 8 <= k < 8 + |c| {
        assert s[k] == c[k - 8] && IsFloatChar(c[k - 8]);
      } else if 10 + |c| <= k < 10 + |c| + |w| {
        assert s[k] == w[k - 10 - |c|] && IsFloatChar(w[k - 10 - |c|]);
      } else if k < 8 {
        assert s[k] == s[..8][k];
      }
    }
    forall p | 0 <= p <= |s|
      ensures CallMatcher(s)(p).None?
    {
      assert s[4] == s[..8][4] && s[5] == s[..8][5];
      if p < 4 {
        assert forall k :: p <= k < 4 ==> s[k] == s[..8][k];
        LettersEndOfLetters(s, p, 4 - p);
        assert ArgEnd(s, 5) == 5;
      }
    }
    SubWithoutMatch(CallMatcher(s), ReplaceCall(definitions), s);
  }

  /**
   * A registered function named `rect` is shadowed by the normaliser:
   * `rect(t+1)` is rewritten to `rect((t--1.0)/1)` first, and in that text
   * no call has an argument free of parentheses, so the final `eval` runs
   * the built-in `rect` and never the registered body.
   */
  lemma RegisteredRectShadowed(v: Variant, rt: Runtime, definitions: map<string, string>, t: seq<real>, g: Store)
    requires "rect" in definitions && FloatChars(rt.floatRepr("1"))
    ensures Processed(v, rt, definitions, "rect(t+1)") == CanonicalText("-" + rt.floatRepr("1"), "1")
    ensures var r := rt.eval(CanonicalText("-" + rt.floatRepr("1"), "1"), t, Placeholders(g), definitions);
            EvalSpec(v, rt, definitions, "rect(t+1)", t, g)
            == if r.Some? then Eval(Returned(r), WithoutPlaceholders(g)) else Eval(Returned(None), g)
  {
    RectCallProcessed(v, rt.floatRepr, definitions);
    RectCallHasNoDerivative();
    WithoutDerivatives(v, rt, definitions, "rect(t+1)", t, g);
  }

  lemma RectCallProcessed(v: Variant, floatRepr: string -> string, definitions: map<string, string>)
    requires FloatChars(floatRepr("1"))
    ensures RewriteCalls(Normalized(v, floatRepr, "rect(t+1)"), definitions) == CanonicalText("-" + floatRepr("1"), "1")
  {
    assert AllDigits("1");
    assert UnscaledText(true, "1") == "rect(t+1)";
    NormalizeUnscaledText(v, floatRepr, true, "1");
    CenterChars(floatRepr, RectArgs(true, "1", None));
    assert CenterText(floatRepr, RectArgs(true, "1", None)) == "-" + floatRepr("1");
    NoCallInCanonical("-" + floatRepr("1"), "1", definitions);
  }

  lemma RectCallHasNoDerivative()
    ensures Inners("rect(t+1)") == []
  {
    var e := "rect(t+1)";
    forall p | 0 <= p <= |e|
      ensures !OpensAt(e, p)
    {
      if p + 2 <= |e| {
        assert e[p..p + 2][0] == e[p] != 'd';
      }
    }
    NoInnersWithoutOpening(e);
  }

  /** Deleting the placeholders twice is deleting them once. */
  lemma WithoutPlaceholdersTwice(g: Store)
    ensures WithoutPlaceholders(WithoutPlaceholders(g)) == WithoutPlaceholders(g)
  {
  }

  /** Deleting the placeholders after storing one more deletes that one too. */
  lemma WithoutPlaceholdersAfterStore(g: Store, key: string, d: seq<real>)
    requires IsPlaceholderKey(key)
    ensures WithoutPlaceholders(g[key := d]) == WithoutPlaceholders(g)
  {
  }

  /** The round for an inner text whose evaluation returns `f` with the global names `g'`, and whose derivative is `d`. */
  lemma StepOfValue(v: Variant, rt: Runtime, definitions: map<string, string>, inner: string, cur: string,
                    t: seq<real>, g: Store, f: seq<real>, g': Store, d: seq<real>)
    requires EvalSpec(v, rt, definitions, inner, t, g) == Eval(Returned(Some(f)), g')
    requires ComputeDerivative(f, t) == Some(d)
    ensures var key := PlaceholderKey(rt.hashText, inner);
            Step(v, rt, definitions, inner, cur, t, g) == Continue(ReplaceAll(cur, Occurrence(inner), key), g'[key := d])
  {
  }

  /**
   * The round for an inner text that evaluates to `f`, with the derivative
   * `d`: the inner call has deleted every placeholder, so the global names
   * after the round are those from before it, less every placeholder, plus
   * the new one.
   */
  lemma SuccessfulRound(v: Variant, rt: Runtime, definitions: map<string, string>, inner: string, cur: string,
                        t: seq<real>, g: Store, f: seq<real>, d: seq<real>)
    requires EvalSpec(v, rt, definitions, inner, t, g).outcome == Returned(Some(f))
    requires ComputeDerivative(f, t) == Some(d)
    ensures var key := PlaceholderKey(rt.hashText, inner);
            Step(v, rt, definitions, inner, cur, t, g)
            == Continue(ReplaceAll(cur, Occurrence(inner), key), WithoutPlaceholders(g)[key := d])
  {
    SuccessStore(v, rt, definitions, inner, t, g);
    StepOfValue(v, rt, definitions, inner, cur, t, g, f, WithoutPlaceholders(g), d);
  }

  /**
   * An inner text that evaluates to None is skipped: the text keeps its
   * derivative notation, and the global names are those the inner call
   * left, any placeholders it stored among them.
   */
  lemma NoneRoundKeepsText(v: Variant, rt: Runtime, definitions: map<string, string>, inner: string, cur: string,
                           t: seq<real>, g: Store)
    requires EvalSpec(v, rt, definitions, inner, t, g).outcome == Returned(None)
    ensures Step(v, rt, definitions, inner, cur, t, g) == Continue(cur, EvalSpec(v, rt, definitions, inner, t, g).store)
    ensures SameOutside(Step(v, rt, definitions, inner, cur, t, g).store, g)
  {
    EvalKeepsOthers(v, rt, definitions, inner, t, g);
  }

  /**
   * An inner value whose derivative cannot be taken raises, after the inner
   * call has already deleted every placeholder.
   */
  lemma FailedDerivativeRaises(v: Variant, rt: Runtime, definitions: map<string, string>, inner: string, cur: string,
                               t: seq<real>, g: Store, f: seq<real>)
    requires EvalSpec(v, rt, definitions, inner, t, g).outcome == Returned(Some(f))
    requires ComputeDerivative(f, t).None?
    ensures Step(v, rt, definitions, inner, cur, t, g) == Abort(DerivativeFailed, WithoutPlaceholders(g))
  {
    SuccessStore(v, rt, definitions, inner, t, g);
  }

  /** The loop over one inner text whose round does not raise. */
  lemma LoopOfOne(v: Variant, rt: Runtime, definitions: map<string, string>, orig: string, a: string,
                  cur: string, t: seq<real>, g: Store, l: Loop)
    requires |a| < |orig|
    requires l.Continue? && Step(v, rt, definitions, a, cur, t, g) == l
    ensures DerivLoop(v, rt, definitions, orig, [a], cur, t, g) == l
  {
    assert [a][1..] == [];
  }

  /** The loop over two inner texts whose rounds do not raise. */
  lemma LoopOfTwo(v: Variant, rt: Runtime, definitions: map<string, string>, orig: string, a: string, b: string,
                  t: seq<real>, g: Store, la: Loop, lb: Loop)
    requires |a| < |orig| && |b| < |orig|
    requires la.Continue? && Step(v, rt, definitions, a, orig, t, g) == la
    requires lb.Continue? && Step(v, rt, definitions, b, la.expr, t, la.store) == lb
    ensures DerivLoop(v, rt, definitions, orig, [a, b], orig, t, g) == lb
  {
    assert [a, b][1..] == [b];
    LoopOfOne(v, rt, definitions, orig, b, la.expr, t, la.store, lb);
  }

  /** When the loop runs through, the evaluation is the final `eval` of the rewritten text. */
  lemma EvalAfterLoop(v: Variant, rt: Runtime, definitions: map<string, string>, e: string, t: seq<real>, g: Store,
                      e': string, g': Store)
    requires DerivLoop(v, rt, definitions, e, Inners(e), e, t, g) == Continue(e', g')
    ensures EvalSpec(v, rt, definitions, e, t, g) == FinalEval(v, rt, definitions, e', t, g')
  {
  }

  /**
   * One derivative `d(a)/d(t)` whose inner text evaluates: the inner call
   * deletes every placeholder (it succeeded), the derivative is stored under
   * the name made from `a`, the notation is replaced by that name, and the
   * rewritten text is evaluated. If that final evaluation fails, the
   * placeholder stays in the global names after the call has returned.
   */
  lemma {:induction false} SingleDerivative(v: Variant, rt: Runtime, definitions: map<string, string>, e: string, t: seq<real>, g: Store,
                                            a: string, f: seq<real>, d: seq<real>)
    requires Inners(e) == [a]
    requires EvalSpec(v, rt, definitions, a, t, g).outcome == Returned(Some(f))
    requires ComputeDerivative(f, t) == Some(d)
    ensures var key := PlaceholderKey(rt.hashText, a);
            var g' := WithoutPlaceholders(g)[key := d];
            EvalSpec(v, rt, definitions, e, t, g) == FinalEval(v, rt, definitions, ReplaceAll(e, Occurrence(a), key), t, g')
    ensures var key := PlaceholderKey(rt.hashText, a);
            var r := EvalSpec(v, rt, definitions, e, t, g);
            r.outcome == Returned(None) ==> key in r.store && r.store[key] == d
  {
    var key := PlaceholderKey(rt.hashText, a);
    var g' := WithoutPlaceholders(g)[key := d];
    SuccessfulRound(v, rt, definitions, a, e, t, g, f, d);
    assert |Inners(e)[0]| + 8 <= |e|;
    LoopOfOne(v, rt, definitions, e, a, e, t, g, Continue(ReplaceAll(e, Occurrence(a), key), g'));
    EvalAfterLoop(v, rt, definitions, e, t, g, ReplaceAll(e, Occurrence(a), key), g');
  }

  /**
   * Two derivatives whose inner texts evaluate: the second inner call
   * deletes the placeholder stored for the first, so the loop hands to the
   * final `eval` the second derivative only (unless both names coincide),
   * and the first placeholder in the text no longer names anything.
   */
  lemma {:induction false} SecondDerivativeDropsFirst(v: Variant, rt: Runtime, definitions: map<string, string>, e: string,
                                                      t: seq<real>, g: Store, a: string, b: string,
                                                      fa: seq<real>, da: seq<real>, fb: seq<real>, db: seq<real>)
    requires Inners(e) == [a, b]
    requires EvalSpec(v, rt, definitions, a, t, g).outcome == Returned(Some(fa))
    requires ComputeDerivative(fa, t) == Some(da)
    requires EvalSpec(v, rt, definitions, b, t, WithoutPlaceholders(g)[PlaceholderKey(rt.hashText, a) := da]).outcome
             == Returned(Some(fb))
    requires ComputeDerivative(fb, t) == Some(db)
    ensures var ka, kb := PlaceholderKey(rt.hashText, a), PlaceholderKey(rt.hashText, b);
            var e' := ReplaceAll(ReplaceAll(e, Occurrence(a), ka), Occurrence(b), kb);
            DerivLoop(v, rt, definitions, e, Inners(e), e, t, g) == Continue(e', WithoutPlaceholders(g)[kb := db])
    ensures var ka, kb := PlaceholderKey(rt.hashText, a), PlaceholderKey(rt.hashText, b);
            ka != kb ==> ka !in WithoutPlaceholders(g)[kb := db]
  {
    var ka, kb := PlaceholderKey(rt.hashText, a), PlaceholderKey(rt.hashText, b);
    var w := WithoutPlaceholders(g);
    var ea := ReplaceAll(e, Occurrence(a), ka);
    SuccessfulRound(v, rt, definitions, a, e, t, g, fa, da);
    SuccessfulRound(v, rt, definitions, b, ea, t, w[ka := da], fb, db);
    PlaceholderKeyIsPlaceholder(rt.hashText, a, a);
    WithoutPlaceholdersAfterStore(w, ka, da);
    WithoutPlaceholdersTwice(g);
    assert |Inners(e)[0]| + 8 <= |e| && |Inners(e)[1]| + 8 <= |e|;
    LoopOfTwo(v, rt, definitions, e, a, b, t, g, Continue(ea, w[ka := da]), Continue(ReplaceAll(ea, Occurrence(b), kb), w[kb := db]));
  }

  /** An unknown function name raises at once, and nothing is evaluated or changed. */
  lemma UnknownFunctionRaises(v: Variant, rt: Runtime, definitions: map<string, string>, name: string, targ: string, t: seq<real>, g: Store)
    requires name !in definitions
    ensures CallSpec(v, rt, definitions, name, targ, t, g) == Eval(Raised(UnknownFunction(name)), g)
  {
  }

  /**
   * The time transform replaces every `t` of the argument text, wherever
   * it stands (also inside a longer name), by `t_values`.
   */
  lemma TimeTextSubstitutesEveryT(targ: string)
    ensures ReplaceAll(targ, "t", "t_values") == SubstituteChar(targ, 't', "t_values")
  {
    ReplaceAllChar(targ, 't', "t_values");
  }

  class Evaluator {

    /** Which copy of `process_rect_expressions` is used. */
    const variant: Variant
    const rt: Runtime

    /** `function_definitions`: name to body text. */
    var definitions: map<string, string>

    /** The global names holding arrays, the placeholders among them. */
    var store: Store

    constructor (variant: Variant, rt: Runtime)
      ensures this.variant == variant && this.rt == rt
      ensures definitions == map[] && store == map[]
    {
      this.variant := variant;
      this.rt := rt;
      definitions := map[];
      store := map[];
    }

    /** `define_function`: the name is bound to the body, replacing an earlier body. */
    method DefineFunction(name: string, body: string)
      modifies this
      ensures definitions == old(definitions)[name := body]
      ensures store == old(store)
    {
      definitions := definitions[name := body];
    }

    /** `evaluate_function`. */
    method EvaluateFunction(name: string, targ: string, t: seq<real>) returns (o: Outcome)
      modifies this
      ensures definitions == old(definitions)
      ensures Eval(o, store) == CallSpec(variant, rt, definitions, name, targ, t, old(store))
    {
      if name !in definitions {
        return Raised(UnknownFunction(name));
      }
      var body := definitions[name];
      var tm := rt.evalTime(ReplaceAll(targ, "t", "t_values"), t);
      if tm.None? {
        return Raised(TimeTransformFailed);
      }
      o := EvaluateExpression(body, tm.value);
    }

    /** `evaluate_expression`. */
    method EvaluateExpression(expr: string, t: seq<real>) returns (o: Outcome)
      modifies this
      ensures definitions == old(definitions)
      ensures Eval(o, store) == EvalSpec(variant, rt, definitions, expr, t, old(store))
      decreases |expr|, 1
    {
      var l := RunDerivatives(expr, Inners(expr), t);
      if l.Abort? {
        return Raised(l.error);
      }
      o := FinishEvaluation(l.expr, t);
    }

    /**
     * The derivative loop of `evaluate_expression` over the inner texts
     * that `re.findall` listed: each is evaluated recursively, and each
     * derivative obtained is stored and put in the text.
     */
    method RunDerivatives(expr: string, inners: seq<string>, t: seq<real>) returns (l: Loop)
      requires forall i :: 0 <= i < |inners| ==> |inners[i]| < |expr|
      modifies this
      ensures definitions == old(definitions)
      ensures l == DerivLoop(variant, rt, definitions, expr, inners, expr, t, old(store)) && store == l.store
      decreases |expr|, 0
    {
      var e := expr;
      var i := 0;
      while i < |inners|
        invariant 0 <= i <= |inners|
        invariant definitions == old(definitions)
        invariant DerivLoop(variant, rt, definitions, expr, inners[i..], e, t, store)
               == DerivLoop(variant, rt, definitions, expr, inners, expr, t, old(store))
        decreases |inners| - i
      {
        var inner := inners[i];
        assert inners[i..][0] == inner && inners[i..][1..] == inners[i + 1..];
        var r := EvaluateExpression(inner, t);
        match r {
          case Raised(err) =>
            return Abort(err, store);
          case Returned(None) =>
          case Returned(Some(f)) =>
            var d := ComputeDerivative(f, t);
            if d.None? {
              return Abort(DerivativeFailed, store);
            }
            var key := PlaceholderKey(rt.hashText, inner);
            e := ReplaceAll(e, Occurrence(inner), key);
            store := store[key := d.value];
        }
        i := i + 1;
      }
      l := Continue(e, store);
    }

    /** The end of `evaluate_expression`: processing, `eval`, and the deletion of the placeholders on success. */
    method FinishEvaluation(e: string, t: seq<real>) returns (o: Outcome)
      modifies this
      ensures definitions == old(definitions)
      ensures Eval(o, store) == FinalEval(variant, rt, definitions, e, t, old(store))
    {
      var processed := ProcessRectExpressions(variant, rt.floatRepr, e);
      processed := RewriteCalls(processed, definitions);
      var namespace := CollectPlaceholders();
      var result := rt.eval(processed, t, namespace, definitions);
      if result.Some? {
        DeletePlaceholders();
      }
      o := Returned(result);
    }

    /** The loop that copies every placeholder into the namespace of `eval`. */
    method CollectPlaceholders() returns (namespace: Store)
      ensures namespace == Placeholders(store)
    {
      namespace := map[];
      var keys := store.Keys;
      while keys != {}
        invariant keys <= store.Keys
        invariant forall k :: k in namespace <==> k in store && k !in keys && IsPlaceholderKey(k)
        invariant forall k :: k in namespace ==> namespace[k] == store[k]
        decreases |keys|
      {
        var k :| k in keys;
        if IsPlaceholderKey(k) {
          namespace := namespace[k := store[k]];
        }
        keys := keys - {k};
      }
    }

    /** The loop that deletes every placeholder from the global names. */
    method DeletePlaceholders()
      modifies this
      ensures store == WithoutPlaceholders(old(store))
      ensures definitions == old(definitions)
    {
      var keys := store.Keys;
      while keys != {}
        invariant keys <= old(store).Keys
        invariant definitions == old(definitions)
        invariant forall k :: k in store <==> k in old(store) && (k in keys || !IsPlaceholderKey(k))
        invariant forall k :: k in store ==> store[k] == old(store)[k]
        decreases |keys|
      {
        var k :| k in keys;
        if IsPlaceholderKey(k) {
          store := store - {k};
        }
        keys := keys - {k};
      }
    }
  }
}
