# SignalPlot core in Dafny

SignalPlot reads one line at a time. A line of the form `x(t) = body`
defines a signal. Any other line is an expression in `t`, evaluated on a
sampled time axis and plotted. The expression may use the pulse `rect`, the
unit step `u` and the derivative notation `d(expr)/d(t)`, and it may call
signals defined earlier with a transformed time argument, such as `x(2*t+1)`.

This project models the core of that pipeline and proves what it does.

- **Definition recognition** (`Plotter`): the pattern
  `^[a-zA-Z]+\([a-zA-Z]\)\s*=` and the split into name and body.
- **Dispatch** (`Plotter.ParseAndPlot`): either register the definition, or
  evaluate the line and plot, or stop when the evaluation gave `None`.
- **The registry and the evaluator** (`Evaluator.Evaluator`).
  - `define_function`.
  - `evaluate_function`: an unknown name raises; every `t` of the argument
    text becomes `t_values`; the body is then evaluated on the transformed axis.
  - `evaluate_expression`:
    - the non-greedy derivative pattern lists the inner texts;
    - each inner text is evaluated recursively;
    - its derivative is stored in the module's globals under
      `__DERIVATIVE_RESULT_<hash>_`, and that name replaces the notation;
    - the rect arguments are normalised and the calls of registered
      functions rewritten;
    - the text goes to `eval`;
    - the placeholders are deleted only when `eval` returned.
- **The rect normaliser** (`RectNormalizer`): two single passes.
  - `rect((t±a)/b)` becomes `rect((t-c)/b)`.
  - `rect(t±a)` becomes `rect((t-c)/1)`.
  - It has two variants. The package copy keeps `b` as written. The
    stand-alone script prints `b` as a float.
- **The call rewriter** (`CallRewriter`): `re.sub` of `([a-zA-Z]+)\(([^()]+)\)`.
  A registered call becomes `evaluate_function('name', 'arg', t)`.
- **The signal functions** (`Signals`): `rect`, `u`, and
  `compute_derivative`, which is `np.gradient` with the step `t[1] - t[0]`,
  over exact reals.

Python's `eval`, the evaluation of a time-transform text, float printing
and `hash` are not computed. They are function-valued parameters, the fields
of `Evaluator.Runtime`. The globals that hold sample arrays form a map, the
field `store` of the evaluator object. The registry `function_definitions`
is the map `definitions`. The package (`signal_plotter/`) and the
stand-alone `plotter.py` each have their own registry and their own
placeholders. An evaluator object is one such module; its `variant` field
selects the copy of the rect normaliser.

Search and replacement follow Python's regular-expression engine:

- `Scanning.Scan` is the left-to-right, non-overlapping search of
  `finditer`, `findall` and `sub`.
- `Spans.Splice` replaces the spans found on the original text.

Each pattern's matcher is written out by hand. Where the pattern mixes
repetitions and fixed characters, the comments explain why no
backtracking alternative exists.

### Behaviour as written

The model keeps the code's behaviour where it is surprising.

- **Deletion.** The placeholders are deleted only on the success path.
  Every placeholder is deleted, those stored by an enclosing call among
  them (`Evaluator.SuccessStore`).
  - With two derivatives in one expression, the second inner evaluation
    deletes the first derivative before the final `eval`
    (`Evaluator.SecondDerivativeDropsFirst`).
  - When the final `eval` fails, the placeholder stays in the globals
    (`Evaluator.SingleDerivative`), unless a call of a registered function
    inside that `eval` returned first: that nested evaluation deletes every
    placeholder on its own success path. An expression such as
    `d(sin(t))/d(t) + x(t) + q` loses its placeholder that way.
- **A registered `rect`.** The rect normaliser runs before the call
  rewriter. With `rect` registered, `rect(t+1)` becomes
  `rect((t--1.0)/1)`, which holds no call the rewriter matches, so the
  built-in `rect` is evaluated and the registered body never is
  (`Evaluator.RegisteredRectShadowed`).
- **Nested derivatives.** Non-greedy matching cuts
  `d(d(sin(t))/d(t))/d(t)` at the first `)/d(t)`, so nested derivatives do
  not work (`Derivatives.NestedDerivativeInner`).
- **Negative centres.** A negative offset prints as `t--3.0`. Neither pattern
  matches that again (`RectNormalizer.NegativeCentreNotRematched`).
- **Negative hashes.** A negative `hash` makes the placeholder something
  other than a Python name (`Derivatives.PlaceholderKeyIsName`). The final
  `eval` then fails, and its `None` is what the oracle reports.
- **Errors inside `eval`.** An exception raised inside the final `eval`
  (from a call of a registered function, for instance) is swallowed.
  Only `None` comes out of it.

## Model

| member | source | states |
|---|---|---|
| Plotter.DefinitionHead | signal_plotter/plotter.py:10 | when the definition pattern matches, it ends on an `=` inside the line |
| Plotter.DefinitionShape | signal_plotter/plotter.py:10 | only lines of the definition shape are definitions: a non-empty letter run from the start, `(`, one letter, `)`, white space only, then the `=` the match ends on |
| Plotter.DefinitionIsHead | plotter.py:230 | the `"=" in expression` test adds nothing: a line is a definition exactly when the pattern matches at its start |
| Plotter.DefinitionNameIsLetters | signal_plotter/plotter.py:10-11 | for a definition, `split("(")[0].strip()` is the leading letter run, non-empty and all letters |
| Plotter.DefinitionBodyAfterHead | signal_plotter/plotter.py:10-12 | for a definition, the first `=` is the one the pattern ends on, and the body is the stripped text after it |
| Plotter.DefinitionOfParts | plotter.py:230-233 | `name(v) = body` with a letter name, a one-letter parameter and any white space before `=` is a definition of `name` with body `body.strip()` |
| Plotter.TwoLetterParameterIsNoDefinition | signal_plotter/plotter.py:10 | `f(tt) = t` is not a definition, since the parameter must be one letter |
| Plotter.ParseAndPlot | signal_plotter/plotter.py:7-20 | a definition updates the registry only, leaves the globals alone and plots nothing; any other line leaves the registry alone, evaluates as `evaluate_expression` does, and plots only when that returned samples (`None` returns with no plot; an exception propagates) |
| Evaluator.Evaluator.constructor | signal_plotter/evaluator.py:17-18 | the registry and the placeholder globals start empty |
| Evaluator.Evaluator.DefineFunction | signal_plotter/evaluator.py:21-24 | the name is bound to the body, replacing any earlier body; every other name and the globals are unchanged |
| Evaluator.Evaluator.EvaluateFunction | signal_plotter/evaluator.py:27-38 | result and new globals are those of the call specification: unknown name raises first, failed time transform raises, otherwise the body is evaluated on the transformed axis; the registry is unchanged |
| Evaluator.UnknownFunctionRaises | signal_plotter/evaluator.py:29-30 | an unregistered name raises before the time transform is evaluated, and the globals are unchanged |
| Evaluator.TimeTextSubstitutesEveryT | signal_plotter/evaluator.py:33-34 | the time text has every `t` replaced by `t_values`, including the `t` inside longer words |
| Evaluator.CallSpec | signal_plotter/evaluator.py:27-38 | the specification of `evaluate_function`: an unknown name raises with the globals untouched; otherwise the argument text with every `t` written `t_values` is evaluated, a failure raises, and the body is evaluated on the new axis |
| Evaluator.EvalSpec | signal_plotter/evaluator.py:41-97 | the specification of `evaluate_expression`: the derivative loop over the listed inner texts, then, unless it raised, the final `eval` of the resulting text |
| Evaluator.DerivLoop | signal_plotter/evaluator.py:47-53 | the rounds over the inner texts in order, each working on the text and globals the previous one left; the first exception ends the loop with the globals of that moment |
| Evaluator.FinalEval | signal_plotter/evaluator.py:55-97 | normalise, rewrite calls, `eval` with the placeholders and the registry; a value deletes every placeholder, a failure returns `None` and keeps the globals |
| Evaluator.Evaluator.EvaluateExpression | signal_plotter/evaluator.py:41-97 | outcome and new globals are those of the evaluation specification (derivative loop, then processing and `eval`); the registry is unchanged |
| Evaluator.Evaluator.RunDerivatives | signal_plotter/evaluator.py:47-53 | the loop over the listed inner texts ends in the state the loop specification gives, the first exception leaving it |
| Evaluator.Evaluator.FinishEvaluation | signal_plotter/evaluator.py:55-97 | rect normalisation, then call rewriting, then `eval` with the placeholders; on success the placeholders are deleted; on failure `None` is returned and this call deletes nothing (a nested call that returned inside the `eval` may already have deleted them) |
| Evaluator.Evaluator.CollectPlaceholders | signal_plotter/evaluator.py:85-87 | the namespace receives exactly the globals whose names carry the placeholder prefix, with their values |
| Evaluator.Evaluator.DeletePlaceholders | signal_plotter/evaluator.py:91-93 | the globals afterwards are the old ones less every name with the placeholder prefix |
| Evaluator.EvalKeepsOthers | signal_plotter/evaluator.py:47-97 | whatever it returns or raises, an evaluation changes no global whose name is not a placeholder |
| Evaluator.SuccessLeavesNoPlaceholder | signal_plotter/evaluator.py:89-94 | an evaluation that returns a value leaves no placeholder at all in the globals |
| Evaluator.SuccessStore | signal_plotter/evaluator.py:89-94 | an evaluation that returns a value leaves the globals as they were before it, less every placeholder, including those of enclosing calls |
| Evaluator.WithoutDerivatives | signal_plotter/evaluator.py:55-97 | without derivative notation the evaluation is the final `eval` alone: success deletes the placeholders, failure gives None and changes nothing in this call (what a nested `evaluate_function` run inside that `eval` deleted is the oracle's, see "Left out") |
| Evaluator.RegisteredCallIsDelegated | signal_plotter/evaluator.py:56-94 | a lone call of a registered function whose name does not end in `rect` reaches `eval` as `evaluate_function('name', 'arg', t)` together with the current registry, so what it evaluates to depends on the body registered at that moment |
| Evaluator.RegisteredRectShadowed | signal_plotter/evaluator.py:55-65 | with `rect` registered, `rect(t+1)` is normalised to `rect((t--c)/1)` and left alone by the call rewriter, so `eval` receives the built-in form and the registered body is never delegated to |
| Evaluator.NoneRoundKeepsText | signal_plotter/evaluator.py:48-49 | an inner text that evaluates to None leaves the notation in the text and stores nothing new |
| Evaluator.FailedDerivativeRaises | signal_plotter/evaluator.py:49-50 | an inner value whose derivative cannot be taken raises, after the inner call has deleted every placeholder |
| Evaluator.SuccessfulRound | signal_plotter/evaluator.py:48-53 | a round whose inner text evaluates replaces the notation by the placeholder name and stores the derivative under it, on top of globals the inner call has already wiped |
| Evaluator.SingleDerivative | signal_plotter/evaluator.py:47-97 | one derivative: the final `eval` sees the text with the placeholder and the globals with that one placeholder; if that `eval` fails, this call leaves the placeholder behind (unless a registered call inside the `eval` returned and deleted it) |
| Evaluator.SecondDerivativeDropsFirst | signal_plotter/evaluator.py:47-53 | with two derivatives, the second inner evaluation deletes the first placeholder, so only the second reaches the final `eval` |
| RectNormalizer.MatchAt | signal_plotter/evaluator.py:105-116 | a match of either rect pattern starts with `rect(` inside the text; its offset is a decimal literal `\d+(\.\d+)?`, and it captures a width exactly for the scaled pattern, also a decimal literal |
| RectNormalizer.MatchAtShape | signal_plotter/evaluator.py:105-116 | what a match covers is `rect(` followed by the tokens of its pattern, with a run of white space before each token, the captured sign in place of `[+-]` and the captured literals in place of the numbers |
| RectNormalizer.MatchAtOfWritten | signal_plotter/evaluator.py:105-116 | conversely, `rect(` and the tokens of a pattern written at any position, with any white space before each token and decimal literals, are one match there, capturing exactly that sign and those literals |
| RectNormalizer.Replacement | signal_plotter/evaluator.py:110-121 | the replacement `rect((t-c)/w)` with `c` the negated float of the offset for `+` and the float of the offset for `-`; `w` is the width as written (package), its float (stand-alone), or `1` for the unscaled form |
| RectNormalizer.Normalized | signal_plotter/evaluator.py:100-124 | the scaled pass on the input, then the unscaled pass on its result |
| RectNormalizer.NormalizedWithoutRect | signal_plotter/evaluator.py:105-122 | a text in which `rect(` starts nowhere is left as it is |
| RectNormalizer.RectPass | signal_plotter/evaluator.py:108-113 | one pass is the splice, into the input, of the replacements of all matches collected once on that input |
| RectNormalizer.ProcessRectExpressions | signal_plotter/evaluator.py:100-124 | the scaled pass followed by the unscaled pass, each run exactly once |
| RectNormalizer.MatchScaledText | signal_plotter/evaluator.py:105-108 | `rect((t±a)/b)` with decimal literals is one whole match capturing the sign, `a` and `b` |
| RectNormalizer.MatchUnscaledText | signal_plotter/evaluator.py:116-117 | `rect(t±a)` with a decimal literal is one whole match capturing the sign and `a` |
| RectNormalizer.NormalizeScaledText | signal_plotter/evaluator.py:109-113 | `rect((t+a)/b)` becomes `rect((t--a)/b)` and `rect((t-a)/b)` becomes `rect((t-a)/b)`, with `a` printed as a float and `b` as written (package) or as a float (stand-alone) |
| RectNormalizer.NormalizeSpacedScaled | signal_plotter/evaluator.py:105-113 | the sign rule of the scaled pass for a text with any white space between its tokens: `rect( ( t + a ) / b )` becomes `rect((t--a)/b)`, and so on |
| RectNormalizer.NormalizeSpacedUnscaled | signal_plotter/evaluator.py:105-122 | the same for the unscaled form with any white space: the scaled pass leaves it alone and the unscaled pass writes `rect((t-c)/1)` |
| RectNormalizer.NormalizeUnscaledText | signal_plotter/evaluator.py:118-122 | `rect(t+a)` becomes `rect((t--a)/1)` and `rect(t-a)` becomes `rect((t-a)/1)` |
| RectNormalizer.UnscaledKeepsCanonical | signal_plotter/evaluator.py:115-117 | the unscaled pass leaves the canonical form the scaled pass wrote untouched |
| RectNormalizer.PackageFormsAgree | signal_plotter/evaluator.py:110-122 | in the package copy `rect((t±a)/1)` and `rect(t±a)` normalise to the same text |
| RectNormalizer.StandaloneFormsDiffer | plotter.py:192-222 | in the stand-alone copy those two forms agree exactly when `1` printed as a float is `1` |
| RectNormalizer.CanonicalIsFixedPoint | signal_plotter/evaluator.py:100-124 | a canonical form whose numbers print as themselves is left as it is by both passes |
| RectNormalizer.NegativeCanonicalStays | signal_plotter/evaluator.py:105-122 | a canonical form with a negative centre (`t--`) is matched by neither pattern |
| RectNormalizer.NegativeCentreNotRematched | signal_plotter/evaluator.py:111-112 | normalising the output of `rect((t+a)/b)` a second time changes nothing |
| RectNormalizer.NormalizedWithoutR | signal_plotter/evaluator.py:105-122 | a text without the letter `r` is left as it is |
| RectNormalizer.ArithmeticOffsetPassesThrough | signal_plotter/evaluator.py:116 | `rect(t+3/2)` is matched by neither pattern and passes through unchanged |
| RectNormalizer.ScaledTimePassesThrough | signal_plotter/evaluator.py:105-116 | `rect(2*t)` is matched by neither pattern and passes through unchanged |
| CallRewriter.CallAt | signal_plotter/evaluator.py:56 | a call match is `name(arg)` with the whole letter run as name and a non-empty argument free of parentheses, ending in `)` |
| CallRewriter.CallAtOfCall | signal_plotter/evaluator.py:56 | conversely every such call written in the text is matched exactly there |
| CallRewriter.ReplaceCall | signal_plotter/evaluator.py:58-63 | a match whose name is registered becomes `evaluate_function('name', 'arg', t)`; any other match is given back as matched |
| CallRewriter.RewriteCalls | signal_plotter/evaluator.py:65 | every call the left-to-right search finds is replaced by ReplaceCall's text, the rest of the text kept |
| CallRewriter.CallsAreWords | signal_plotter/evaluator.py:65 | a call the rewrite finds never starts right after a letter, so names match as whole words |
| CallRewriter.UnregisteredUnchanged | signal_plotter/evaluator.py:58-65 | when no call the left-to-right search finds has a registered name, the text is unchanged (a registered name inside a longer word, as `x` in `ax(t)`, does not count) |
| CallRewriter.NoParenthesisUnchanged | signal_plotter/evaluator.py:56-65 | a text without `(` is unchanged |
| CallRewriter.RewriteSingleCall | signal_plotter/evaluator.py:58-63 | a lone call becomes `evaluate_function('name', 'arg', t)` exactly when its name is registered |
| CallRewriter.OnlyWholeNamesRewritten | signal_plotter/evaluator.py:56-65 | with only `x` registered, `ax(t)` is left alone |
| CallRewriter.NestedCallKeepsOuter | signal_plotter/evaluator.py:56-65 | in `x(x(t))` only the inner call is rewritten; the outer call stays around it |
| Derivatives.DerivativeAt | signal_plotter/evaluator.py:44 | a derivative match is `d(inner)/d(t)` written at its start |
| Derivatives.InnerStopsAtFirstTerminator | signal_plotter/evaluator.py:44 | the inner text is as short as possible: no `)/d(t)` starts inside it and it holds no newline |
| Derivatives.DerivativeAtOfOccurrence | signal_plotter/evaluator.py:44 | conversely `d(inner)/d(t)` whose inner text holds no terminator and no newline is matched with exactly that inner text |
| Derivatives.FirstOccurrenceMatches | signal_plotter/evaluator.py:44 | a text starting with `d(inner)/d(t)`, where the inner text holds no newline and no `)/`, matches there with that inner text |
| Derivatives.InnersOccur | signal_plotter/evaluator.py:45-52 | every inner text listed occurs in the text in derivative notation, so the replacement finds it |
| Derivatives.Inners | signal_plotter/evaluator.py:44-45 | the inner texts of the derivative matches from left to right; each is at least eight characters shorter than the text, which the recursion on inner texts relies on |
| Derivatives.NoInnersWithoutOpening | signal_plotter/evaluator.py:44-45 | a text without `d(` lists no derivative |
| Derivatives.NestedDerivativeInner | signal_plotter/evaluator.py:44-48 | in `d(d(sin(t))/d(t))/d(t)` the only inner text listed is `d(sin(t)` |
| Derivatives.NoInnersWithoutTerminator | signal_plotter/evaluator.py:44-45 | a text without `)/d(t)` lists no derivative |
| Derivatives.PlaceholderKey | signal_plotter/evaluator.py:51 | the name `__DERIVATIVE_RESULT_<hash>_` for an inner text |
| Derivatives.PlaceholderKeyIsPlaceholder | signal_plotter/evaluator.py:51-53 | every placeholder name carries the prefix the namespace loop looks for, and equal inner texts give the same name |
| Derivatives.PlaceholderKeyIsName | signal_plotter/evaluator.py:51-52 | the placeholder is a Python name exactly when the hash is not negative |
| Scanning.Scan | signal_plotter/evaluator.py:108 | the matches, found from left to right, each starting at or after the end of the one before, all inside the text |
| Scanning.ScanLeftmost | signal_plotter/evaluator.py:108 | the search misses no match: every match lies inside one found |
| Scanning.ScanInOrder | signal_plotter/evaluator.py:108 | the matches found come from left to right and do not overlap |
| Scanning.ReplaceFromRight | signal_plotter/evaluator.py:109-113 | replacing the matches from the last to the first gives the left-to-right splice of all replacements into the original text |
| Spans.Splice | signal_plotter/evaluator.py:109-113 | the text with each span of an ordered, non-overlapping list replaced by its replacement and everything between the spans kept |
| Scanning.SubIdentity | signal_plotter/evaluator.py:63-65 | a substitution that gives every match the search finds back as it was leaves the text unchanged |
| Signals.Rect | signal_plotter/functions.py:4-6 | sample by sample 1 where `abs(x) <= 0.5` (ends included) and 0 elsewhere, same length |
| Signals.Step | signal_plotter/functions.py:9-11 | sample by sample 1 where `x >= 0` and 0 elsewhere, same length |
| Signals.RectIsEven | signal_plotter/functions.py:4-6 | `rect(-x) == rect(x)` |
| Signals.RectIsProductOfSteps | signal_plotter/functions.py:4-11 | `rect(x) == u(x + 0.5) * u(0.5 - x)` at every sample |
| Signals.ComputeDerivative | signal_plotter/functions.py:54-58 | defined exactly when the axis and the samples have at least two entries and `t[1] != t[0]`; one value per sample: central differences inside, one-sided at both ends, all with the first step |
| Signals.GradientOfConstant | signal_plotter/functions.py:57 | constant samples have zero gradient everywhere |
| Signals.GradientOfArithmetic | signal_plotter/functions.py:57 | samples growing by `m` per index have gradient `m / dt` everywhere, ends included |
| Signals.DerivativeOfLine | signal_plotter/functions.py:54-58 | on a uniform axis, the derivative of `k*t + d` is `k` at every sample |
| Text.ReplaceAll | signal_plotter/evaluator.py:52 | `str.replace`: the occurrences found from left to right, without overlap, are replaced and the inserted text is not searched again |
| Text.ReplaceAllAbsent | signal_plotter/evaluator.py:52 | replacing a pattern that does not occur leaves the text as it is |
| Text.ReplaceAllChar | signal_plotter/evaluator.py:34 | replacing a one-character pattern writes the replacement in place of every occurrence of that character and keeps every other character |
| Text.Strip | signal_plotter/plotter.py:11-12 | `strip()` removes only white space, from both ends, and leaves no white space at either end |

## Left out

- Python's `eval`, and the `eval` of a time-transform text: parameters of
  the model. The final `eval` receives the text, the axis, the
  placeholders and the registry, since the `evaluate_function` calls it
  runs read the registry; its result therefore depends on the definitions
  current at that moment. What such an `eval` does to the globals (a nested
  `evaluate_function` call runs inside it), and which exceptions it raises,
  are not modelled. Only "returned an array" or "raised" is kept.
- Scalars versus arrays: values are sample sequences. NumPy broadcasting, and
  an expression that evaluates to a bare number, are not modelled.
- Float parsing and printing (`float`, `repr`): a parameter `floatRepr` of
  the model. A negated value is printed as `-` followed by the printing of
  its magnitude, which gives `t--3.0` for a positive offset.
- `hash`: a parameter whose text is an arbitrary decimal integer. The
  randomisation of string hashes between runs is not modelled.
- `\s` and `\d`: ASCII white space and ASCII digits. Python's Unicode
  classes are wider.
- Text.Strip: removes only the six ASCII white-space characters of `\s`.
  Python's `str.strip()` also removes `\x1c`-`\x1f`, `\x85` and the Unicode
  spaces, so a definition name or body carrying those at its ends keeps
  them in the model.
- General regular-expression semantics: only the five patterns used are
  modelled, each by its own matcher. None of them matches the empty text, so
  Python's rules for empty matches never apply.
- Signals.ComputeDerivative: a zero first step makes NumPy divide by zero
  and return `inf`/`nan` samples. The model reports that as a failed
  derivative (`None`), which raises. IEEE rounding of the differences is
  not modelled; samples are exact reals.
- `np.linspace`, `plt` and every plot call: ParseAndPlot takes the time
  axis as a parameter and returns what would be plotted.
- Printed messages (`print`, including the error text in the `except`
  branch).
- The interactive shell (`shell.py`, the REPL in `plotter.py`) and
  `main.py`.
- `sin`, `cos`, `tan`, `exp`, `log`, `ln`, `sqrt`, `abs`: thin NumPy
  wrappers, reached only through `eval`.
- Guaranteed cleanup of placeholders, and a working nested derivative: the
  code has neither, and the model keeps that.
