/**
 * The rect-argument normaliser: two rewrite passes, each run exactly once.
 *
 *   Scaled:   rect((t±a)/b)  becomes  rect((t-c)/b)
 *   Unscaled: rect(t±a)      becomes  rect((t-c)/1)
 *
 * White space is allowed around every token after `rect(`; `a` and `b` are
 * unsigned literals `\d+(\.\d+)?`. The centre `c` is `-a` for `+` and `a`
 * for `-`, printed as Python prints a float. Each pass first collects every
 * non-overlapping match from left to right, then splices the replacements in
 * from right to left so that the offsets of the earlier matches stay valid.
 *
 * Python's float printing (`repr(float(literal))`) is a parameter
 * `floatRepr` of the model; a negated float prints as `-` followed by the
 * printing of its magnitude, which is what CenterText writes.
 */
module RectNormalizer {

  import opened Wrappers
  import opened Text
  import opened Spans
  import opened Scanning

  /**
   * The package copy keeps the width as it was written; the stand-alone
   * script prints it as a float, `repr(float(b))`.
   */
  datatype Variant = Package | Standalone

  datatype Pattern = Scaled | Unscaled

  /**
   * What a match captured: the sign, the offset literal `a` and, for the
   * scaled pattern, the width literal `b`.
   */
  datatype RectArgs = RectArgs(plus: bool, offset: string, width: Option<string>)

  /**
   * One token of a pattern after `rect(`, preceded by optional white space:
   * a fixed character, the sign `[+-]`, or a literal `\d+(\.\d+)?`. The sign
   * and the literals are the groups the pattern captures.
   */
  datatype Token = Char(c: char) | SignChar | Literal

  /** `(`, `t`, sign, offset, `)`, `/`, width, `)`. */
  const ScaledForm: seq<Token> := [Char('('), Char('t'), SignChar, Literal, Char(')'), Char('/'), Literal, Char(')')]

  /** `t`, sign, offset, `)`. */
  const UnscaledForm: seq<Token> := [Char('t'), SignChar, Literal, Char(')')]

  function Tokens(pat: Pattern): seq<Token> {
    if pat == Scaled then ScaledForm else UnscaledForm
  }

  /** The number of groups a token sequence captures. */
  function Groups(toks: seq<Token>): nat {
    if toks == [] then 0 else (if toks[0].Char? then 0 else 1) + Groups(toks[1..])
  }

  /** What a group may capture: `[+-]` for the sign, `\d+(\.\d+)?` for a literal. */
  predicate GroupText(kind: Token, g: string) {
    if kind == SignChar then g == "+" || g == "-" else IsDecimal(g)
  }

  /** One capture per group of `toks`, each of its group's form. */
  predicate GroupTexts(toks: seq<Token>, gs: seq<string>)
    ensures GroupTexts(toks, gs) ==> |gs| == Groups(toks)
    decreases |toks|
  {
    if toks == [] then gs == []
    else if toks[0].Char? then GroupTexts(toks[1..], gs)
    else gs != [] && GroupText(toks[0], gs[0]) && GroupTexts(toks[1..], gs[1..])
  }

  /** Where a reading of tokens ends, and the texts of the groups it captured. */
  datatype Read = Read(end: nat, groups: seq<string>)

  /**
   * Reads `toks` from `i`, each after the longest run of white space. The
   * white space, the digits of a literal and its fraction are all read
   * greedily; since no token that follows can start with a character they
   * consume, the greedy reading is the only one.
   */
  function ReadTokens(toks: seq<Token>, s: string, i: nat): (r: Option<Read>)
    requires i <= |s|
    ensures r.Some? ==> i <= r.value.end <= |s| && (toks != [] ==> i < r.value.end)
    ensures r.Some? ==> |r.value.groups| == Groups(toks)
    decreases |toks|
  {
    if toks == [] then Some(Read(i, []))
    else
      var j := SkipSpaces(s, i);
      match toks[0]
      case Char(c) =>
        if j < |s| && s[j] == c then ReadTokens(toks[1..], s, j + 1) else None
      case SignChar =>
        if j < |s| && (s[j] == '+' || s[j] == '-') then
          var rest :- ReadTokens(toks[1..], s, j + 1);
          Some(Read(rest.end, [s[j..j + 1]] + rest.groups))
        else None
      case Literal =>
        var e :- NumberEnd(s, j);
        var rest :- ReadTokens(toks[1..], s, e);
        Some(Read(rest.end, [s[j..e]] + rest.groups))
  }

  /** Every group read is a sign or a decimal literal, as its token asks. */
  lemma {:induction false} ReadTokensGroups(toks: seq<Token>, s: string, i: nat)
    requires i <= |s| && ReadTokens(toks, s, i).Some?
    ensures GroupTexts(toks, ReadTokens(toks, s, i).value.groups)
    decreases |toks|
  {
    if toks != [] {
      var j := SkipSpaces(s, i);
      match toks[0]
      case Char(c) =>
        ReadTokensGroups(toks[1..], s, j + 1);
      case SignChar =>
        ReadTokensGroups(toks[1..], s, j + 1);
        assert s[j..j + 1] == [s[j]];
      case Literal =>
        var e := NumberEnd(s, j).value;
        NumberEndReadsDecimal(s, j);
        ReadTokensGroups(toks[1..], s, e);
    }
  }

  /** Runs of white space, one per token. */
  predicate Spaced(ws: seq<string>) {
    forall k :: 0 <= k < |ws| ==> AllSpaces(ws[k])
  }

  /** What the first token stands for in a written text: its character, or its group's capture. */
  function Head(toks: seq<Token>, gs: seq<string>): string
    requires toks != [] && |gs| == Groups(toks)
  {
    if toks[0].Char? then [toks[0].c] else gs[0]
  }

  /** The captures of the tokens after the first. */
  function Tail(toks: seq<Token>, gs: seq<string>): (rest: seq<string>)
    requires toks != [] && |gs| == Groups(toks)
    ensures |rest| == Groups(toks[1..])
  {
    if toks[0].Char? then gs else gs[1..]
  }

  /**
   * The text of `toks` with the white space `ws[k]` in front of token `k`:
   * a fixed character stands for itself, a group for its capture in `gs`.
   */
  function Written(toks: seq<Token>, ws: seq<string>, gs: seq<string>): string
    requires |ws| == |toks| && |gs| == Groups(toks)
    decreases |toks|
  {
    if toks == [] then "" else ws[0] + Head(toks, gs) + Written(toks[1..], ws[1..], Tail(toks, gs))
  }

  /**
   * No fixed character is white space, and every literal is followed by a
   * fixed character that cannot continue it: then a written text is read back
   * exactly as it was written.
   */
  predicate Readable(toks: seq<Token>)
    decreases |toks|
  {
    toks != [] ==>
      && (toks[0].Char? ==> !IsSpace(toks[0].c))
      && (toks[0] == Literal ==> |toks| > 1 && toks[1].Char? && !IsDigit(toks[1].c) && toks[1].c != '.')
      && Readable(toks[1..])
  }

  /** Reading a fixed character that stands at `j`, after the white space from `i`. */
  lemma ReadCharAt(toks: seq<Token>, s: string, i: nat, j: nat, c: char)
    requires toks != [] && toks[0] == Char(c) && i <= j < |s| && SkipSpaces(s, i) == j && s[j] == c
    ensures ReadTokens(toks, s, i) == ReadTokens(toks[1..], s, j + 1)
  {
  }

  /** Reading a group (a sign or a literal) that stands at `[j, e)`, after the white space from `i`. */
  lemma ReadGroupAt(toks: seq<Token>, s: string, i: nat, j: nat, e: nat)
    requires toks != [] && !toks[0].Char? && i <= j < e <= |s| && SkipSpaces(s, i) == j
    requires toks[0] == SignChar ==> e == j + 1 && (s[j] == '+' || s[j] == '-')
    requires toks[0] == Literal ==> NumberEnd(s, j) == Some(e)
    ensures ReadTokens(toks[1..], s, e).None? ==> ReadTokens(toks, s, i).None?
    ensures ReadTokens(toks[1..], s, e).Some? ==>
              var r := ReadTokens(toks[1..], s, e).value;
              ReadTokens(toks, s, i) == Some(Read(r.end, [s[j..e]] + r.groups))
  {
  }

  /** The same step, for a reading of the tokens after the group that ends at `end` with captures `gs`. */
  lemma ReadGroupReads(toks: seq<Token>, s: string, i: nat, j: nat, e: nat, end: nat, gs: seq<string>)
    requires toks != [] && !toks[0].Char? && i <= j < e <= |s| && SkipSpaces(s, i) == j
    requires toks[0] == SignChar ==> e == j + 1 && (s[j] == '+' || s[j] == '-')
    requires toks[0] == Literal ==> NumberEnd(s, j) == Some(e)
    requires ReadsTo(toks[1..], s, e, end, gs)
    ensures ReadsTo(toks, s, i, end, [s[j..e]] + gs)
  {
  }

  /** A white-space run written at `i` and followed by something else is what SkipSpaces skips. */
  lemma SkipWrittenSpaces(s: string, i: nat, w: string)
    requires WrittenAt(s, i, w) && AllSpaces(w) && i + |w| < |s| && !IsSpace(s[i + |w|])
    ensures SkipSpaces(s, i) == i + |w|
  {
    forall k | i <= k < i + |w|
      ensures IsSpace(s[k])
    {
      assert s[i + (k - i)] == w[k - i];
    }
    SkipSpacesOver(s, i, |w|);
  }

  /** The run SkipSpaces skips is white space, and it is written where it was skipped. */
  lemma SkippedSpaces(s: string, i: nat)
    requires i <= |s|
    ensures AllSpaces(s[i..SkipSpaces(s, i)]) && WrittenAt(s, i, s[i..SkipSpaces(s, i)])
  {
    var j := SkipSpaces(s, i);
    SkipSpacesReadsSpaces(s, i);
    assert forall k :: i <= k < j ==> s[i..j][k - i] == s[k];
    SliceWrittenAt(s, i, s[i..j]);
  }

  /** What `ReadTokens` reads is the written form of the tokens, with the white space it skipped. */
  lemma {:induction false} ReadTokensShape(toks: seq<Token>, s: string, i: nat) returns (ws: seq<string>)
    requires i <= |s| && ReadTokens(toks, s, i).Some?
    ensures |ws| == |toks| && Spaced(ws)
    ensures var r := ReadTokens(toks, s, i).value;
            r.end == i + |Written(toks, ws, r.groups)| && WrittenAt(s, i, Written(toks, ws, r.groups))
    decreases |toks|
  {
    if toks == [] {
      ws := [];
      return;
    }
    var j, next := ReadHead(toks, s, i);
    var ws' := ReadTokensShape(toks[1..], s, next);
    ws := [s[i..j]] + ws';
    JoinWritten(toks, s, i, j, next, s[i..j], ws', ReadTokens(toks, s, i).value.groups);
  }

  /**
   * The first token read from `i`: the white space before it is `[i, j)`, its
   * text is `[j, next)`, and the other tokens are read from `next`.
   */
  lemma ReadHead(toks: seq<Token>, s: string, i: nat) returns (j: nat, next: nat)
    requires toks != [] && i <= |s| && ReadTokens(toks, s, i).Some?
    ensures i <= j < next <= |s| && ReadTokens(toks[1..], s, next).Some?
    ensures AllSpaces(s[i..j]) && WrittenAt(s, i, s[i..j])
    ensures var r := ReadTokens(toks, s, i).value;
            var rest := ReadTokens(toks[1..], s, next).value;
            && |r.groups| == Groups(toks) && WrittenAt(s, j, Head(toks, r.groups))
            && |Head(toks, r.groups)| == next - j
            && r.end == rest.end && Tail(toks, r.groups) == rest.groups
  {
    j := SkipSpaces(s, i);
    SkippedSpaces(s, i);
    next := if toks[0] == Literal then NumberEnd(s, j).value else j + 1;
    if toks[0].Char? {
      ReadCharAt(toks, s, i, j, toks[0].c);
    } else {
      ReadGroupAt(toks, s, i, j, next);
    }
    var r := ReadTokens(toks, s, i).value;
    assert Head(toks, r.groups) == s[j..next];
    SliceWrittenAt(s, j, s[j..next]);
  }

  /** The white space, the head and the written rest, one after the other, are the written tokens. */
  lemma JoinWritten(toks: seq<Token>, s: string, i: nat, j: nat, e: nat, run: string, ws: seq<string>, gs: seq<string>)
    requires toks != [] && |ws| + 1 == |toks| && |gs| == Groups(toks)
    requires j == i + |run| && e == j + |Head(toks, gs)|
    requires WrittenAt(s, i, run) && WrittenAt(s, j, Head(toks, gs))
    requires WrittenAt(s, e, Written(toks[1..], ws, Tail(toks, gs)))
    ensures var w := Written(toks, [run] + ws, gs);
            WrittenAt(s, i, w) && |w| == |run| + |Head(toks, gs)| + |Written(toks[1..], ws, Tail(toks, gs))|
  {
    assert ([run] + ws)[1..] == ws;
    JoinWrittenAt(s, i, run, Head(toks, gs), Written(toks[1..], ws, Tail(toks, gs)));
  }

  /** Reading `toks` from `i` succeeds, ends at `end` and captures `gs`. */
  predicate ReadsTo(toks: seq<Token>, s: string, i: nat, end: nat, gs: seq<string>) {
    && i <= |s|
    && var r := ReadTokens(toks, s, i);
       r.Some? && r.value.end == end && r.value.groups == gs
  }

  /**
   * The white space `run` and then the first token, with the head of `gs` as
   * its text, are written at `i`, and the token is followed by something it
   * cannot continue.
   */
  predicate HeadWritten(toks: seq<Token>, s: string, i: nat, run: string, gs: seq<string>) {
    && toks != [] && |gs| == Groups(toks) && AllSpaces(run) && WrittenAt(s, i, run)
    && var x := Head(toks, gs);
       && WrittenAt(s, i + |run|, x) && x != [] && !IsSpace(x[0])
       && (toks[0].Char? ==> x == [toks[0].c])
       && (toks[0] == SignChar ==> x == "+" || x == "-")
       && (toks[0] == Literal ==>
             var e := i + |run| + |x|;
             IsDecimal(x) && e < |s| && !IsDigit(s[e]) && s[e] != '.')
  }

  /**
   * One token read after the white space `run`: its text is the head of the
   * captures `gs`, and the tokens after it read to `end` with the rest of them.
   */
  lemma ReadWrittenStep(toks: seq<Token>, s: string, i: nat, run: string, gs: seq<string>, e: nat, end: nat)
    requires HeadWritten(toks, s, i, run, gs) && e == i + |run| + |Head(toks, gs)|
    requires ReadsTo(toks[1..], s, e, end, Tail(toks, gs))
    ensures ReadsTo(toks, s, i, end, gs)
  {
    var x := Head(toks, gs);
    var j := i + |run|;
    assert s[j + 0] == x[0];
    SkipWrittenSpaces(s, i, run);
    if toks[0].Char? {
      ReadCharAt(toks, s, i, j, toks[0].c);
    } else {
      ReadWrittenGroup(toks, s, i, j, e, end, gs);
    }
  }

  /** `ReadWrittenStep` for a first token that is a group: its capture is read back where it is written. */
  lemma ReadWrittenGroup(toks: seq<Token>, s: string, i: nat, j: nat, e: nat, end: nat, gs: seq<string>)
    requires toks != [] && !toks[0].Char? && |gs| == Groups(toks) && gs != []
    requires i <= j < e <= |s| && SkipSpaces(s, i) == j && WrittenAt(s, j, gs[0]) && e == j + |gs[0]|
    requires toks[0] == SignChar ==> gs[0] == "+" || gs[0] == "-"
    requires toks[0] == Literal ==> IsDecimal(gs[0]) && e < |s| && !IsDigit(s[e]) && s[e] != '.'
    requires ReadsTo(toks[1..], s, e, end, gs[1..])
    ensures ReadsTo(toks, s, i, end, gs)
  {
    WrittenAtSlice(s, j, gs[0]);
    if toks[0] == Literal {
      NumberEndOfLiteral(s, j, gs[0]);
    }
    ReadGroupReads(toks, s, i, j, e, end, gs[1..]);
    assert [s[j..e]] + gs[1..] == gs;
  }

  /**
   * `toks` written at `i` with the white space `ws` and the captures `gs`,
   * where the tokens can be read back and the captures are of their groups' forms.
   */
  predicate TokensWritten(toks: seq<Token>, s: string, i: nat, ws: seq<string>, gs: seq<string>) {
    && Readable(toks) && |ws| == |toks| && Spaced(ws) && GroupTexts(toks, gs)
    && WrittenAt(s, i, Written(toks, ws, gs))
  }

  /** A written text with captures of the right forms is read back: its end and its captures. */
  lemma {:induction false} ReadWritten(toks: seq<Token>, s: string, i: nat, ws: seq<string>, gs: seq<string>)
    requires TokensWritten(toks, s, i, ws, gs)
    ensures ReadsTo(toks, s, i, i + |Written(toks, ws, gs)|, gs)
    decreases |toks|
  {
    if toks == [] {
      assert gs == [];
    } else {
      var e, end := RestWritten(toks, s, i, ws, gs);
      ReadWritten(toks[1..], s, e, ws[1..], Tail(toks, gs));
      ReadWrittenStep(toks, s, i, ws[0], gs, e, end);
    }
  }

  /**
   * A written text, split at its first token: the white space and the token
   * are written as `ReadWrittenStep` needs them, and the other tokens are
   * written after them, from `e` to `end`, with the other captures.
   */
  lemma RestWritten(toks: seq<Token>, s: string, i: nat, ws: seq<string>, gs: seq<string>) returns (e: nat, end: nat)
    requires toks != [] && TokensWritten(toks, s, i, ws, gs)
    ensures e == i + |ws[0]| + |Head(toks, gs)| && HeadWritten(toks, s, i, ws[0], gs)
    ensures TokensWritten(toks[1..], s, e, ws[1..], Tail(toks, gs))
    ensures end == e + |Written(toks[1..], ws[1..], Tail(toks, gs))| && end == i + |Written(toks, ws, gs)|
  {
    e := i + |ws[0]| + |Head(toks, gs)|;
    end := e + |Written(toks[1..], ws[1..], Tail(toks, gs))|;
    SplitWrittenAt(s, i, ws[0], Head(toks, gs), Written(toks[1..], ws[1..], Tail(toks, gs)));
    HeadStarts(toks, gs);
    if toks[0] == Literal {
      NextAfterLiteral(toks[1..], ws[1..], Tail(toks, gs));
      LiteralFollowed(s, e, Written(toks[1..], ws[1..], Tail(toks, gs)));
    }
  }

  /** What is written at `e` and does not start with a digit or `.` stands at `e`. */
  lemma LiteralFollowed(s: string, e: nat, w: string)
    requires WrittenAt(s, e, w) && w != [] && !IsDigit(w[0]) && w[0] != '.'
    ensures e < |s| && !IsDigit(s[e]) && s[e] != '.'
  {
    assert s[e + 0] == w[0];
  }

  /** A written token starts with something other than white space. */
  lemma HeadStarts(toks: seq<Token>, gs: seq<string>)
    requires Readable(toks) && GroupTexts(toks, gs) && toks != []
    ensures var x := Head(toks, gs); x != [] && !IsSpace(x[0])
    ensures toks[0].Char? ==> Head(toks, gs) == [toks[0].c]
    ensures toks[0] == SignChar ==> Head(toks, gs) == "+" || Head(toks, gs) == "-"
    ensures toks[0] == Literal ==> IsDecimal(Head(toks, gs))
  {
    if toks[0] == Literal {
      FirstIsDigit(gs[0]);
    }
  }

  /** What follows a literal starts with white space or with a fixed character that cannot continue it. */
  lemma NextAfterLiteral(toks: seq<Token>, ws: seq<string>, gs: seq<string>)
    requires toks != [] && toks[0].Char? && !IsDigit(toks[0].c) && toks[0].c != '.'
    requires |ws| == |toks| && Spaced(ws) && |gs| == Groups(toks)
    ensures var w := Written(toks, ws, gs); w != [] && !IsDigit(w[0]) && w[0] != '.'
  {
    if ws[0] != [] {
      assert IsSpace(ws[0][0]);
    }
  }

  /** Does `rect(` start at `p`? */
  predicate StartsRect(s: string, p: nat) {
    p + 5 <= |s| && s[p..p + 5] == "rect("
  }

  function SignText(plus: bool): string {
    if plus then "+" else "-"
  }

  /** The captures of a match in the order of the groups: sign, offset and, if scaled, width. */
  function ArgsGroups(g: RectArgs): seq<string> {
    [SignText(g.plus), g.offset] + (if g.width.Some? then [g.width.value] else [])
  }

  /** Captures `pat` can make: decimal literals, and a width exactly for the scaled pattern. */
  predicate ValidArgs(pat: Pattern, g: RectArgs) {
    && IsDecimal(g.offset)
    && (g.width.Some? <==> pat == Scaled)
    && (g.width.Some? ==> IsDecimal(g.width.value))
  }

  lemma FormKinds()
    ensures Groups(ScaledForm) == 3 && Groups(UnscaledForm) == 2
    ensures Readable(ScaledForm) && Readable(UnscaledForm)
  {
  }

  /**
   * `rect(` followed by the tokens of `pat`, the white space `ws` in front of
   * each and the captures `g` in place of the groups.
   */
  function RectText(pat: Pattern, ws: seq<string>, g: RectArgs): string
    requires |ws| == |Tokens(pat)| && (g.width.Some? <==> pat == Scaled)
  {
    FormKinds();
    "rect(" + Written(Tokens(pat), ws, ArgsGroups(g))
  }

  /** The match of `pat` that starts at `p`, if any. */
  function MatchAt(pat: Pattern, s: string, p: nat): (r: Option<Hit<RectArgs>>)
    requires p <= |s|
    ensures r.Some? ==> r.value.start == p < r.value.end <= |s| && StartsRect(s, p)
    ensures r.Some? ==> ValidArgs(pat, r.value.data)
  {
    if !StartsRect(s, p) then None
    else
      var r :- ReadTokens(Tokens(pat), s, p + 5);
      FormKinds();
      ReadTokensGroups(Tokens(pat), s, p + 5);
      var g := r.groups;
      Some(Hit(p, r.end, RectArgs(g[0] == "+", g[1], if pat == Scaled then Some(g[2]) else None)))
  }

  /**
   * What a match covers is `rect(` and the tokens of its pattern, with white
   * space in front of each and its captures in place of the groups.
   */
  lemma MatchAtShape(pat: Pattern, s: string, p: nat) returns (ws: seq<string>)
    requires p <= |s| && MatchAt(pat, s, p).Some?
    ensures |ws| == |Tokens(pat)| && Spaced(ws)
    ensures var h := MatchAt(pat, s, p).value;
            ValidArgs(pat, h.data) && s[p..h.end] == RectText(pat, ws, h.data)
  {
    var h := MatchAt(pat, s, p).value;
    MatchAtReads(pat, s, p);
    ws := ShapeOfRead(pat, s, p, h.end, h.data);
  }

  /** A reading of the tokens of `pat` after `rect(` at `p`, ending at `end`, covers `RectText` with the white space it skipped. */
  lemma ShapeOfRead(pat: Pattern, s: string, p: nat, end: nat, g: RectArgs) returns (ws: seq<string>)
    requires StartsRect(s, p) && ValidArgs(pat, g) && ReadsTo(Tokens(pat), s, p + 5, end, ArgsGroups(g))
    ensures |ws| == |Tokens(pat)| && Spaced(ws)
    ensures p <= end <= |s| && s[p..end] == RectText(pat, ws, g)
  {
    ws := ShapeOfReads(Tokens(pat), s, p + 5, end, ArgsGroups(g));
    JoinRectText(pat, s, p, ws, g);
    WrittenAtSlice(s, p, RectText(pat, ws, g));
  }

  /** `ReadTokensShape` for a reading known to end at `end` with the captures `gs`. */
  lemma ShapeOfReads(toks: seq<Token>, s: string, i: nat, end: nat, gs: seq<string>) returns (ws: seq<string>)
    requires i <= |s| && ReadsTo(toks, s, i, end, gs)
    ensures |ws| == |toks| && Spaced(ws) && |gs| == Groups(toks)
    ensures end == i + |Written(toks, ws, gs)| && WrittenAt(s, i, Written(toks, ws, gs))
  {
    ws := ReadTokensShape(toks, s, i);
  }

  /** A match reads the tokens of its pattern after `rect(`, and its captures are the groups read. */
  lemma MatchAtReads(pat: Pattern, s: string, p: nat)
    requires p <= |s| && MatchAt(pat, s, p).Some?
    ensures StartsRect(s, p)
    ensures var h := MatchAt(pat, s, p).value; ReadsTo(Tokens(pat), s, p + 5, h.end, ArgsGroups(h.data))
  {
    var r := ReadTokens(Tokens(pat), s, p + 5).value;
    ReadTokensGroups(Tokens(pat), s, p + 5);
    FormGroups(pat, r.groups);
    ArgsOfGroups(pat, r.groups);
  }

  /** The captures of a reading, taken apart as `MatchAt` does and put back in order, are unchanged. */
  lemma ArgsOfGroups(pat: Pattern, gs: seq<string>)
    requires |gs| == (if pat == Scaled then 3 else 2) && (gs[0] == "+" || gs[0] == "-")
    ensures ArgsGroups(RectArgs(gs[0] == "+", gs[1], if pat == Scaled then Some(gs[2]) else None)) == gs
  {
    var sign := SignText(gs[0] == "+");
    assert sign == gs[0];
    if pat == Scaled {
      assert ArgsGroups(RectArgs(gs[0] == "+", gs[1], Some(gs[2]))) == [sign, gs[1], gs[2]];
      assert gs == [gs[0], gs[1], gs[2]];
    } else {
      assert ArgsGroups(RectArgs(gs[0] == "+", gs[1], None)) == [sign, gs[1]];
      assert gs == [gs[0], gs[1]];
    }
  }

  /** The captures of valid arguments are of their groups' forms. */
  lemma ArgsGroupTexts(pat: Pattern, g: RectArgs)
    requires ValidArgs(pat, g)
    ensures GroupTexts(Tokens(pat), ArgsGroups(g))
  {
    var gs := ArgsGroups(g);
    if pat == Scaled {
      var t := ScaledForm;
      assert GroupTexts(t[6..], gs[2..]);
      assert GroupTexts(t[3..], gs[1..]);
    } else {
      var t := UnscaledForm;
      assert GroupTexts(t[2..], gs[1..]);
    }
  }

  /** The captures of either pattern: a sign, then one or two decimal literals. */
  lemma FormGroups(pat: Pattern, gs: seq<string>)
    requires GroupTexts(Tokens(pat), gs)
    ensures |gs| == if pat == Scaled then 3 else 2
    ensures (gs[0] == "+" || gs[0] == "-") && IsDecimal(gs[1]) && (pat == Scaled ==> IsDecimal(gs[2]))
  {
    FormKinds();
  }

  /** `rect(` at `p` and the written tokens after it are `RectText` written at `p`. */
  lemma JoinRectText(pat: Pattern, s: string, p: nat, ws: seq<string>, g: RectArgs)
    requires |ws| == |Tokens(pat)| && (g.width.Some? <==> pat == Scaled)
    requires StartsRect(s, p) && WrittenAt(s, p + 5, Written(Tokens(pat), ws, ArgsGroups(g)))
    ensures WrittenAt(s, p, RectText(pat, ws, g))
    ensures |RectText(pat, ws, g)| == 5 + |Written(Tokens(pat), ws, ArgsGroups(g))|
  {
    FormKinds();
    var w := Written(Tokens(pat), ws, ArgsGroups(g));
    SliceWrittenAt(s, p, "rect(");
    JoinWrittenAt(s, p, "rect(", w, "");
    assert "rect(" + w + "" == RectText(pat, ws, g);
  }

  /**
   * Conversely, `rect(` and the tokens of `pat` written at any `p`, with any
   * white space in front of each token and decimal captures, are one match
   * ending just after the written text.
   */
  lemma MatchAtOfWritten(pat: Pattern, s: string, p: nat, ws: seq<string>, g: RectArgs)
    requires |ws| == |Tokens(pat)| && Spaced(ws) && ValidArgs(pat, g)
    requires p + |RectText(pat, ws, g)| <= |s| && s[p..p + |RectText(pat, ws, g)|] == RectText(pat, ws, g)
    ensures MatchAt(pat, s, p).Some? && MatchAt(pat, s, p).value == Hit(p, p + |RectText(pat, ws, g)|, g)
  {
    SliceWrittenAt(s, p, RectText(pat, ws, g));
    MatchAtWrittenAt(pat, s, p, ws, g);
  }

  lemma MatchAtWrittenAt(pat: Pattern, s: string, p: nat, ws: seq<string>, g: RectArgs)
    requires |ws| == |Tokens(pat)| && Spaced(ws) && ValidArgs(pat, g) && WrittenAt(s, p, RectText(pat, ws, g))
    ensures MatchAt(pat, s, p).Some? && MatchAt(pat, s, p).value == Hit(p, p + |RectText(pat, ws, g)|, g)
  {
    FormKinds();
    var gs := ArgsGroups(g);
    RectTextPieces(pat, s, p, ws, g);
    ArgsGroupTexts(pat, g);
    ReadWritten(Tokens(pat), s, p + 5, ws, gs);
    MatchAtOfRead(pat, s, p, p + |RectText(pat, ws, g)|, g);
  }

  /** `RectText` written at `p`: `rect(` there, and the written tokens after it. */
  lemma RectTextPieces(pat: Pattern, s: string, p: nat, ws: seq<string>, g: RectArgs)
    requires |ws| == |Tokens(pat)| && (g.width.Some? <==> pat == Scaled) && WrittenAt(s, p, RectText(pat, ws, g))
    ensures StartsRect(s, p) && WrittenAt(s, p + 5, Written(Tokens(pat), ws, ArgsGroups(g)))
    ensures |RectText(pat, ws, g)| == 5 + |Written(Tokens(pat), ws, ArgsGroups(g))|
  {
    FormKinds();
    var w := Written(Tokens(pat), ws, ArgsGroups(g));
    assert RectText(pat, ws, g) == "rect(" + w + "";
    SplitWrittenAt(s, p, "rect(", w, "");
    WrittenAtSlice(s, p, "rect(");
  }

  /** A reading of the tokens after `rect(` with the captures of `g` is the match of `g`. */
  lemma MatchAtOfRead(pat: Pattern, s: string, p: nat, end: nat, g: RectArgs)
    requires StartsRect(s, p) && ValidArgs(pat, g) && ReadsTo(Tokens(pat), s, p + 5, end, ArgsGroups(g))
    ensures MatchAt(pat, s, p).Some? && MatchAt(pat, s, p).value == Hit(p, end, g)
  {
    var gs := ArgsGroups(g);
    assert RectArgs(gs[0] == "+", gs[1], if pat == Scaled then Some(gs[2]) else None) == g;
  }

  /** The pattern `pat` searched for in `s`. */
  function Matcher(pat: Pattern, s: string): (m: nat -> Option<Hit<RectArgs>>)
    ensures IsMatcher(m, |s|)
  {
    (p: nat) => if p <= |s| then MatchAt(pat, s, p) else None
  }

  /** Every match starts with `rect(`, so where no `r` follows `p` nothing matches. */
  lemma NoMatchWithoutR(pat: Pattern, s: string, p: nat)
    requires p <= |s| && (p < |s| ==> s[p] != 'r')
    ensures MatchAt(pat, s, p).None?
  {
    if p + 5 <= |s| {
      assert s[p..p + 5][0] == s[p];
    }
  }

  /** The centre text: `-a` printed for `+`, `a` printed for `-`. */
  function CenterText(floatRepr: string -> string, g: RectArgs): string {
    (if g.plus then "-" else "") + floatRepr(g.offset)
  }

  /** The width text: `1` for the unscaled form; `b` as written, or printed as a float. */
  function WidthText(v: Variant, floatRepr: string -> string, g: RectArgs): string {
    match g.width
    case None => "1"
    case Some(b) => if v == Package then b else floatRepr(b)
  }

  /** The canonical text `rect((t-c)/w)` that replaces a match. */
  function Replacement(v: Variant, floatRepr: string -> string, g: RectArgs): string {
    "rect((t-" + CenterText(floatRepr, g) + ")/" + WidthText(v, floatRepr, g) + ")"
  }

  function Rewrite(v: Variant, floatRepr: string -> string): Hit<RectArgs> -> string {
    (h: Hit<RectArgs>) => Replacement(v, floatRepr, h.data)
  }

  /** The text after one pass of `pat`. */
  function PassResult(pat: Pattern, v: Variant, floatRepr: string -> string, s: string): string {
    Sub(Matcher(pat, s), Rewrite(v, floatRepr), s)
  }

  /** The text after both passes, scaled first. */
  function Normalized(v: Variant, floatRepr: string -> string, s: string): string {
    PassResult(Unscaled, v, floatRepr, PassResult(Scaled, v, floatRepr, s))
  }

  /**
   * One pass of `pat`: the matches are collected once, on the input, and
   * spliced in from the last to the first; the text is never searched again.
   */
  method RectPass(pat: Pattern, v: Variant, floatRepr: string -> string, expr: string) returns (processed: string)
    ensures processed == PassResult(pat, v, floatRepr, expr)
  {
    var matches := Scan(Matcher(pat, expr), |expr|, 0);
    ScanSpansOrdered(Matcher(pat, expr), Rewrite(v, floatRepr), expr);
    processed := ReplaceFromRight(expr, matches, Rewrite(v, floatRepr));
  }

  /** `process_rect_expressions`: the scaled pass, then the unscaled pass, once each. */
  method ProcessRectExpressions(v: Variant, floatRepr: string -> string, expr: string) returns (processed: string)
    ensures processed == Normalized(v, floatRepr, expr)
  {
    processed := RectPass(Scaled, v, floatRepr, expr);
    processed := RectPass(Unscaled, v, floatRepr, processed);
  }

  // ---------------------------------------------------------------------
  // What the two passes do to the forms they are written for.
  // ---------------------------------------------------------------------

  /** A character Python's float printing can produce: digits, `.`, `e`, signs and the letters of `inf` and `nan`. */
  predicate IsFloatChar(c: char) {
    IsDigit(c) || c == '.' || c == 'e' || c == '+' || c == '-' || c == 'i' || c == 'n' || c == 'f' || c == 'a'
  }

  /** The characters Python's float printing can produce. */
  predicate FloatChars(w: string) {
    forall k :: 0 <= k < |w| ==> IsFloatChar(w[k])
  }

  /** `rect((t±a)/b)` written without white space. */
  function ScaledText(plus: bool, a: string, b: string): string {
    "rect((t" + SignText(plus) + a + ")/" + b + ")"
  }

  /** `rect(t±a)` written without white space. */
  function UnscaledText(plus: bool, a: string): string {
    "rect(t" + SignText(plus) + a + ")"
  }

  /** `rect((t-c)/w)`, the canonical form both passes produce. */
  function CanonicalText(center: string, width: string): string {
    "rect((t-" + center + ")/" + width + ")"
  }

  lemma {:induction false} DecimalShape(w: string)
    requires IsDecimal(w)
    ensures |w| > 0 && IsDigit(w[0]) && FloatChars(w)
  {
    if !(|w| > 0 && AllDigits(w)) {
      var k :| 0 < k < |w| - 1 && w[k] == '.' && AllDigits(w[..k]) && AllDigits(w[k + 1..]);
      assert w[..k][0] == w[0];
      forall j | 0 <= j < |w| ensures IsFloatChar(w[j]) {
        if j < k {
          assert w[..k][j] == w[j];
        } else if j > k {
          assert w[k + 1..][j - k - 1] == w[j];
        }
      }
    }
  }

  lemma {:induction false} FirstIsDigit(w: string)
    requires IsDecimal(w)
    ensures |w| > 0 && IsDigit(w[0])
  {
    if !(|w| > 0 && AllDigits(w)) {
      var k :| 0 < k < |w| - 1 && w[k] == '.' && AllDigits(w[..k]) && AllDigits(w[k + 1..]);
      assert w[..k][0] == w[0];
    }
  }

  lemma {:induction false} NoSpaceHere(s: string, i: nat)
    requires i < |s| && !IsSpace(s[i])
    ensures SkipSpaces(s, i) == i
  {
  }

  /** Where the pieces of `rect((t±a)/b)` sit in `s`. */
  predicate ScaledLayout(s: string, plus: bool, a: string, b: string) {
    && |s| == 11 + |a| + |b| && s[..5] == "rect(" && s[5] == '(' && s[6] == 't'
    && s[7] == (if plus then '+' else '-')
    && s[8..8 + |a|] == a && s[8 + |a|] == ')' && s[9 + |a|] == '/'
    && s[10 + |a|..10 + |a| + |b|] == b && s[10 + |a| + |b|] == ')'
  }

  /** Where the pieces of `rect(t±a)` sit in `s`. */
  predicate UnscaledLayout(s: string, plus: bool, a: string) {
    && |s| == 8 + |a| && s[..5] == "rect(" && s[5] == 't'
    && s[6] == (if plus then '+' else '-')
    && s[7..7 + |a|] == a && s[7 + |a|] == ')'
  }

  lemma {:induction false} ScaledTextLayout(plus: bool, a: string, b: string)
    ensures ScaledLayout(ScaledText(plus, a, b), plus, a, b)
  {
  }

  lemma {:induction false} CanonicalTextLayout(center: string, width: string)
    ensures ScaledLayout(CanonicalText(center, width), false, center, width)
  {
  }

  lemma {:induction false} UnscaledTextLayout(plus: bool, a: string)
    ensures UnscaledLayout(UnscaledText(plus, a), plus, a)
  {
  }

  /** Reading a fixed character that stands at `i`. */
  lemma ReadChar(toks: seq<Token>, s: string, i: nat, c: char)
    requires toks != [] && toks[0] == Char(c) && i < |s| && s[i] == c && !IsSpace(c)
    ensures ReadTokens(toks, s, i) == ReadTokens(toks[1..], s, i + 1)
  {
    NoSpaceHere(s, i);
    ReadCharAt(toks, s, i, i, c);
  }

  /** Reading a fixed character where another one stands. */
  lemma ReadCharFails(toks: seq<Token>, s: string, i: nat, c: char)
    requires toks != [] && toks[0] == Char(c) && i < |s| && s[i] != c && !IsSpace(s[i])
    ensures ReadTokens(toks, s, i).None?
  {
    NoSpaceHere(s, i);
  }

  /** Reading a group (a sign or a literal) that stands at `[i, e)`. */
  lemma ReadGroup(toks: seq<Token>, s: string, i: nat, e: nat)
    requires toks != [] && !toks[0].Char? && i < e <= |s| && !IsSpace(s[i])
    requires toks[0] == SignChar ==> e == i + 1 && (s[i] == '+' || s[i] == '-')
    requires toks[0] == Literal ==> NumberEnd(s, i) == Some(e)
    ensures ReadTokens(toks[1..], s, e).None? ==> ReadTokens(toks, s, i).None?
    ensures ReadTokens(toks[1..], s, e).Some? ==>
              var r := ReadTokens(toks[1..], s, e).value;
              ReadTokens(toks, s, i) == Some(Read(r.end, [s[i..e]] + r.groups))
  {
    NoSpaceHere(s, i);
    ReadGroupAt(toks, s, i, i, e);
  }

  /** Reading a literal where no digit stands. */
  lemma ReadLiteralFails(toks: seq<Token>, s: string, i: nat)
    requires toks != [] && toks[0] == Literal && i < |s| && !IsDigit(s[i]) && !IsSpace(s[i])
    ensures ReadTokens(toks, s, i).None?
  {
    NoSpaceHere(s, i);
  }

  /** The tokens after the offset of `rect((t±a)/b)`: `)`, `/`, the width, `)`. */
  lemma {:induction false} ReadScaledTail(s: string, plus: bool, a: string, b: string)
    requires ScaledLayout(s, plus, a, b) && IsDecimal(b)
    ensures ReadTokens(ScaledForm[4..], s, 8 + |a|) == Some(Read(|s|, [b]))
  {
    ReadScaledWidth(s, plus, a, b);
    var na, t := |a|, ScaledForm;
    assert t[5..][1..] == t[6..];
    ReadChar(t[5..], s, 9 + na, '/');
    assert t[4..][1..] == t[5..];
    ReadChar(t[4..], s, 8 + na, ')');
  }

  /** The width of `rect((t±a)/b)` and the closing `)`. */
  lemma {:induction false} ReadScaledWidth(s: string, plus: bool, a: string, b: string)
    requires ScaledLayout(s, plus, a, b) && IsDecimal(b)
    ensures ReadTokens(ScaledForm[6..], s, 10 + |a|) == Some(Read(|s|, [b]))
  {
    FirstIsDigit(b);
    var na, nb, t := |a|, |b|, ScaledForm;
    assert s[10 + na] == b[0];
    NumberEndOfLiteral(s, 10 + na, b);
    assert t[7..][1..] == t[8..];
    ReadChar(t[7..], s, 10 + na + nb, ')');
    assert ReadTokens(t[7..], s, 10 + na + nb) == Some(Read(|s|, []));
    assert t[6..][1..] == t[7..];
    ReadGroup(t[6..], s, 10 + na, 10 + na + nb);
    assert [s[10 + na..10 + na + nb]] + [] == [b];
  }

  /** The tokens from the sign of `rect((t±a)/b)` on. */
  lemma {:induction false} ReadScaledSigned(s: string, plus: bool, a: string, b: string)
    requires ScaledLayout(s, plus, a, b) && IsDecimal(a) && IsDecimal(b)
    ensures ReadTokens(ScaledForm[2..], s, 7) == Some(Read(|s|, [SignText(plus), a, b]))
  {
    ReadScaledTail(s, plus, a, b);
    FirstIsDigit(a);
    var na, t := |a|, ScaledForm;
    assert s[8] == a[0];
    assert s[7..8] == SignText(plus);
    NumberEndOfLiteral(s, 8, a);
    assert t[3..][1..] == t[4..];
    ReadGroup(t[3..], s, 8, 8 + na);
    assert [s[8..8 + na]] + [b] == [a, b];
    assert t[2..][1..] == t[3..];
    ReadGroup(t[2..], s, 7, 8);
    assert [s[7..8]] + [a, b] == [SignText(plus), a, b];
  }

  /** The tokens of `rect((t±a)/b)`, read one after the other from the back. */
  lemma {:induction false} ReadScaledLayout(s: string, plus: bool, a: string, b: string)
    requires ScaledLayout(s, plus, a, b) && IsDecimal(a) && IsDecimal(b)
    ensures ReadTokens(ScaledForm, s, 5) == Some(Read(|s|, [SignText(plus), a, b]))
  {
    ReadScaledSigned(s, plus, a, b);
    var t := ScaledForm;
    assert t[1..][1..] == t[2..];
    ReadChar(t[1..], s, 6, 't');
    ReadChar(t, s, 5, '(');
  }

  /** `rect((t±a)/b)` with decimal literals is one whole match of the scaled pattern. */
  lemma {:induction false} MatchScaledText(plus: bool, a: string, b: string)
    requires IsDecimal(a) && IsDecimal(b)
    ensures var s := ScaledText(plus, a, b);
            MatchAt(Scaled, s, 0) == Some(Hit(0, |s|, RectArgs(plus, a, Some(b))))
  {
    var s := ScaledText(plus, a, b);
    ScaledTextLayout(plus, a, b);
    ReadScaledLayout(s, plus, a, b);
    assert StartsRect(s, 0);
  }

  /** The tokens of `rect(t±a)`, read one after the other from the back. */
  lemma {:induction false} ReadUnscaledLayout(s: string, plus: bool, a: string)
    requires UnscaledLayout(s, plus, a) && IsDecimal(a)
    ensures ReadTokens(UnscaledForm, s, 5) == Some(Read(|s|, [SignText(plus), a]))
  {
    FirstIsDigit(a);
    var na, t := |a|, UnscaledForm;
    assert s[7] == a[0];
    assert s[6..7] == SignText(plus);
    NumberEndOfLiteral(s, 7, a);
    assert t[3..][1..] == t[4..];
    ReadChar(t[3..], s, 7 + na, ')');
    assert ReadTokens(t[3..], s, 7 + na) == Some(Read(|s|, []));
    assert t[2..][1..] == t[3..];
    ReadGroup(t[2..], s, 7, 7 + na);
    assert [s[7..7 + na]] + [] == [a];
    assert ReadTokens(t[2..], s, 7) == Some(Read(|s|, [a]));
    assert t[1..][1..] == t[2..];
    ReadGroup(t[1..], s, 6, 7);
    assert [s[6..7]] + [a] == [SignText(plus), a];
    assert ReadTokens(t[1..], s, 6) == Some(Read(|s|, [SignText(plus), a]));
    ReadChar(t, s, 5, 't');
  }

  /** `rect(t±a)` with a decimal literal is one whole match of the unscaled pattern. */
  lemma {:induction false} MatchUnscaledText(plus: bool, a: string)
    requires IsDecimal(a)
    ensures var s := UnscaledText(plus, a);
            MatchAt(Unscaled, s, 0) == Some(Hit(0, |s|, RectArgs(plus, a, None)))
  {
    var s := UnscaledText(plus, a);
    UnscaledTextLayout(plus, a);
    ReadUnscaledLayout(s, plus, a);
    assert StartsRect(s, 0);
  }

  /** In `rect((t±a)/b)` with printed numbers, the only `r` is the first letter. */
  lemma {:induction false} ScaledLayoutOneR(s: string, plus: bool, a: string, b: string)
    requires ScaledLayout(s, plus, a, b) && FloatChars(a) && FloatChars(b)
    ensures forall k :: 1 <= k < |s| ==> s[k] != 'r'
  {
    forall k | 1 <= k < |s| ensures s[k] != 'r' {
      if k < 5 {
        assert s[..5][k] == s[k];
      } else if 8 <= k < 8 + |a| {
        assert s[8..8 + |a|][k - 8] == s[k];
      } else if 10 + |a| <= k < 10 + |a| + |b| {
        assert s[10 + |a|..10 + |a| + |b|][k - 10 - |a|] == s[k];
      }
    }
  }

  /** In `rect(t±a)` with a printed number, the only `r` is the first letter. */
  lemma {:induction false} UnscaledLayoutOneR(s: string, plus: bool, a: string)
    requires UnscaledLayout(s, plus, a) && FloatChars(a)
    ensures forall k :: 1 <= k < |s| ==> s[k] != 'r'
  {
    forall k | 1 <= k < |s| ensures s[k] != 'r' {
      if k < 5 {
        assert s[..5][k] == s[k];
      } else if 7 <= k < 7 + |a| {
        assert s[7..7 + |a|][k - 7] == s[k];
      }
    }
  }

  /** A pass whose only match covers the whole text yields that match's replacement. */
  lemma PassOfWholeMatch(pat: Pattern, v: Variant, floatRepr: string -> string, s: string, h: Hit<RectArgs>)
    requires MatchAt(pat, s, 0).Some? && MatchAt(pat, s, 0).value == h && h.end == |s|
    ensures PassResult(pat, v, floatRepr, s) == Replacement(v, floatRepr, h.data)
  {
    SubOfWholeMatch(Matcher(pat, s), Rewrite(v, floatRepr), s, h);
  }

  /** A pass with no match at 0 and no `r` further on leaves the text as it is. */
  lemma PassWithoutMatch(pat: Pattern, v: Variant, floatRepr: string -> string, s: string)
    requires MatchAt(pat, s, 0).None?
    requires forall k :: 1 <= k < |s| ==> s[k] != 'r'
    ensures PassResult(pat, v, floatRepr, s) == s
  {
    forall p | 0 <= p <= |s| ensures Matcher(pat, s)(p).None? {
      if p > 0 {
        NoMatchWithoutR(pat, s, p);
      }
    }
    SubWithoutMatch(Matcher(pat, s), Rewrite(v, floatRepr), s);
  }

  /**
   * The unscaled pass never touches a canonical form whose centre and width
   * are printed numbers: after `rect(` comes `(`, not `t`.
   */
  lemma {:induction false} UnscaledKeepsCanonical(v: Variant, floatRepr: string -> string, center: string, width: string)
    requires FloatChars(center) && FloatChars(width)
    ensures PassResult(Unscaled, v, floatRepr, CanonicalText(center, width)) == CanonicalText(center, width)
  {
    var s := CanonicalText(center, width);
    CanonicalTextLayout(center, width);
    ScaledLayoutOneR(s, false, center, width);
    NoSpaceHere(s, 5);
    assert MatchAt(Unscaled, s, 0).None?;
    PassWithoutMatch(Unscaled, v, floatRepr, s);
  }

  /**
   * Sign rule, scaled form: `rect((t+a)/b)` normalises to `rect((t--a)/b)`
   * and `rect((t-a)/b)` to `rect((t-a)/b)`, with `a` printed as a float and
   * `b` kept as written (package) or printed as a float (stand-alone).
   */
  lemma {:induction false} NormalizeScaledText(v: Variant, floatRepr: string -> string, plus: bool, a: string, b: string)
    requires IsDecimal(a) && IsDecimal(b)
    requires FloatChars(floatRepr(a)) && (v == Standalone ==> FloatChars(floatRepr(b)))
    ensures Normalized(v, floatRepr, ScaledText(plus, a, b))
         == CanonicalText((if plus then "-" else "") + floatRepr(a), if v == Package then b else floatRepr(b))
  {
    var g := RectArgs(plus, a, Some(b));
    MatchScaledText(plus, a, b);
    PassOfWholeMatch(Scaled, v, floatRepr, ScaledText(plus, a, b), Hit(0, |ScaledText(plus, a, b)|, g));
    DecimalShape(b);
    CenterChars(floatRepr, g);
    UnscaledKeepsCanonical(v, floatRepr, CenterText(floatRepr, g), WidthText(v, floatRepr, g));
  }

  lemma CenterChars(floatRepr: string -> string, g: RectArgs)
    requires FloatChars(floatRepr(g.offset))
    ensures FloatChars(CenterText(floatRepr, g))
  {
    var center := CenterText(floatRepr, g);
    if g.plus {
      assert forall k :: 1 <= k < |center| ==> center[k] == floatRepr(g.offset)[k - 1];
    }
  }

  /**
   * Sign rule, unscaled form: `rect(t+a)` normalises to `rect((t--a)/1)` and
   * `rect(t-a)` to `rect((t-a)/1)`; the scaled pass leaves it alone.
   */
  lemma {:induction false} NormalizeUnscaledText(v: Variant, floatRepr: string -> string, plus: bool, a: string)
    requires IsDecimal(a)
    ensures Normalized(v, floatRepr, UnscaledText(plus, a)) == CanonicalText((if plus then "-" else "") + floatRepr(a), "1")
  {
    var s := UnscaledText(plus, a);
    UnscaledTextLayout(plus, a);
    DecimalShape(a);
    UnscaledLayoutOneR(s, plus, a);
    NoSpaceHere(s, 5);
    assert MatchAt(Scaled, s, 0).None?;
    PassWithoutMatch(Scaled, v, floatRepr, s);
    MatchUnscaledText(plus, a);
    PassOfWholeMatch(Unscaled, v, floatRepr, s, Hit(0, |s|, RectArgs(plus, a, None)));
  }

  /** No character of `w` is the letter `r`. */
  predicate NoR(w: string) {
    forall k :: 0 <= k < |w| ==> w[k] != 'r'
  }

  lemma NoRJoin(a: string, b: string, c: string)
    requires NoR(a) && NoR(b) && NoR(c)
    ensures NoR(a + b + c)
  {
    forall k | 0 <= k < |a + b + c|
      ensures (a + b + c)[k] != 'r'
    {
      if k < |a| {
        assert (a + b + c)[k] == a[k];
      } else if k < |a| + |b| {
        assert (a + b + c)[k] == b[k - |a|];
      } else {
        assert (a + b + c)[k] == c[k - |a| - |b|];
      }
    }
  }

  /** A written form holds no `r`: white space, signs and decimal literals have none. */
  lemma {:induction false} WrittenWithoutR(toks: seq<Token>, ws: seq<string>, gs: seq<string>)
    requires |ws| == |toks| && Spaced(ws) && GroupTexts(toks, gs)
    requires forall k :: 0 <= k < |toks| ==> toks[k] != Char('r')
    ensures NoR(Written(toks, ws, gs))
    decreases |toks|
  {
    if toks != [] {
      assert forall k :: 0 <= k < |toks| - 1 ==> toks[1..][k] == toks[k + 1];
      WrittenWithoutR(toks[1..], ws[1..], Tail(toks, gs));
      SpacesWithoutR(ws[0]);
      HeadTokenWithoutR(toks, gs);
      NoRJoin(ws[0], Head(toks, gs), Written(toks[1..], ws[1..], Tail(toks, gs)));
    }
  }

  lemma SpacesWithoutR(w: string)
    requires AllSpaces(w)
    ensures NoR(w)
  {
    forall k | 0 <= k < |w|
      ensures w[k] != 'r'
    {
      assert IsSpace(w[k]);
    }
  }

  /** The text of the first token is not `r`, a sign, or a decimal literal. */
  lemma HeadTokenWithoutR(toks: seq<Token>, gs: seq<string>)
    requires toks != [] && GroupTexts(toks, gs) && toks[0] != Char('r')
    ensures NoR(Head(toks, gs))
  {
    if toks[0] == Literal {
      DecimalWithoutR(gs[0]);
    }
  }

  lemma DecimalWithoutR(w: string)
    requires IsDecimal(w)
    ensures NoR(w)
  {
    DecimalShape(w);
    forall k | 0 <= k < |w|
      ensures w[k] != 'r'
    {
      assert IsFloatChar(w[k]);
    }
  }

  /** The scaled pattern does not match a written unscaled form: after `rect(` comes `t`, not `(`. */
  lemma ScaledMissesUnscaled(ws: seq<string>, g: RectArgs)
    requires |ws| == 4 && Spaced(ws) && ValidArgs(Unscaled, g)
    ensures MatchAt(Scaled, RectText(Unscaled, ws, g), 0).None?
  {
    var s := RectText(Unscaled, ws, g);
    UnscaledHead(ws, g);
    SkipWrittenSpaces(s, 5, ws[0]);
  }

  /** A written unscaled form is `rect(`, the first run of white space, then `t`. */
  lemma UnscaledHead(ws: seq<string>, g: RectArgs)
    requires |ws| == 4 && Spaced(ws) && ValidArgs(Unscaled, g)
    ensures var s := RectText(Unscaled, ws, g);
            StartsRect(s, 0) && WrittenAt(s, 5, ws[0]) && AllSpaces(ws[0])
            && 5 + |ws[0]| < |s| && s[5 + |ws[0]|] == 't'
  {
    FormKinds();
    var s := RectText(Unscaled, ws, g);
    var gs := ArgsGroups(g);
    var w := Written(UnscaledForm, ws, gs);
    var rest := Written(UnscaledForm[1..], ws[1..], gs);
    assert Head(UnscaledForm, gs) == "t" && Tail(UnscaledForm, gs) == gs;
    assert forall k :: 0 <= k < |s| ==> s[0 + k] == s[k];
    assert s == "rect(" + w + "";
    SplitWrittenAt(s, 0, "rect(", w, "");
    SplitWrittenAt(s, 5, ws[0], "t", rest);
    assert s[5 + |ws[0]| + 0] == 't';
    assert s[0..5] == "rect(";
  }

  /**
   * Sign rule, scaled form, with any white space between the tokens: the
   * text normalises to `rect((t-c)/w)` as in `NormalizeScaledText`.
   */
  lemma {:induction false} NormalizeSpacedScaled(v: Variant, floatRepr: string -> string, ws: seq<string>, plus: bool, a: string, b: string)
    requires |ws| == 8 && Spaced(ws) && IsDecimal(a) && IsDecimal(b)
    requires FloatChars(floatRepr(a)) && (v == Standalone ==> FloatChars(floatRepr(b)))
    ensures Normalized(v, floatRepr, RectText(Scaled, ws, RectArgs(plus, a, Some(b))))
         == CanonicalText((if plus then "-" else "") + floatRepr(a), if v == Package then b else floatRepr(b))
  {
    var g := RectArgs(plus, a, Some(b));
    var s := RectText(Scaled, ws, g);
    assert s[0..|s|] == s;
    MatchAtOfWritten(Scaled, s, 0, ws, g);
    PassOfWholeMatch(Scaled, v, floatRepr, s, Hit(0, |s|, g));
    DecimalShape(b);
    CenterChars(floatRepr, g);
    UnscaledKeepsCanonical(v, floatRepr, CenterText(floatRepr, g), WidthText(v, floatRepr, g));
  }

  /**
   * Sign rule, unscaled form, with any white space between the tokens: the
   * scaled pass leaves the text alone and the unscaled pass writes
   * `rect((t-c)/1)`.
   */
  lemma {:induction false} NormalizeSpacedUnscaled(v: Variant, floatRepr: string -> string, ws: seq<string>, plus: bool, a: string)
    requires |ws| == 4 && Spaced(ws) && IsDecimal(a)
    ensures Normalized(v, floatRepr, RectText(Unscaled, ws, RectArgs(plus, a, None)))
         == CanonicalText((if plus then "-" else "") + floatRepr(a), "1")
  {
    var g := RectArgs(plus, a, None);
    var s := RectText(Unscaled, ws, g);
    ScaledPassKeepsUnscaled(v, floatRepr, ws, g);
    assert s[0..|s|] == s;
    MatchAtOfWritten(Unscaled, s, 0, ws, g);
    PassOfWholeMatch(Unscaled, v, floatRepr, s, Hit(0, |s|, g));
  }

  /** The scaled pass leaves a written unscaled form alone: it does not match at `rect(`, and no other `r` follows. */
  lemma ScaledPassKeepsUnscaled(v: Variant, floatRepr: string -> string, ws: seq<string>, g: RectArgs)
    requires |ws| == 4 && Spaced(ws) && ValidArgs(Unscaled, g)
    ensures PassResult(Scaled, v, floatRepr, RectText(Unscaled, ws, g)) == RectText(Unscaled, ws, g)
  {
    var s := RectText(Unscaled, ws, g);
    UnscaledTailWithoutR(ws, g);
    ScaledMissesUnscaled(ws, g);
    PassWithoutMatch(Scaled, v, floatRepr, s);
  }

  /** After `rect(`, a written unscaled form holds no `r`. */
  lemma UnscaledTailWithoutR(ws: seq<string>, g: RectArgs)
    requires |ws| == 4 && Spaced(ws) && ValidArgs(Unscaled, g)
    ensures var s := RectText(Unscaled, ws, g); forall k :: 1 <= k < |s| ==> s[k] != 'r'
  {
    FormKinds();
    var s := RectText(Unscaled, ws, g);
    var w := Written(UnscaledForm, ws, ArgsGroups(g));
    ArgsGroupTexts(Unscaled, g);
    WrittenWithoutR(UnscaledForm, ws, ArgsGroups(g));
    assert s == "rect(" + w;
    forall k | 1 <= k < |s|
      ensures s[k] != 'r'
    {
      if k >= 5 {
        assert s[k] == w[k - 5];
      }
    }
  }

  /**
   * In the package copy `rect((t±a)/1)` and `rect(t±a)` normalise to the
   * very same text.
   */
  lemma {:induction false} PackageFormsAgree(floatRepr: string -> string, plus: bool, a: string)
    requires IsDecimal(a) && FloatChars(floatRepr(a))
    ensures Normalized(Package, floatRepr, ScaledText(plus, a, "1")) == Normalized(Package, floatRepr, UnscaledText(plus, a))
  {
    assert AllDigits("1");
    NormalizeScaledText(Package, floatRepr, plus, a, "1");
    NormalizeUnscaledText(Package, floatRepr, plus, a);
  }

  /**
   * In the stand-alone copy the two forms agree only if `1` prints as `1`:
   * the scaled pass writes `repr(float("1"))` (Python prints `1.0`), the
   * unscaled pass writes the digit `1`.
   */
  lemma {:induction false} StandaloneFormsDiffer(floatRepr: string -> string, plus: bool, a: string)
    requires IsDecimal(a) && FloatChars(floatRepr(a)) && FloatChars(floatRepr("1"))
    ensures Normalized(Standalone, floatRepr, ScaledText(plus, a, "1")) == Normalized(Standalone, floatRepr, UnscaledText(plus, a))
        <==> floatRepr("1") == "1"
  {
    assert AllDigits("1");
    NormalizeScaledText(Standalone, floatRepr, plus, a, "1");
    NormalizeUnscaledText(Standalone, floatRepr, plus, a);
    var c := (if plus then "-" else "") + floatRepr(a);
    if CanonicalText(c, floatRepr("1")) == CanonicalText(c, "1") {
      CanonicalTextLayout(c, floatRepr("1"));
      CanonicalTextLayout(c, "1");
    }
  }

  /**
   * A canonical form whose centre and width already print as themselves is
   * left exactly as it is by both passes.
   */
  lemma {:induction false} CanonicalIsFixedPoint(v: Variant, floatRepr: string -> string, a: string, b: string)
    requires IsDecimal(a) && IsDecimal(b) && floatRepr(a) == a
    requires v == Standalone ==> floatRepr(b) == b
    ensures Normalized(v, floatRepr, ScaledText(false, a, b)) == ScaledText(false, a, b)
  {
    DecimalShape(a);
    DecimalShape(b);
    NormalizeScaledText(v, floatRepr, false, a, b);
    PlainCanonical(a, b);
  }

  lemma PlainCanonical(a: string, b: string)
    ensures CanonicalText("" + a, b) == ScaledText(false, a, b)
  {
    assert "" + a == a;
  }

  /** A canonical form whose centre starts with `-` is matched by neither pattern. */
  lemma {:induction false} NegativeCanonicalStays(v: Variant, floatRepr: string -> string, c: string, w: string)
    requires FloatChars(c) && FloatChars(w) && |c| > 0 && c[0] == '-'
    ensures Normalized(v, floatRepr, CanonicalText(c, w)) == CanonicalText(c, w)
  {
    var s := CanonicalText(c, w);
    CanonicalTextLayout(c, w);
    ScaledLayoutOneR(s, false, c, w);
    assert s[8] == '-' by {
      assert s[8..8 + |c|][0] == s[8];
    }
    var t := ScaledForm;
    ReadLiteralFails(t[3..], s, 8);
    assert t[2..][1..] == t[3..];
    ReadGroup(t[2..], s, 7, 8);
    assert t[1..][1..] == t[2..];
    ReadChar(t[1..], s, 6, 't');
    ReadChar(t, s, 5, '(');
    assert MatchAt(Scaled, s, 0).None?;
    PassWithoutMatch(Scaled, v, floatRepr, s);
    UnscaledKeepsCanonical(v, floatRepr, c, w);
  }

  /**
   * A negative centre is printed as `t--a`, which neither pattern matches,
   * so normalising the output again changes nothing.
   */
  lemma {:induction false} NegativeCentreNotRematched(v: Variant, floatRepr: string -> string, a: string, b: string)
    requires IsDecimal(a) && IsDecimal(b)
    requires FloatChars(floatRepr(a)) && (v == Standalone ==> FloatChars(floatRepr(b)))
    ensures var once := Normalized(v, floatRepr, ScaledText(true, a, b));
            Normalized(v, floatRepr, once) == once
  {
    NormalizeScaledText(v, floatRepr, true, a, b);
    DecimalShape(b);
    var g := RectArgs(true, a, Some(b));
    CenterChars(floatRepr, g);
    NegativeCanonicalStays(v, floatRepr, CenterText(floatRepr, g), WidthText(v, floatRepr, g));
  }

  /** A text without an `r` contains no rect call and is not changed. */
  lemma NormalizedWithoutR(v: Variant, floatRepr: string -> string, s: string)
    requires forall k :: 0 <= k < |s| ==> s[k] != 'r'
    ensures Normalized(v, floatRepr, s) == s
  {
    NoMatchWithoutR(Scaled, s, 0);
    PassWithoutMatch(Scaled, v, floatRepr, s);
    NoMatchWithoutR(Unscaled, s, 0);
    PassWithoutMatch(Unscaled, v, floatRepr, s);
  }

  /** A text in which `rect(` starts nowhere is left as it is by both passes. */
  lemma NormalizedWithoutRect(v: Variant, floatRepr: string -> string, s: string)
    requires forall p :: 0 <= p <= |s| ==> !StartsRect(s, p)
    ensures Normalized(v, floatRepr, s) == s
  {
    SubWithoutMatch(Matcher(Scaled, s), Rewrite(v, floatRepr), s);
    SubWithoutMatch(Matcher(Unscaled, s), Rewrite(v, floatRepr), s);
  }

  /** `rect(t+3/2)`: the offset is not a literal followed by `)`, so neither pattern matches. */
  lemma {:induction false} ArithmeticOffsetPassesThrough(v: Variant, floatRepr: string -> string)
    ensures Normalized(v, floatRepr, "rect(t+3/2)") == "rect(t+3/2)"
  {
    var s := "rect(t+3/2)";
    ReadCharFails(ScaledForm, s, 5, '(');
    assert MatchAt(Scaled, s, 0).None?;
    PassWithoutMatch(Scaled, v, floatRepr, s);
    var t := UnscaledForm;
    assert DigitsEnd(s, 8) == 8;
    assert NumberEnd(s, 7) == Some(8);
    ReadCharFails(t[3..], s, 8, ')');
    assert t[2..][1..] == t[3..];
    ReadGroup(t[2..], s, 7, 8);
    assert t[1..][1..] == t[2..];
    ReadGroup(t[1..], s, 6, 7);
    ReadChar(t, s, 5, 't');
    assert MatchAt(Unscaled, s, 0).None?;
    PassWithoutMatch(Unscaled, v, floatRepr, s);
  }

  /** `rect(2*t)`: a scaled time is not an argument either pattern accepts. */
  lemma {:induction false} ScaledTimePassesThrough(v: Variant, floatRepr: string -> string)
    ensures Normalized(v, floatRepr, "rect(2*t)") == "rect(2*t)"
  {
    var s := "rect(2*t)";
    ReadCharFails(ScaledForm, s, 5, '(');
    ReadCharFails(UnscaledForm, s, 5, 't');
    assert MatchAt(Scaled, s, 0).None?;
    PassWithoutMatch(Scaled, v, floatRepr, s);
    assert MatchAt(Unscaled, s, 0).None?;
    PassWithoutMatch(Unscaled, v, floatRepr, s);
  }
}
