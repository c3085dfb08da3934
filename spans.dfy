/**
 * The common shape of every rewrite in the evaluator: the matches of a
 * pattern are located first, as spans of the ORIGINAL text, and each span is
 * then replaced by its replacement text. Splice is that result, written from
 * left to right; the text between spans is kept as it is and the replacement
 * texts are never searched again.
 */
module Spans {

  /** The matched text `s[start..end]` is to be replaced by `repl`. */
  datatype Span = Span(start: nat, end: nat, repl: string)

  /** Spans lie within `[pos, n]`, in increasing order, without overlapping. */
  predicate Ordered(spans: seq<Span>, pos: nat, n: nat) {
    && pos <= n
    && (forall i :: 0 <= i < |spans| ==> pos <= spans[i].start <= spans[i].end <= n)
    && (forall i, j :: 0 <= i < j < |spans| ==> spans[i].end <= spans[j].start)
  }

  /** `s[pos..]` with every span replaced by its replacement text. */
  function Splice(s: string, spans: seq<Span>, pos: nat): string
    requires Ordered(spans, pos, |s|)
    decreases |spans|
  {
    if spans == [] then s[pos..]
    else s[pos..spans[0].start] + spans[0].repl + Splice(s, spans[1..], spans[0].end)
  }

  /** Where the text still untouched by a right-to-left splice that has done `spans[k..]` ends. */
  function DoneFrom(spans: seq<Span>, k: nat): nat
    requires 0 <= k <= |spans|
  {
    if k == 0 then 0 else spans[k - 1].end
  }

  /** The spans after the first `k` are ordered from where the `k`-th ends. */
  lemma SuffixOrdered(s: string, spans: seq<Span>, k: nat)
    requires Ordered(spans, 0, |s|) && k <= |spans|
    ensures Ordered(spans[k..], DoneFrom(spans, k), |s|)
  {
  }

  /** The text once `spans[k..]` have been replaced, working from the right. */
  function SplicedFrom(s: string, spans: seq<Span>, k: nat): string
    requires Ordered(spans, 0, |s|) && k <= |spans|
  {
    SuffixOrdered(s, spans, k);
    s[..DoneFrom(spans, k)] + Splice(s, spans[k..], DoneFrom(spans, k))
  }

  /** Before any replacement the text is `s`; after all of them it is Splice. */
  lemma SplicedFromEnds(s: string, spans: seq<Span>)
    requires Ordered(spans, 0, |s|)
    ensures SplicedFrom(s, spans, |spans|) == s
    ensures SplicedFrom(s, spans, 0) == Splice(s, spans, 0)
  {
    var n := |spans|;
    assert s[..DoneFrom(spans, n)] + s[DoneFrom(spans, n)..] == s;
  }

  /**
   * One step of the right-to-left splice: when `spans[k..]` have been
   * replaced already, replacing `spans[k - 1]` in the current text (by its
   * offsets in the ORIGINAL text, which are still valid because everything
   * to their left is untouched) gives the text with `spans[k - 1..]` replaced.
   */
  lemma SpliceStep(s: string, spans: seq<Span>, k: nat)
    requires Ordered(spans, 0, |s|) && 0 < k <= |spans|
    ensures var cur, sp := SplicedFrom(s, spans, k), spans[k - 1];
            sp.end <= |cur| && cur[..sp.start] + sp.repl + cur[sp.end..] == SplicedFrom(s, spans, k - 1)
  {
    var lo, sp := DoneFrom(spans, k), spans[k - 1];
    SuffixOrdered(s, spans, k);
    SuffixOrdered(s, spans, k - 1);
    assert lo == sp.end;
    var tail := Splice(s, spans[k..], lo);
    var cur := s[..lo] + tail;
    assert cur[..sp.start] == s[..sp.start];
    assert cur[sp.end..] == tail;
    var lo' := DoneFrom(spans, k - 1);
    assert spans[k - 1..][1..] == spans[k..];
    assert Splice(s, spans[k - 1..], lo') == s[lo'..sp.start] + sp.repl + tail;
    assert s[..lo'] + s[lo'..sp.start] == s[..sp.start];
  }

  /** Spans whose replacement is the very text they cover change nothing. */
  lemma {:induction false} SpliceIdentity(s: string, spans: seq<Span>, pos: nat)
    requires Ordered(spans, pos, |s|)
    requires forall i :: 0 <= i < |spans| ==> spans[i].repl == s[spans[i].start..spans[i].end]
    ensures Splice(s, spans, pos) == s[pos..]
    decreases |spans|
  {
    if spans != [] {
      var sp := spans[0];
      assert Ordered(spans[1..], sp.end, |s|) by {
        forall i | 0 <= i < |spans[1..]| ensures sp.end <= spans[1..][i].start {
          assert spans[1..][i] == spans[i + 1];
        }
      }
      SpliceIdentity(s, spans[1..], sp.end);
      assert s[pos..sp.start] + s[sp.start..sp.end] + s[sp.end..] == s[pos..];
    }
  }
}
