/**
 * The left-to-right search shared by `re.finditer`, `re.findall` and
 * `re.sub`: the pattern is tried at each position in turn; after a match
 * the search resumes where the match ended, otherwise one position further
 * on. Every pattern of the evaluator matches only non-empty text, so the
 * special rules Python has for empty matches never apply.
 *
 * A pattern is given by its matcher: `matchAt(p)` is the match that starts
 * at `p`, if there is one.
 */
module Scanning {

  import opened Wrappers
  import opened Spans

  /** A match: the span `[start, end)` and what the pattern captured. */
  datatype Hit<+M> = Hit(start: nat, end: nat, data: M)

  /** Every match `matchAt` reports at `p` starts at `p`, is not empty and ends by `n`. */
  predicate IsMatcher<M>(matchAt: nat -> Option<Hit<M>>, n: nat) {
    forall p: nat :: p <= n && matchAt(p).Some? ==> matchAt(p).value.start == p < matchAt(p).value.end <= n
  }

  /** The matches found in `[pos, n]`, from left to right. */
  function Scan<M>(matchAt: nat -> Option<Hit<M>>, n: nat, pos: nat): (hs: seq<Hit<M>>)
    requires pos <= n && IsMatcher(matchAt, n)
    ensures forall i :: 0 <= i < |hs| ==> pos <= hs[i].start < hs[i].end <= n
    decreases n - pos
  {
    match matchAt(pos)
    case Some(h) => [h] + Scan(matchAt, n, h.end)
    case None => if pos == n then [] else Scan(matchAt, n, pos + 1)
  }

  /** Every element of the scan is the match of the pattern at its start. */
  lemma {:induction false} ScanAreMatches<M>(matchAt: nat -> Option<Hit<M>>, n: nat, pos: nat, i: nat)
    requires pos <= n && IsMatcher(matchAt, n) && i < |Scan(matchAt, n, pos)|
    ensures matchAt(Scan(matchAt, n, pos)[i].start) == Some(Scan(matchAt, n, pos)[i])
    decreases n - pos
  {
    match matchAt(pos)
    case Some(h) =>
      if i > 0 {
        ScanAreMatches(matchAt, n, h.end, i - 1);
      }
    case None =>
      ScanAreMatches(matchAt, n, pos + 1, i);
  }

  /** The matches come in order and do not overlap. */
  predicate InOrder<M>(hs: seq<Hit<M>>) {
    forall i, j :: 0 <= i < j < |hs| ==> hs[i].end <= hs[j].start
  }

  lemma {:induction false} ScanInOrder<M>(matchAt: nat -> Option<Hit<M>>, n: nat, pos: nat)
    requires pos <= n && IsMatcher(matchAt, n)
    ensures InOrder(Scan(matchAt, n, pos))
    decreases n - pos
  {
    match matchAt(pos)
    case Some(h) =>
      ScanInOrder(matchAt, n, h.end);
      assert Scan(matchAt, n, pos) == [h] + Scan(matchAt, n, h.end);
    case None =>
      if pos < n {
        ScanInOrder(matchAt, n, pos + 1);
      }
  }

  /** Is position `p` inside one of the matched spans? */
  predicate Covered<M>(hs: seq<Hit<M>>, p: nat) {
    exists i :: 0 <= i < |hs| && hs[i].start <= p < hs[i].end
  }

  /**
   * The scan misses nothing: a match of the pattern at `p` lies inside one
   * of the spans the scan returned (it is one of them, or it overlaps one
   * found further to the left).
   */
  lemma {:induction false} ScanLeftmost<M>(matchAt: nat -> Option<Hit<M>>, n: nat, pos: nat, p: nat)
    requires pos <= p <= n && IsMatcher(matchAt, n)
    ensures matchAt(p).Some? ==> Covered(Scan(matchAt, n, pos), p)
    decreases n - pos
  {
    var hs := Scan(matchAt, n, pos);
    match matchAt(pos)
    case Some(h) =>
      var rest := Scan(matchAt, n, h.end);
      assert hs == [h] + rest;
      if p < h.end {
        assert hs[0].start <= p < hs[0].end;
      } else {
        ScanLeftmost(matchAt, n, h.end, p);
        if matchAt(p).Some? {
          var i :| 0 <= i < |rest| && rest[i].start <= p < rest[i].end;
          assert hs[i + 1] == rest[i];
        }
      }
    case None =>
      if p > pos {
        ScanLeftmost(matchAt, n, pos + 1, p);
      }
  }

  /**
   * When the pattern also matches just before a match of the scan, that
   * position was consumed by the previous match, which ends where this one
   * starts.
   */
  lemma ScanPrecededByMatch<M>(matchAt: nat -> Option<Hit<M>>, n: nat, i: nat) returns (j: nat)
    requires IsMatcher(matchAt, n) && i < |Scan(matchAt, n, 0)|
    requires var q := Scan(matchAt, n, 0)[i].start; q > 0 && matchAt(q - 1).Some?
    ensures j < i && Scan(matchAt, n, 0)[j].end == Scan(matchAt, n, 0)[i].start
  {
    var hs := Scan(matchAt, n, 0);
    var q := hs[i].start - 1;
    ScanLeftmost(matchAt, n, 0, q);
    j :| 0 <= j < |hs| && hs[j].start <= q < hs[j].end;
    ScanInOrder(matchAt, n, 0);
  }

  /** A match at the current position is taken, and the search resumes at its end. */
  lemma ScanTakes<M>(matchAt: nat -> Option<Hit<M>>, n: nat, pos: nat, h: Hit<M>)
    requires pos <= n && IsMatcher(matchAt, n) && matchAt(pos) == Some(h)
    ensures h.end <= n && Scan(matchAt, n, pos) == [h] + Scan(matchAt, n, h.end)
  {
  }

  /** Positions where nothing matches are passed over. */
  lemma {:induction false} ScanSkips<M>(matchAt: nat -> Option<Hit<M>>, n: nat, pos: nat, q: nat)
    requires pos <= q <= n && IsMatcher(matchAt, n)
    requires forall p :: pos <= p < q ==> matchAt(p).None?
    ensures Scan(matchAt, n, pos) == Scan(matchAt, n, q)
    decreases q - pos
  {
    if pos < q {
      ScanSkips(matchAt, n, pos + 1, q);
    }
  }

  /** Without a match from `pos` on, the scan is empty. */
  lemma ScanEmpty<M>(matchAt: nat -> Option<Hit<M>>, n: nat, pos: nat)
    requires pos <= n && IsMatcher(matchAt, n)
    requires forall p :: pos <= p <= n ==> matchAt(p).None?
    ensures Scan(matchAt, n, pos) == []
  {
    ScanSkips(matchAt, n, pos, n);
  }

  /** The spans that replace each match `h` by `f(h)`. */
  function SpansOf<M>(hs: seq<Hit<M>>, f: Hit<M> -> string): (spans: seq<Span>)
    ensures |spans| == |hs|
    ensures forall i :: 0 <= i < |hs| ==> spans[i] == Span(hs[i].start, hs[i].end, f(hs[i]))
  {
    seq(|hs|, i requires 0 <= i < |hs| => Span(hs[i].start, hs[i].end, f(hs[i])))
  }

  /** The spans of a scan are ordered, as Splice needs them. */
  lemma ScanSpansOrdered<M>(matchAt: nat -> Option<Hit<M>>, f: Hit<M> -> string, s: string)
    requires IsMatcher(matchAt, |s|)
    ensures Ordered(SpansOf(Scan(matchAt, |s|, 0), f), 0, |s|)
  {
    ScanInOrder(matchAt, |s|, 0);
  }

  /** `re.sub` with a replacement function `f`: every match `h` of the scan is replaced by `f(h)`. */
  function Sub<M>(matchAt: nat -> Option<Hit<M>>, f: Hit<M> -> string, s: string): string
    requires IsMatcher(matchAt, |s|)
  {
    ScanSpansOrdered(matchAt, f, s);
    Splice(s, SpansOf(Scan(matchAt, |s|, 0), f), 0)
  }

  /**
   * The splice as the evaluator performs it: the matches, all found on the
   * original text, are replaced from the last to the first, so that the
   * offsets of the ones still to do stay valid.
   */
  method ReplaceFromRight<M>(s: string, hs: seq<Hit<M>>, f: Hit<M> -> string) returns (r: string)
    requires Ordered(SpansOf(hs, f), 0, |s|)
    ensures r == Splice(s, SpansOf(hs, f), 0)
  {
    ghost var spans := SpansOf(hs, f);
    SplicedFromEnds(s, spans);
    r := s;
    var k := |hs|;
    while k > 0
      invariant 0 <= k <= |hs|
      invariant r == SplicedFrom(s, spans, k)
    {
      SpliceStep(s, spans, k);
      var h := hs[k - 1];
      var replacement := f(h);
      r := r[..h.start] + replacement + r[h.end..];
      k := k - 1;
    }
  }

  /** A text without a match is returned as it is. */
  lemma SubWithoutMatch<M>(matchAt: nat -> Option<Hit<M>>, f: Hit<M> -> string, s: string)
    requires IsMatcher(matchAt, |s|)
    requires forall p :: 0 <= p <= |s| ==> matchAt(p).None?
    ensures Sub(matchAt, f, s) == s
  {
    ScanEmpty(matchAt, |s|, 0);
  }

  /** A text that is one match as a whole becomes that match's replacement. */
  lemma SubOfWholeMatch<M>(matchAt: nat -> Option<Hit<M>>, f: Hit<M> -> string, s: string, h: Hit<M>)
    requires IsMatcher(matchAt, |s|)
    requires matchAt(0) == Some(h) && h.end == |s|
    ensures Sub(matchAt, f, s) == f(h)
  {
    assert matchAt(|s|).None?;
    assert Scan(matchAt, |s|, |s|) == [];
    assert Scan(matchAt, |s|, 0) == [h];
    var spans := SpansOf([h], f);
    assert Splice(s, spans, 0) == s[0..0] + f(h) + Splice(s, [], |s|);
  }

  /** A text in which the scan finds a single match has just that match replaced. */
  lemma SubOfSingleHit<M>(matchAt: nat -> Option<Hit<M>>, f: Hit<M> -> string, s: string, h: Hit<M>)
    requires IsMatcher(matchAt, |s|) && Scan(matchAt, |s|, 0) == [h]
    ensures h.start <= h.end <= |s| && Sub(matchAt, f, s) == s[..h.start] + f(h) + s[h.end..]
  {
    assert h == Scan(matchAt, |s|, 0)[0];
    var spans := SpansOf([h], f);
    assert spans == [Span(h.start, h.end, f(h))];
    assert Splice(s, spans, 0) == s[0..h.start] + f(h) + Splice(s, [], h.end);
  }

  /** Replacing every match the scan finds by the text it covers changes nothing. */
  lemma SubIdentity<M>(matchAt: nat -> Option<Hit<M>>, f: Hit<M> -> string, s: string)
    requires IsMatcher(matchAt, |s|)
    requires forall i :: 0 <= i < |Scan(matchAt, |s|, 0)| ==>
               f(Scan(matchAt, |s|, 0)[i]) == s[Scan(matchAt, |s|, 0)[i].start..Scan(matchAt, |s|, 0)[i].end]
    ensures Sub(matchAt, f, s) == s
  {
    var hs := Scan(matchAt, |s|, 0);
    var spans := SpansOf(hs, f);
    ScanSpansOrdered(matchAt, f, s);
    SpliceIdentity(s, spans, 0);
  }
}
