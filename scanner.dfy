/** `template.match(new RegExp(open + "(.+?)" + close, "g"))` for tags whose
    characters the regular expression takes literally: every leftmost,
    non-overlapping occurrence of the open tag, a shortest non-empty run of
    characters other than line terminators, and the close tag. */
module Scanner {
  import opened JsValues
  import opened TextOps

  /** No line terminator in `t[from..to]`. */
  predicate OneLine(t: string, from: nat, to: nat)
    requires from <= to <= |t|
  {
    forall k :: from <= k < to ==> !IsLineTerminator(t[k])
  }

  /** With the inner text starting at `q`, the close tag can follow at `m`:
      `.+?` has matched `t[q..m]`, at least one character, all on one line. */
  predicate Closes(t: string, close: string, q: nat, m: nat) {
    q < m <= |t| && OneLine(t, q, m) && OccursAt(t, close, m)
  }

  /** The lazy `.+?`: the smallest `m >= e` at which the close tag follows,
      searching no further than the first line terminator. */
  function FindClose(t: string, close: string, q: nat, e: nat): (r: Option<nat>)
    requires q < e && forall m :: q < m < e ==> !Closes(t, close, q, m)
    requires e <= |t| + 1 && (e <= |t| ==> OneLine(t, q, e - 1))
    ensures r.Some? ==> Closes(t, close, q, r.value) && forall m :: q < m < r.value ==> !Closes(t, close, q, m)
    ensures r.None? ==> forall m :: !Closes(t, close, q, m)
    decreases |t| + 1 - e
  {
    if e > |t| || IsLineTerminator(t[e - 1]) then None
    else if OccursAt(t, close, e) then Some(e)
    else FindClose(t, close, q, e + 1)
  }

  /** The text at `p` is a match: the open tag, then a run up to the first
      place the close tag can follow, then the close tag, ending at `e`. */
  predicate IsMatch(t: string, open: string, close: string, p: nat, e: nat) {
    var q := p + |open|;
    && OccursAt(t, open, p)
    && e >= |close| && Closes(t, close, q, e - |close|)
    && forall m :: q < m < e - |close| ==> !Closes(t, close, q, m)
  }

  /** The regular expression tried at position `p`: the end of the match, or
      `None` when there is none starting there. */
  function MatchAt(t: string, open: string, close: string, p: nat): (r: Option<nat>)
    ensures r.Some? <==> exists e :: IsMatch(t, open, close, p, e)
    ensures r.Some? ==> IsMatch(t, open, close, p, r.value)
  {
    var q := p + |open|;
    if !OccursAt(t, open, p) || q >= |t| then None
    else
      match FindClose(t, close, q, q + 1)
      case None =>
        assert forall e: nat :: IsMatch(t, open, close, p, e) ==> e >= |close| && Closes(t, close, q, e - |close|);
        None
      case Some(m) =>
        assert IsMatch(t, open, close, p, m + |close|);
        Some(m + |close|)
  }

  /** A match is determined by where it starts. */
  lemma MatchUnique(t: string, open: string, close: string, p: nat, e1: nat, e2: nat)
    requires IsMatch(t, open, close, p, e1) && IsMatch(t, open, close, p, e2)
    ensures e1 == e2
  {
  }

  /** A span `[start, end)` of the template. */
  datatype Span = Span(start: nat, end: nat)

  /** The global match from position `from` on: try each position in turn;
      after a match, go on from its end. */
  function Scan(t: string, open: string, close: string, from: nat): (spans: seq<Span>)
    requires open != []
    ensures forall i :: 0 <= i < |spans| ==> from <= spans[i].start < spans[i].end <= |t|
    ensures forall i :: 0 <= i < |spans| ==> MatchAt(t, open, close, spans[i].start) == Some(spans[i].end)
    ensures forall i :: 0 < i < |spans| ==> spans[i - 1].end <= spans[i].start
    decreases |t| - from
  {
    if from >= |t| then []
    else
      match MatchAt(t, open, close, from)
      case Some(e) =>
        var rest := Scan(t, open, close, e);
        var spans := [Span(from, e)] + rest;
        assert forall i :: 0 < i < |spans| ==> spans[i] == rest[i - 1];
        spans
      case None => Scan(t, open, close, from + 1)
  }

  /** The match array `template.match` returns (empty instead of `null`). */
  function Occurrences(t: string, open: string, close: string): (occs: seq<string>)
    requires open != []
    ensures |occs| == |Scan(t, open, close, 0)|
  {
    var spans := Scan(t, open, close, 0);
    seq(|spans|, i requires 0 <= i < |spans| => t[spans[i].start..spans[i].end])
  }

  /** Each occurrence is the text of one match: the open tag, at least one
      character with no line terminator among them, and the close tag. */
  lemma OccurrenceShape(t: string, open: string, close: string, i: nat)
    requires open != [] && i < |Occurrences(t, open, close)|
    ensures var occ := Occurrences(t, open, close)[i];
            && |open| + |close| < |occ|
            && occ[..|open|] == open
            && occ[|occ| - |close|..] == close
            && forall k :: |open| <= k < |occ| - |close| ==> !IsLineTerminator(occ[k])
  {
    var s := Scan(t, open, close, 0)[i];
    assert MatchAt(t, open, close, s.start) == Some(s.end);
    assert Occurrences(t, open, close)[i] == t[s.start..s.end];
    MatchShape(t, open, close, s.start, s.end);
  }

  /** The text of a match has that shape. */
  lemma MatchShape(t: string, open: string, close: string, p: nat, e: nat)
    requires IsMatch(t, open, close, p, e)
    ensures p <= e <= |t|
    ensures var occ := t[p..e];
            && |open| + |close| < |occ|
            && occ[..|open|] == open
            && occ[|occ| - |close|..] == close
            && forall k :: |open| <= k < |occ| - |close| ==> !IsLineTerminator(occ[k])
  {
    var q, m := p + |open|, e - |close|;
    assert Closes(t, close, q, m);
    var occ := t[p..e];
    assert occ[..|open|] == t[p..q];
    assert occ[|occ| - |close|..] == t[m..m + |close|];
    forall k | |open| <= k < |occ| - |close| ensures !IsLineTerminator(occ[k]) {
      assert occ[k] == t[p + k];
    }
  }

  /** The spans are the leftmost ones: no match starts before the first
      span, and none starts between two spans or after the last, so the
      scan skips only positions where the expression fails. */
  lemma {:induction false} ScanLeftmost(t: string, open: string, close: string, from: nat, p: nat)
    requires open != []
    requires from <= p
    requires forall i :: 0 <= i < |Scan(t, open, close, from)| ==>
               var s := Scan(t, open, close, from)[i];
               p < s.start || s.end <= p
    ensures MatchAt(t, open, close, p).None?
    decreases |t| - from
  {
    if from < |t| {
      var spans := Scan(t, open, close, from);
      match MatchAt(t, open, close, from)
      case Some(e) =>
        assert spans[0] == Span(from, e);
        assert p >= e;
        assert spans[1..] == Scan(t, open, close, e);
        forall i | 0 <= i < |Scan(t, open, close, e)|
          ensures var s := Scan(t, open, close, e)[i]; p < s.start || s.end <= p
        {
          assert Scan(t, open, close, e)[i] == spans[i + 1];
        }
        ScanLeftmost(t, open, close, e, p);
      case None =>
        if p > from {
          ScanLeftmost(t, open, close, from + 1, p);
        }
    }
  }

  /** No match starts between `from` and the first span. */
  lemma {:induction false} ScanFirstIsLeftmost(t: string, open: string, close: string, from: nat, p: nat)
    requires open != [] && from <= p
    requires Scan(t, open, close, from) != [] ==> p < Scan(t, open, close, from)[0].start
    ensures MatchAt(t, open, close, p).None?
    decreases |t| - from
  {
    if from < |t| && p > from && MatchAt(t, open, close, from).None? {
      ScanFirstIsLeftmost(t, open, close, from + 1, p);
    }
  }

  /** The text of a match is a match wherever it occurs: the shortest run
      and the absence of line terminators depend on the text alone. */
  lemma MatchTextAnywhere(t: string, u: string, open: string, close: string, p: nat, e: nat, p': nat)
    requires IsMatch(t, open, close, p, e)
    requires OccursAt(u, t[p..e], p')
    ensures IsMatch(u, open, close, p', p' + (e - p))
  {
    var q, q' := p + |open|, p' + |open|;
    var m, m' := e - |close|, p' + (e - p) - |close|;
    Shifted(t, u, p, e, p', p, q);
    Shifted(t, u, p, e, p', m, e);
    Shifted(t, u, p, e, p', q, m);
    assert OneLine(u, q', m') by {
      forall k | q' <= k < m' ensures !IsLineTerminator(u[k]) {
        assert u[p' + (k - p' + p - p)] == t[k - p' + p];
      }
    }
    forall n | q' < n < m' ensures !Closes(u, close, q', n) {
      var n0 := n - p' + p;
      assert !Closes(t, close, q, n0);
      assert OneLine(t, q, n0);
      if n + |close| <= p' + (e - p) {
        Shifted(t, u, p, e, p', n0, n0 + |close|);
      }
    }
  }

  /** A piece of `t[p..e]`, found again in `u` at `p'`. */
  lemma Shifted(t: string, u: string, p: nat, e: nat, p': nat, i: nat, j: nat)
    requires p <= i <= j <= e <= |t| && OccursAt(u, t[p..e], p')
    ensures p' + (j - p) <= |u|
    ensures forall k :: i <= k < j ==> u[p' + (k - p)] == t[k]
    ensures u[p' + (i - p)..p' + (j - p)] == t[i..j]
  {
    var w := t[p..e];
    assert u[p'..p' + |w|] == w;
    forall k | i <= k < j ensures u[p' + (k - p)] == t[k] {
      assert u[p'..p' + |w|][k - p] == w[k - p];
    }
  }

  /** No copy of the first match's text starts before it. */
  lemma NoEarlierCopy(t: string, open: string, close: string, s: Span, p': nat)
    requires open != [] && IsMatch(t, open, close, s.start, s.end) && s.start <= s.end <= |t|
    requires p' < s.start && MatchAt(t, open, close, p').None?
    ensures !OccursAt(t, t[s.start..s.end], p')
  {
    if OccursAt(t, t[s.start..s.end], p') {
      MatchTextAnywhere(t, t, open, close, s.start, s.end, p');
    }
  }

  /** The first occurrence's text first appears in the template where the
      scan found it: the literal `replace` of the first occurrence hits the
      matched text itself. */
  lemma FirstOccurrenceFirst(t: string, open: string, close: string)
    requires open != [] && Scan(t, open, close, 0) != []
    ensures var s := Scan(t, open, close, 0)[0];
            IndexOf(t, t[s.start..s.end], 0) == Some(s.start)
  {
    var s := Scan(t, open, close, 0)[0];
    var w := t[s.start..s.end];
    assert MatchAt(t, open, close, s.start) == Some(s.end);
    assert t[s.start..s.start + |w|] == w;
    forall p' | 0 <= p' < s.start ensures !OccursAt(t, w, p') {
      ScanFirstIsLeftmost(t, open, close, 0, p');
      NoEarlierCopy(t, open, close, s, p');
    }
    IndexOfFirst(t, w, s.start);
  }
}
