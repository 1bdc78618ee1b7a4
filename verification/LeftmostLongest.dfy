/** What one substitution pass replaces, said without a scan: the matches of the pass are the one
    family of disjoint longest matches that leaves no match beginning outside of it. */
module LeftmostLongest {
  import opened Wrappers
  import opened Regex
  import opened Redactor
  import opened NoResidue

  ghost predicate Longest(p: Pattern, s: string, spans: seq<Span>) {
    forall k, b: nat :: 0 <= k < |spans| && Occurs(p, s, spans[k].start, b) ==> b <= spans[k].end
  }

  ghost predicate Complete(p: Pattern, s: string, i: nat, spans: seq<Span>) {
    forall a: nat, b: nat :: i <= a && Uncovered(a, spans) ==> !Occurs(p, s, a, b)
  }

  /** The spans are disjoint longest matches from `i` on, and no match begins outside them. */
  ghost predicate Fits(p: Pattern, s: string, i: nat, spans: seq<Span>) {
    InOrder(s, i, spans) && Genuine(p, s, spans) && Longest(p, s, spans) && Complete(p, s, i, spans)
  }

  lemma {:induction false} SpansAreLongest(p: Pattern, s: string, i: nat)
    requires i <= |s|
    ensures Longest(p, s, Spans(p, s, i))
    decreases |s| - i
  {
    if i < |s| {
      var r := FindAt(p, s, i);
      SpansAreLongest(p, s, if r.Some? then r.value else i + 1);
      if r.Some? {
        forall b: nat | Occurs(p, s, i, b) ensures b <= r.value { PatternsAreDeterminate(p, s, i, b); }
        assert Spans(p, s, i)[1..] == Spans(p, s, r.value);
        forall k, b: nat | 0 <= k < |Spans(p, s, i)| && Occurs(p, s, Spans(p, s, i)[k].start, b)
          ensures b <= Spans(p, s, i)[k].end
        {
          if k > 0 { assert Spans(p, s, i)[k] == Spans(p, s, r.value)[k - 1]; }
        }
      }
    }
  }

  lemma SpansFit(p: Pattern, s: string, i: nat)
    requires i <= |s|
    ensures Fits(p, s, i, Spans(p, s, i))
  {
    SpansAreGenuine(p, s, i);
    SpansAreLongest(p, s, i);
    forall a: nat, b: nat | i <= a && Uncovered(a, Spans(p, s, i)) ensures !Occurs(p, s, a, b) {
      if Occurs(p, s, a, b) {
        StartOfMatch(p, s, a, b);
        SpansAreAll(p, s, i, a, b);
      }
    }
  }

  lemma {:induction false} StartsAreBehind(s: string, i: nat, spans: seq<Span>, k: nat)
    requires InOrder(s, i, spans) && k < |spans|
    ensures i <= spans[k].start && (k > 0 ==> spans[0].end <= spans[k].start)
    decreases |spans|
  {
    if k > 0 {
      StartsAreBehind(s, spans[0].end, spans[1..], k - 1);
    }
  }

  lemma OrderEnds(s: string, i: nat, spans: seq<Span>)
    requires InOrder(s, i, spans)
    ensures i <= |s| && (i == |s| ==> spans == [])
  {
  }

  /** Any family with these properties is the one that the pass replaces. */
  lemma {:induction false} SpansAreUnique(p: Pattern, s: string, i: nat, spans: seq<Span>)
    requires Fits(p, s, i, spans)
    ensures i <= |s| && spans == Spans(p, s, i)
    decreases |s| - i
  {
    OrderEnds(s, i, spans);
    if i < |s| {
      match FindAt(p, s, i)
      case Some(e) =>
        FirstSpanIs(p, s, i, e, spans);
        RestFits(p, s, i, spans);
        SpansAreUnique(p, s, e, spans[1..]);
        FirstAndRest(p, s, i, e, spans);
      case None =>
        NoSpanHere(p, s, i, spans);
        SpansAreUnique(p, s, i + 1, spans);
    }
  }

  lemma FirstAndRest(p: Pattern, s: string, i: nat, e: nat, spans: seq<Span>)
    requires i < e <= |s| && FindAt(p, s, i) == Some(e)
    requires spans != [] && spans[0] == Span(i, e) && spans[1..] == Spans(p, s, e)
    ensures spans == Spans(p, s, i)
  {
    assert spans == [spans[0]] + spans[1..];
  }

  lemma FirstSpanIs(p: Pattern, s: string, i: nat, e: nat, spans: seq<Span>)
    requires i < |s| && FindAt(p, s, i) == Some(e) && Fits(p, s, i, spans)
    ensures spans != [] && spans[0] == Span(i, e) && i < e <= |s|
  {
    FoundIsSecret(p, s, i);
    CoveredByFirst(s, i, spans);
    PatternsAreDeterminate(p, s, i, spans[0].end);
  }

  lemma CoveredByFirst(s: string, i: nat, spans: seq<Span>)
    requires InOrder(s, i, spans) && !Uncovered(i, spans)
    ensures spans != [] && spans[0].start == i
  {
    var k :| 0 <= k < |spans| && spans[k].start <= i < spans[k].end;
    StartsAreBehind(s, i, spans, k);
  }

  lemma RestFits(p: Pattern, s: string, i: nat, spans: seq<Span>)
    requires spans != [] && Fits(p, s, i, spans)
    ensures Fits(p, s, spans[0].end, spans[1..])
  {
    forall k | 0 <= k < |spans| - 1 ensures spans[1..][k] == spans[k + 1] {}
    forall a: nat, b: nat | spans[0].end <= a && Uncovered(a, spans[1..]) ensures !Occurs(p, s, a, b) {
      UncoveredCons(a, spans);
    }
  }

  lemma NoSpanHere(p: Pattern, s: string, i: nat, spans: seq<Span>)
    requires i < |s| && FindAt(p, s, i).None? && Fits(p, s, i, spans)
    ensures Fits(p, s, i + 1, spans)
  {
    if spans != [] && spans[0].start == i {
      EngineIsComplete(Expression(p), s, i, spans[0].end);
    }
  }
}
