/** Where scrubbed text comes from.

    A redacted text is a row of cells: characters kept from the original, and markers. A marker
    remembers what it hides, which may itself hold markers of earlier passes. */
module OnlySecrets {
  import opened Regex
  import opened Redactor
  import opened NoResidue
  import opened LeftmostLongest

  datatype Cell = Raw(c: char) | Mark(pattern: Pattern, hidden: seq<Cell>)

  function RenderCell(cell: Cell): string {
    if cell.Raw? then [cell.c] else REDACTED
  }

  /** The text after redaction. */
  function Render(cells: seq<Cell>): string {
    if cells == [] then ""
    else RenderCell(cells[0]) + Render(cells[1..])
  }

  /** The text before any redaction. */
  function Source(cells: seq<Cell>): string {
    if cells == [] then ""
    else
      (match cells[0]
       case Raw(c) => [c]
       case Mark(_, hidden) => Source(hidden)) + Source(cells[1..])
  }

  /** Every marker hides a whole secret of the pattern that put it there. */
  ghost predicate Honest(cells: seq<Cell>) {
    cells == [] ||
    ((match cells[0]
      case Raw(_) => true
      case Mark(p, hidden) => Occurs(p, Render(hidden), 0, |Render(hidden)|) && Honest(hidden)) &&
     Honest(cells[1..]))
  }

  function SourceCell(cell: Cell): string {
    if cell.Raw? then [cell.c] else Source(cell.hidden)
  }

  lemma SourceCons(cells: seq<Cell>)
    requires cells != []
    ensures Source(cells) == SourceCell(cells[0]) + Source(cells[1..])
  {
  }

  lemma Assoc(x: string, y: string, z: string)
    ensures x + (y + z) == x + y + z
  {
  }

  lemma {:induction false} ConcatRender(a: seq<Cell>, b: seq<Cell>)
    ensures Render(a + b) == Render(a) + Render(b)
    decreases |a|
  {
    if a == [] {
      assert a + b == b;
    } else {
      assert (a + b)[1..] == a[1..] + b && (a + b)[0] == a[0];
      ConcatRender(a[1..], b);
      Assoc(RenderCell(a[0]), Render(a[1..]), Render(b));
    }
  }

  lemma {:induction false} ConcatSource(a: seq<Cell>, b: seq<Cell>)
    ensures Source(a + b) == Source(a) + Source(b)
    decreases |a|
  {
    if a == [] {
      assert a + b == b;
    } else {
      assert (a + b)[1..] == a[1..] + b && (a + b)[0] == a[0];
      ConcatSource(a[1..], b);
      SourceCons(a + b);
      SourceCons(a);
      Assoc(SourceCell(a[0]), Source(a[1..]), Source(b));
    }
  }

  lemma {:induction false} ConcatHonest(a: seq<Cell>, b: seq<Cell>)
    ensures Honest(a + b) <==> Honest(a) && Honest(b)
    decreases |a|
  {
    if a == [] {
      assert a + b == b;
    } else {
      assert (a + b)[1..] == a[1..] + b;
      ConcatHonest(a[1..], b);
    }
  }

  lemma Concat(a: seq<Cell>, b: seq<Cell>)
    ensures Render(a + b) == Render(a) + Render(b)
    ensures Source(a + b) == Source(a) + Source(b)
    ensures Honest(a + b) <==> Honest(a) && Honest(b)
  {
    ConcatRender(a, b);
    ConcatSource(a, b);
    ConcatHonest(a, b);
  }

  /** Cut a row at a position that lies inside no marker. */
  lemma {:induction false} CutBefore(cells: seq<Cell>, n: nat) returns (k: nat)
    requires n < |Render(cells)| && StartsSecret(Render(cells)[n])
    ensures k <= |cells| && |Render(cells[..k])| == n
    decreases |cells|
  {
    if cells[0].Raw? && n == 0 {
      k := 0;
    } else {
      if cells[0].Mark? && n < |REDACTED| { MarkerHoldsNoStart(n); }
      var width := if cells[0].Raw? then 1 else |REDACTED|;
      assert Render(cells)[width..] == Render(cells[1..]);
      var k' := CutBefore(cells[1..], n - width);
      k := k' + 1;
      assert cells[..k][1..] == cells[1..][..k'];
    }
  }

  lemma {:induction false} CutAfter(cells: seq<Cell>, n: nat) returns (k: nat)
    requires n <= |Render(cells)|
    requires n > 0 ==> '[' !in Render(cells)[..n] || Render(cells)[n - 1] == '@'
    ensures k <= |cells| && |Render(cells[..k])| == n
    decreases |cells|
  {
    if n == 0 {
      k := 0;
    } else {
      var t := Render(cells);
      var width := if cells[0].Raw? then 1 else |REDACTED|;
      if cells[0].Mark? { WholeMarker(t, n); }
      assert t[width..] == Render(cells[1..]);
      assert t[..n][width..] == Render(cells[1..])[..n - width];
      var k' := CutAfter(cells[1..], n - width);
      k := k' + 1;
      assert cells[..k][1..] == cells[1..][..k'];
    }
  }

  lemma WholeMarker(t: string, n: nat)
    requires REDACTED <= t && 0 < n <= |t|
    requires '[' !in t[..n] || t[n - 1] == '@'
    ensures |REDACTED| < n && t[n - 1] == '@'
  {
    assert t[..n][0] == REDACTED[0];
    if n <= |REDACTED| { MarkerHoldsNoStart(n - 1); }
  }

  /** The last character of a secret is never inside a marker. */
  lemma SecretEnds(p: Pattern, s: string, i: nat, j: nat)
    requires Occurs(p, s, i, j)
    ensures i < j <= |s| && ('[' !in s[i..j] || s[j - 1] == '@')
  {
    StartOfMatch(p, s, i, j);
    if IsDsn(p) {
      DsnEnds(DsnHead(p), MinUser(p), s, i, j);
    } else {
      KeyAvoids(p, '[');
      AvoidsMatch(Expression(p), '[', s, i, j);
    }
  }

  lemma DsnEnds(head: seq<Piece>, minUser: nat, s: string, i: nat, j: nat)
    requires Derives(head + DsnTail(minUser), s, i, j)
    ensures 0 < j <= |s| && s[j - 1] == '@'
  {
    SplitMatch(head, DsnTail(minUser), s, i, j);
    var m: nat :| Derives(head, s, i, m) && Derives(DsnTail(minUser), s, m, j);
    var c, w := TailShape(minUser, s, m, j);
  }

  /** Hide the front of a row that renders to a secret. */
  lemma HideFront(p: Pattern, cells: seq<Cell>, n: nat) returns (front: seq<Cell>, back: seq<Cell>)
    requires Honest(cells) && Occurs(p, Render(cells), 0, n)
    ensures n <= |Render(cells)| && Honest([Mark(p, front)]) && Honest(back)
    ensures cells == front + back && Render(back) == Render(cells)[n..]
  {
    var t := Render(cells);
    SecretEnds(p, t, 0, n);
    assert t[0..n] == t[..n];
    var k := CutAfter(cells, n);
    front, back := cells[..k], cells[k..];
    assert cells == front + back;
    Concat(front, back);
    Prefix(p, t, n, Render(front));
  }

  lemma Prefix(p: Pattern, t: string, n: nat, front: string)
    requires front <= t && |front| == n && Occurs(p, t, 0, n)
    ensures Occurs(p, front, 0, n)
  {
    assert t[0..n] == front[0..n];
    Transfer(Expression(p), t, 0, n, front, 0);
  }

  /** A secret stays one in a suffix of the text. */
  lemma Suffix(p: Pattern, t: string, i: nat, a: nat, b: nat)
    requires i <= a <= b <= |t| && Occurs(p, t, a, b)
    ensures Occurs(p, t[i..], a - i, b - i)
  {
    assert t[a..b] == t[i..][a - i..b - i];
    Transfer(Expression(p), t, a, b, t[i..], a - i);
  }

  lemma CutGap(cells: seq<Cell>, a: nat) returns (gap: seq<Cell>, later: seq<Cell>)
    requires Honest(cells) && a < |Render(cells)| && StartsSecret(Render(cells)[a])
    ensures cells == gap + later && Honest(gap) && Honest(later)
    ensures Render(gap) == Render(cells)[..a] && Render(later) == Render(cells)[a..]
  {
    var k := CutBefore(cells, a);
    gap, later := cells[..k], cells[k..];
    assert cells == gap + later;
    Concat(gap, later);
  }

  /** Cut a row around a secret in its rendering. */
  lemma CutSpan(p: Pattern, t: string, cells: seq<Cell>, a: nat, b: nat)
      returns (gap: seq<Cell>, front: seq<Cell>, back: seq<Cell>)
    requires Honest(cells) && t == Render(cells) && Occurs(p, t, a, b)
    ensures a <= b <= |t| && cells == gap + (front + back)
    ensures Honest(gap) && Honest([Mark(p, front)]) && Honest(back)
    ensures Render(gap) == t[..a] && Render(back) == t[b..]
  {
    StartOfMatch(p, t, a, b);
    var later: seq<Cell>;
    gap, later := CutGap(cells, a);
    Suffix(p, t, a, a, b);
    front, back := HideFront(p, later, b - a);
    assert t[a..][b - a..] == t[b..];
  }

  lemma MarkAlone(p: Pattern, hidden: seq<Cell>)
    ensures Render([Mark(p, hidden)]) == REDACTED && Source([Mark(p, hidden)]) == Source(hidden)
  {
    assert [Mark(p, hidden)][1..] == [];
  }

  // ----- the rows of a text ---------------------------------------------------------------

  /** `cells` cut around a stretch of its rendering. */
  predicate CutAround(cells: seq<Cell>, a: nat, b: nat, gap: seq<Cell>, front: seq<Cell>, back: seq<Cell>) {
    cells == gap + (front + back) && |Render(gap)| == a && |Render(front)| + a == b
  }

  function WithMark(p: Pattern, gap: seq<Cell>, front: seq<Cell>, rest: seq<Cell>): seq<Cell> {
    gap + ([Mark(p, front)] + rest)
  }

  /** `row` is `cells` with a marker in place of each span. The spans are places in a text of
      which `cells` renders the part from `i` on. */
  ghost predicate Hides(p: Pattern, i: nat, spans: seq<Span>, cells: seq<Cell>, row: seq<Cell>)
    decreases |spans|
  {
    if spans == [] then row == cells
    else
      i <= spans[0].start < spans[0].end &&
      exists gap, front, back, rest ::
        CutAround(cells, spans[0].start - i, spans[0].end - i, gap, front, back) &&
        row == WithMark(p, gap, front, rest) && Hides(p, spans[0].end, spans[1..], back, rest)
  }

  /** One pass on a row: it hides the disjoint longest matches that leave none outside. */
  ghost predicate PassRow(p: Pattern, cells: seq<Cell>, row: seq<Cell>) {
    exists spans :: Fits(p, Render(cells), 0, spans) && Hides(p, 0, spans, cells, row)
  }

  ghost predicate RowAfter(passes: seq<Pattern>, cells: seq<Cell>, row: seq<Cell>)
    decreases |passes|
  {
    if passes == [] then row == cells
    else exists mid :: PassRow(passes[0], cells, mid) && RowAfter(passes[1..], mid, row)
  }

  function Plain(s: string): seq<Cell> {
    if s == "" then [] else [Raw(s[0])] + Plain(s[1..])
  }

  /** `row` shows `s` with its secrets hidden, one pattern after the other. Nothing here speaks of
      scanning or of output strings. */
  ghost predicate IsRowOf(s: string, row: seq<Cell>) {
    RowAfter(VALUE_PATTERNS, Plain(s), row)
  }

  // ----- rows exist and render to the output ------------------------------------------------

  lemma CutRenders(t: string, i: nat, a: nat, b: nat, cells: seq<Cell>, gap: seq<Cell>, front: seq<Cell>,
      back: seq<Cell>)
    requires i <= a <= b <= |t| && Render(cells) == t[i..]
    requires CutAround(cells, a - i, b - i, gap, front, back)
    ensures Render(gap) == t[i..a] && Render(front) == t[a..b] && Render(back) == t[b..]
  {
    PartsRender(cells, gap, front, back);
    PartsOf(t, i, a, b, Render(gap), Render(front), Render(back));
  }

  lemma PartsRender(cells: seq<Cell>, gap: seq<Cell>, front: seq<Cell>, back: seq<Cell>)
    requires cells == gap + (front + back)
    ensures Render(cells) == Render(gap) + (Render(front) + Render(back))
  {
    ConcatRender(front, back);
    ConcatRender(gap, front + back);
  }

  lemma PartsOf(t: string, i: nat, a: nat, b: nat, x: string, y: string, z: string)
    requires i <= a <= b <= |t| && t[i..] == x + (y + z) && |x| == a - i && |y| == b - a
    ensures x == t[i..a] && y == t[a..b] && z == t[b..]
  {
    ThreeParts(t[i..], x, y, z);
    Slices(t, i, a, b);
  }

  lemma CutSources(cells: seq<Cell>, gap: seq<Cell>, front: seq<Cell>, back: seq<Cell>)
    requires cells == gap + (front + back)
    ensures Source(cells) == Source(gap) + (Source(front) + Source(back))
    ensures Honest(cells) ==> Honest(gap) && Honest(front) && Honest(back)
  {
    Concat(front, back);
    Concat(gap, front + back);
  }

  lemma Slices(t: string, i: nat, a: nat, b: nat)
    requires i <= a <= b <= |t|
    ensures t[i..][..a - i] == t[i..a] && t[i..][a - i..b - i] == t[a..b] && t[i..][b - i..] == t[b..]
  {
  }

  lemma ThreeParts(t: string, x: string, y: string, z: string)
    requires t == x + (y + z)
    ensures x == t[..|x|] && y == t[|x|..|x| + |y|] && z == t[|x| + |y|..]
  {
  }

  lemma WithMarkRenders(p: Pattern, gap: seq<Cell>, front: seq<Cell>, rest: seq<Cell>)
    ensures var row := WithMark(p, gap, front, rest);
      Render(row) == Render(gap) + REDACTED + Render(rest) &&
      Source(row) == Source(gap) + (Source(front) + Source(rest)) &&
      (Honest(gap) && Honest([Mark(p, front)]) && Honest(rest) ==> Honest(row))
  {
    var mark := [Mark(p, front)];
    MarkAlone(p, front);
    Concat(mark, rest);
    Concat(gap, mark + rest);
    Assoc(Render(gap), REDACTED, Render(rest));
  }

  /** Hiding spans in a row is splicing them out of its text. */
  lemma {:induction false} HidingSplices(p: Pattern, t: string, i: nat, spans: seq<Span>, cells: seq<Cell>,
      row: seq<Cell>)
    requires InOrder(t, i, spans) && Genuine(p, t, spans) && Render(cells) == t[i..]
    requires Hides(p, i, spans, cells, row)
    ensures Render(row) == Splice(t, i, spans) && Source(row) == Source(cells)
    ensures Honest(cells) ==> Honest(row)
    decreases |spans|
  {
    if spans != [] {
      var start, end := spans[0].start, spans[0].end;
      var gap, front, back, rest :| CutAround(cells, start - i, end - i, gap, front, back) &&
        row == WithMark(p, gap, front, rest) && Hides(p, end, spans[1..], back, rest);
      CutRenders(t, i, start, end, cells, gap, front, back);
      CutSources(cells, gap, front, back);
      HidingSplices(p, t, end, spans[1..], back, rest);
      HideOne(p, t, start, end, gap, front, rest);
    }
  }

  lemma HideOne(p: Pattern, t: string, start: nat, end: nat, gap: seq<Cell>, front: seq<Cell>, rest: seq<Cell>)
    requires start <= end <= |t| && Occurs(p, t, start, end) && Render(front) == t[start..end]
    ensures var row := WithMark(p, gap, front, rest);
      Render(row) == Render(gap) + REDACTED + Render(rest) &&
      Source(row) == Source(gap) + (Source(front) + Source(rest)) &&
      (Honest(gap) && Honest(front) && Honest(rest) ==> Honest(row))
  {
    WholeSecret(p, t, start, end);
    WithMarkRenders(p, gap, front, rest);
    HonestMark(p, front);
  }

  lemma HonestMark(p: Pattern, hidden: seq<Cell>)
    ensures Honest([Mark(p, hidden)]) <==> Occurs(p, Render(hidden), 0, |Render(hidden)|) && Honest(hidden)
  {
    assert [Mark(p, hidden)][1..] == [];
  }

  /** A secret cut out of its text is a secret. */
  lemma WholeSecret(p: Pattern, t: string, a: nat, b: nat)
    requires a <= b <= |t| && Occurs(p, t, a, b)
    ensures Occurs(p, t[a..b], 0, |t[a..b]|)
  {
    assert t[a..b] == t[a..b][0..b - a];
    Transfer(Expression(p), t, a, b, t[a..b], 0);
  }

  lemma {:induction false} SpansCanBeHidden(p: Pattern, t: string, i: nat, spans: seq<Span>, cells: seq<Cell>)
      returns (row: seq<Cell>)
    requires InOrder(t, i, spans) && Genuine(p, t, spans) && Honest(cells) && Render(cells) == t[i..]
    ensures Hides(p, i, spans, cells, row)
    decreases |spans|
  {
    if spans == [] {
      row := cells;
    } else {
      var start, end := spans[0].start, spans[0].end;
      Suffix(p, t, i, start, end);
      var gap, front, back := CutSpan(p, t[i..], cells, start - i, end - i);
      assert t[i..][end - i..] == t[end..];
      var rest := SpansCanBeHidden(p, t, end, spans[1..], back);
      CutLengths(cells, gap, front, back, start - i, end - i);
      row := WithMark(p, gap, front, rest);
    }
  }

  lemma CutLengths(cells: seq<Cell>, gap: seq<Cell>, front: seq<Cell>, back: seq<Cell>, a: nat, b: nat)
    requires a <= b <= |Render(cells)| && cells == gap + (front + back)
    requires |Render(gap)| == a && |Render(back)| == |Render(cells)| - b
    ensures CutAround(cells, a, b, gap, front, back)
  {
    Concat(front, back);
    Concat(gap, front + back);
  }

  lemma {:induction false} RowExists(passes: seq<Pattern>, cells: seq<Cell>) returns (row: seq<Cell>)
    requires Honest(cells)
    ensures RowAfter(passes, cells, row)
    decreases |passes|
  {
    if passes == [] {
      row := cells;
    } else {
      var p, t := passes[0], Render(cells);
      SpansFit(p, t, 0);
      assert t[0..] == t;
      var mid := SpansCanBeHidden(p, t, 0, Spans(p, t, 0), cells);
      HidingSplices(p, t, 0, Spans(p, t, 0), cells, mid);
      assert PassRow(p, cells, mid);
      row := RowExists(passes[1..], mid);
    }
  }

  lemma PassRowRenders(p: Pattern, cells: seq<Cell>, row: seq<Cell>)
    requires PassRow(p, cells, row)
    ensures Render(row) == Sub(p, Render(cells)) && Source(row) == Source(cells)
    ensures Honest(cells) ==> Honest(row)
  {
    var t := Render(cells);
    var spans :| Fits(p, t, 0, spans) && Hides(p, 0, spans, cells, row);
    SpansAreUnique(p, t, 0, spans);
    assert t[0..] == t;
    HidingSplices(p, t, 0, spans, cells, row);
  }

  lemma {:induction false} RowRenders(passes: seq<Pattern>, cells: seq<Cell>, row: seq<Cell>)
    requires RowAfter(passes, cells, row)
    ensures Render(row) == Apply(passes, Render(cells)) && Source(row) == Source(cells)
    ensures Honest(cells) ==> Honest(row)
    decreases |passes|
  {
    if passes != [] {
      var mid :| PassRow(passes[0], cells, mid) && RowAfter(passes[1..], mid, row);
      PassRowRenders(passes[0], cells, mid);
      RowRenders(passes[1..], mid, row);
    }
  }

  lemma {:induction false} PlainIsItself(s: string)
    ensures Honest(Plain(s)) && Source(Plain(s)) == s && Render(Plain(s)) == s
    decreases |s|
  {
    if s != "" {
      PlainIsItself(s[1..]);
      assert Plain(s)[1..] == Plain(s[1..]);
    }
  }

  /** Only secrets change: every text has a row, and every row of a text is the original with
      disjoint stretches replaced by the marker, in order, each of them a secret once the secrets
      within it are hidden. It renders to the scrubbed text. */
  lemma OnlySecretsChange(s: string)
    ensures exists row :: IsRowOf(s, row)
    ensures forall row :: IsRowOf(s, row) ==> Honest(row) && Source(row) == s && Render(row) == ScrubText(s)
  {
    var row := HasRow(VALUE_PATTERNS, s);
    assert IsRowOf(s, row);
    forall row | IsRowOf(s, row) ensures Honest(row) && Source(row) == s && Render(row) == ScrubText(s) {
      RowShows(VALUE_PATTERNS, s, row);
    }
  }

  lemma HasRow(passes: seq<Pattern>, s: string) returns (row: seq<Cell>)
    ensures RowAfter(passes, Plain(s), row)
  {
    PlainIsItself(s);
    row := RowExists(passes, Plain(s));
  }

  lemma RowShows(passes: seq<Pattern>, s: string, row: seq<Cell>)
    requires RowAfter(passes, Plain(s), row)
    ensures Honest(row) && Source(row) == s && Render(row) == Apply(passes, s)
  {
    PlainIsItself(s);
    RowRenders(passes, Plain(s), row);
  }

  // ----- a text has one row -----------------------------------------------------------------

  lemma {:induction false} SameWidth(a: seq<Cell>, rest: seq<Cell>, a': seq<Cell>, rest': seq<Cell>)
    requires a + rest == a' + rest' && |Render(a)| == |Render(a')|
    ensures a == a' && rest == rest'
    decreases |a|
  {
    if a != [] && a' != [] {
      assert (a + rest)[0] == a[0] && (a' + rest')[0] == a'[0];
      assert (a + rest)[1..] == a[1..] + rest && (a' + rest')[1..] == a'[1..] + rest';
      SameWidth(a[1..], rest, a'[1..], rest');
    } else {
      assert [] + rest == rest && [] + rest' == rest';
    }
  }

  lemma {:induction false} HidesIsUnique(p: Pattern, i: nat, spans: seq<Span>, cells: seq<Cell>, row: seq<Cell>,
      row': seq<Cell>)
    requires Hides(p, i, spans, cells, row) && Hides(p, i, spans, cells, row')
    ensures row == row'
    decreases |spans|
  {
    if spans != [] {
      var start, end := spans[0].start, spans[0].end;
      var gap, front, back, rest :| CutAround(cells, start - i, end - i, gap, front, back) &&
        row == WithMark(p, gap, front, rest) && Hides(p, end, spans[1..], back, rest);
      var gap', front', back', rest' :| CutAround(cells, start - i, end - i, gap', front', back') &&
        row' == WithMark(p, gap', front', rest') && Hides(p, end, spans[1..], back', rest');
      SameWidth(gap, front + back, gap', front' + back');
      SameWidth(front, back, front', back');
      HidesIsUnique(p, end, spans[1..], back, rest, rest');
    }
  }

  lemma PassRowIsUnique(p: Pattern, cells: seq<Cell>, row: seq<Cell>, row': seq<Cell>)
    requires PassRow(p, cells, row) && PassRow(p, cells, row')
    ensures row == row'
  {
    var t := Render(cells);
    var spans :| Fits(p, t, 0, spans) && Hides(p, 0, spans, cells, row);
    var spans' :| Fits(p, t, 0, spans') && Hides(p, 0, spans', cells, row');
    SpansAreUnique(p, t, 0, spans);
    SpansAreUnique(p, t, 0, spans');
    HidesIsUnique(p, 0, spans, cells, row, row');
  }

  lemma {:induction false} RowAfterIsUnique(passes: seq<Pattern>, cells: seq<Cell>, row: seq<Cell>, row': seq<Cell>)
    requires RowAfter(passes, cells, row) && RowAfter(passes, cells, row')
    ensures row == row'
    decreases |passes|
  {
    if passes != [] {
      var mid :| PassRow(passes[0], cells, mid) && RowAfter(passes[1..], mid, row);
      var mid' :| PassRow(passes[0], cells, mid') && RowAfter(passes[1..], mid', row');
      PassRowIsUnique(passes[0], cells, mid, mid');
      RowAfterIsUnique(passes[1..], mid, row, row');
    }
  }

  /** Which stretches are hidden, and within which, is determined by the text. */
  lemma RowIsUnique(s: string, row: seq<Cell>, row': seq<Cell>)
    requires IsRowOf(s, row) && IsRowOf(s, row')
    ensures row == row'
  {
    RowAfterIsUnique(VALUE_PATTERNS, Plain(s), row, row');
  }

  // ----- which texts look alike -------------------------------------------------------------

  /** The row begins with these characters, none of them a marker. */
  predicate Spells(row: seq<Cell>, text: string) {
    |text| <= |row| && forall k :: 0 <= k < |text| ==> row[k] == Raw(text[k])
  }

  /** A marker stands in front, put there by redaction or written in the original. */
  predicate MarkerInFront(row: seq<Cell>) {
    row != [] && (row[0].Mark? || Spells(row, REDACTED))
  }

  function BehindMarker(row: seq<Cell>): seq<Cell>
    requires MarkerInFront(row)
  {
    if row[0].Mark? then row[1..] else row[|REDACTED|..]
  }

  /** Kept characters stand against the same kept characters, markers against markers, whatever
      they hide. */
  predicate LooksLike(a: seq<Cell>, b: seq<Cell>)
    decreases |a|
  {
    (a == [] && b == []) ||
    (a != [] && b != [] && a[0].Raw? && a[0] == b[0] && LooksLike(a[1..], b[1..])) ||
    (MarkerInFront(a) && MarkerInFront(b) && LooksLike(BehindMarker(a), BehindMarker(b)))
  }

  lemma {:induction false} SpelledRenders(row: seq<Cell>, text: string)
    requires Spells(row, text)
    ensures Render(row) == text + Render(row[|text|..])
    decreases |text|
  {
    if text != "" {
      assert row[0] == Raw(text[0]);
      SpelledRenders(row[1..], text[1..]);
      assert row[1..][|text| - 1..] == row[|text|..];
      Assoc([text[0]], text[1..], Render(row[|text|..]));
      assert [text[0]] + text[1..] == text;
    }
  }

  lemma {:induction false} RawsSpell(row: seq<Cell>, text: string)
    requires text <= Render(row) && '[' !in text
    ensures Spells(row, text)
    decreases |text|
  {
    if text != "" {
      assert Render(row)[0] == text[0];
      assert text[0] in text && REDACTED[0] == '[';
      assert Render(row)[1..] == Render(row[1..]);
      RawsSpell(row[1..], text[1..]);
    }
  }

  lemma MarkerInFrontRenders(row: seq<Cell>)
    requires MarkerInFront(row)
    ensures Render(row) == REDACTED + Render(BehindMarker(row))
  {
    if row[0].Raw? {
      SpelledRenders(row, REDACTED);
    }
  }

  lemma RenderedMarkerInFront(row: seq<Cell>)
    requires REDACTED <= Render(row)
    ensures MarkerInFront(row)
  {
    var tail := REDACTED[1..];
    assert row != [];
    if row[0].Raw? {
      assert Render(row)[0] == REDACTED[0];
      assert Render(row)[1..] == Render(row[1..]);
      assert tail == Render(row)[1..][..|tail|];
      TailHoldsNoBracket();
      RawsSpell(row[1..], tail);
      forall k | 0 <= k < |REDACTED| ensures row[k] == Raw(REDACTED[k]) {
        if k > 0 { assert row[1..][k - 1] == Raw(tail[k - 1]); }
      }
    }
  }

  lemma TailHoldsNoBracket()
    ensures '[' !in REDACTED[1..]
  {
    assert REDACTED[1..] == "REDACTED]";
  }

  lemma {:induction false} LooksLikeIff(a: seq<Cell>, b: seq<Cell>)
    ensures LooksLike(a, b) <==> Render(a) == Render(b)
    decreases |a|
  {
    if LooksLike(a, b) {
      LooksLikeRenders(a, b);
    }
    if Render(a) == Render(b) {
      EqualRenderingLooksLike(a, b);
    }
  }

  lemma {:induction false} LooksLikeRenders(a: seq<Cell>, b: seq<Cell>)
    requires LooksLike(a, b)
    ensures Render(a) == Render(b)
    decreases |a|
  {
    if a != [] {
      if b != [] && a[0].Raw? && a[0] == b[0] && LooksLike(a[1..], b[1..]) {
        LooksLikeRenders(a[1..], b[1..]);
      } else {
        MarkerInFrontRenders(a);
        MarkerInFrontRenders(b);
        LooksLikeRenders(BehindMarker(a), BehindMarker(b));
      }
    }
  }

  lemma {:induction false} EqualRenderingLooksLike(a: seq<Cell>, b: seq<Cell>)
    requires Render(a) == Render(b)
    ensures LooksLike(a, b)
    decreases |a|
  {
    if a != [] {
      assert b != [];
      if a[0].Raw? && b[0].Raw? {
        assert Render(a)[0] == a[0].c && Render(b)[0] == b[0].c;
        assert Render(a)[1..] == Render(a[1..]) && Render(b)[1..] == Render(b[1..]);
        EqualRenderingLooksLike(a[1..], b[1..]);
      } else {
        assert REDACTED <= Render(a);
        RenderedMarkerInFront(a);
        RenderedMarkerInFront(b);
        MarkerInFrontRenders(a);
        MarkerInFrontRenders(b);
        assert Render(BehindMarker(a)) == Render(a)[|REDACTED|..];
        assert Render(BehindMarker(b)) == Render(b)[|REDACTED|..];
        EqualRenderingLooksLike(BehindMarker(a), BehindMarker(b));
      }
    }
  }

  /** The texts keep the same characters and hide secrets, of whatever content, in the same places
      between them. */
  ghost predicate ReadAlike(s: string, s': string) {
    exists row, row' :: IsRowOf(s, row) && IsRowOf(s', row') && LooksLike(row, row')
  }

  /** What a scrubbed text reveals of the original. */
  lemma SameScrubIff(s: string, s': string)
    ensures ScrubText(s) == ScrubText(s') <==> ReadAlike(s, s')
  {
    OnlySecretsChange(s);
    OnlySecretsChange(s');
    if row, row' :| IsRowOf(s, row) && IsRowOf(s', row') && LooksLike(row, row') {
      LooksLikeIff(row, row');
    }
    if ScrubText(s) == ScrubText(s') {
      var row :| IsRowOf(s, row);
      var row' :| IsRowOf(s', row');
      LooksLikeIff(row, row');
    }
  }
}
