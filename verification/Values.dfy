/** Log values and the recursive scrubber. */
module Values {
  import opened SensitiveKeys
  import opened Redactor
  import opened NoResidue
  import opened OnlySecrets

  // ----- values ---------------------------------------------------------------------------

  /** `text` is `str(key)`; keys of another type than `str` may share it. */
  datatype Key = StrKey(text: string) | OtherKey(id: int, text: string)

  datatype Item = Item(key: Key, value: Value)

  /** A set is given by its iteration order. A leaf is any value the scrubber passes through
      without looking into it; `text` is what a renderer shows of it. */
  datatype Value =
    | Str(text: string)
    | Dict(items: seq<Item>)
    | List(elems: seq<Value>)
    | Tuple(elems: seq<Value>)
    | Set(elems: seq<Value>)
    | Leaf(id: int, text: string)

  const MAX_SCRUB_DEPTH: nat := 6
  const TRUNCATED := "[TRUNCATED:depth]"

  function ScrubValue(v: Value, depth: nat): Value
    decreases MAX_SCRUB_DEPTH - depth
  {
    if depth >= MAX_SCRUB_DEPTH then Str(TRUNCATED)
    else match v
      case Str(s) => Str(ScrubText(s))
      case Dict(items) =>
        Dict(seq(|items|, i requires 0 <= i < |items| =>
          Item(items[i].key,
               if IsSensitiveKey(items[i].key.text) then Str(REDACTED)
               else ScrubValue(items[i].value, depth + 1))))
      case List(vs) => List(seq(|vs|, i requires 0 <= i < |vs| => ScrubValue(vs[i], depth + 1)))
      case Tuple(vs) => Tuple(seq(|vs|, i requires 0 <= i < |vs| => ScrubValue(vs[i], depth + 1)))
      case Set(vs) => List(seq(|vs|, i requires 0 <= i < |vs| => ScrubValue(vs[i], depth + 1)))
      case Leaf(_, _) => v
  }

  // ----- what the output looks like -------------------------------------------------------

  /** Nothing left to redact in a value that stands `depth` containers below its event field. */
  ghost predicate Settled(v: Value, depth: nat)
    decreases MAX_SCRUB_DEPTH - depth
  {
    if depth >= MAX_SCRUB_DEPTH then v == Str(TRUNCATED)
    else match v
      case Str(s) => Clean(s)
      case Dict(items) =>
        forall i :: 0 <= i < |items| ==>
          if IsSensitiveKey(items[i].key.text) then items[i].value == Str(REDACTED)
          else Settled(items[i].value, depth + 1)
      case List(vs) => forall i :: 0 <= i < |vs| ==> Settled(vs[i], depth + 1)
      case Tuple(vs) => forall i :: 0 <= i < |vs| ==> Settled(vs[i], depth + 1)
      case Set(_) => false
      case Leaf(_, _) => true
  }

  lemma {:induction false} ScrubbedIsSettled(v: Value, depth: nat)
    ensures Settled(ScrubValue(v, depth), depth)
    decreases MAX_SCRUB_DEPTH - depth
  {
    if depth < MAX_SCRUB_DEPTH {
      match v
      case Str(s) => ScrubLeavesNoResidue(s);
      case Dict(items) =>
        forall i | 0 <= i < |items| ensures Settled(ScrubValue(items[i].value, depth + 1), depth + 1) {
          ScrubbedIsSettled(items[i].value, depth + 1);
        }
      case Leaf(_, _) =>
      case _ =>
        forall i | 0 <= i < |v.elems| ensures Settled(ScrubValue(v.elems[i], depth + 1), depth + 1) {
          ScrubbedIsSettled(v.elems[i], depth + 1);
        }
    }
  }

  /** A value comes through unchanged exactly when there is nothing to redact in it. */
  lemma {:induction false} UnchangedIffSettled(v: Value, depth: nat)
    ensures ScrubValue(v, depth) == v <==> Settled(v, depth)
    decreases MAX_SCRUB_DEPTH - depth
  {
    if Settled(v, depth) {
      SettledIsUnchanged(v, depth);
    } else {
      ScrubbedIsSettled(v, depth);
    }
  }

  lemma {:induction false} SettledIsUnchanged(v: Value, depth: nat)
    requires Settled(v, depth)
    ensures ScrubValue(v, depth) == v
    decreases MAX_SCRUB_DEPTH - depth
  {
    if depth < MAX_SCRUB_DEPTH {
      match v
      case Str(s) => UnchangedIffNoResidue(s);
      case Dict(items) =>
        forall i | 0 <= i < |items| && !IsSensitiveKey(items[i].key.text)
          ensures ScrubValue(items[i].value, depth + 1) == items[i].value
        {
          SettledIsUnchanged(items[i].value, depth + 1);
        }
        assert ScrubValue(v, depth).items == items;
      case Leaf(_, _) =>
      case Set(_) =>
      case _ =>
        forall i | 0 <= i < |v.elems| ensures ScrubValue(v.elems[i], depth + 1) == v.elems[i] {
          SettledIsUnchanged(v.elems[i], depth + 1);
        }
        assert ScrubValue(v, depth).elems == v.elems;
    }
  }

  lemma ScrubValueIdempotent(v: Value, depth: nat)
    ensures ScrubValue(ScrubValue(v, depth), depth) == ScrubValue(v, depth)
  {
    ScrubbedIsSettled(v, depth);
    SettledIsUnchanged(ScrubValue(v, depth), depth);
  }

  /** No string value inside `v`, at any depth and under any key, holds a secret; every sensitive
      key holds the marker; there are no sets; and at most `levels` containers are nested. */
  ghost predicate Emittable(v: Value, levels: nat)
    decreases levels
  {
    match v
    case Str(s) => Clean(s)
    case Dict(items) =>
      levels > 0 && forall i :: 0 <= i < |items| ==>
        Emittable(items[i].value, levels - 1) &&
        (IsSensitiveKey(items[i].key.text) ==> items[i].value == Str(REDACTED))
    case List(vs) => levels > 0 && forall i :: 0 <= i < |vs| ==> Emittable(vs[i], levels - 1)
    case Tuple(vs) => levels > 0 && forall i :: 0 <= i < |vs| ==> Emittable(vs[i], levels - 1)
    case Set(_) => false
    case Leaf(_, _) => true
  }

  /** The two texts the scrubber itself writes are no secrets. */
  lemma MarkersHoldNoSecret()
    ensures Clean(REDACTED) && Clean(TRUNCATED)
  {
    forall k | 0 <= k < |REDACTED| ensures !StartsSecret(REDACTED[k]) { MarkerHoldsNoStart(k); }
    NoStartNoSecret(REDACTED);
    TruncationStarts();
    NoStartNoSecret(TRUNCATED);
  }

  lemma TruncationStarts()
    ensures forall k :: 0 <= k < |TRUNCATED| && StartsSecret(TRUNCATED[k]) ==> k == 12 || k == 13
    ensures TRUNCATED[12] == 'e' && TRUNCATED[13] == 'p' && TRUNCATED[14] == 't'
  {
  }

  /** A text in which no `ey` and no `po` stands, nor any other letter that begins a secret. */
  lemma NoStartNoSecret(s: string)
    requires forall k {:trigger s[k]} :: 0 <= k < |s| && StartsSecret(s[k]) ==>
      (s[k] == 'e' && (k + 1 < |s| ==> s[k + 1] != 'y')) || (s[k] == 'p' && (k + 1 < |s| ==> s[k + 1] != 'o'))
    ensures Clean(s)
  {
    forall p: Pattern, i: nat, j: nat ensures !Occurs(p, s, i, j) {
      if Occurs(p, s, i, j) { StartOfMatch(p, s, i, j); }
    }
  }

  lemma {:induction false} SettledIsEmittable(v: Value, depth: nat)
    requires depth <= MAX_SCRUB_DEPTH && Settled(v, depth)
    ensures Emittable(v, MAX_SCRUB_DEPTH - depth)
    decreases MAX_SCRUB_DEPTH - depth
  {
    MarkersHoldNoSecret();
    if depth < MAX_SCRUB_DEPTH {
      match v
      case Dict(items) =>
        forall i | 0 <= i < |items| ensures Emittable(items[i].value, MAX_SCRUB_DEPTH - depth - 1) {
          if !IsSensitiveKey(items[i].key.text) { SettledIsEmittable(items[i].value, depth + 1); }
        }
      case Str(_) =>
      case Leaf(_, _) =>
      case Set(_) =>
      case _ =>
        forall i | 0 <= i < |v.elems| ensures Emittable(v.elems[i], MAX_SCRUB_DEPTH - depth - 1) {
          SettledIsEmittable(v.elems[i], depth + 1);
        }
    }
  }

  lemma ScrubbedIsEmittable(v: Value, depth: nat)
    requires depth <= MAX_SCRUB_DEPTH
    ensures Emittable(ScrubValue(v, depth), MAX_SCRUB_DEPTH - depth)
  {
    ScrubbedIsSettled(v, depth);
    SettledIsEmittable(ScrubValue(v, depth), depth);
  }

  // ----- everything that is shown -----------------------------------------------------------

  /** No text that a renderer shows of `v` holds a secret: strings, keys and leaves. */
  ghost predicate ShownClean(v: Value) {
    match v
    case Str(s) => Clean(s)
    case Dict(items) =>
      forall i :: 0 <= i < |items| ==> Clean(items[i].key.text) && ShownClean(items[i].value)
    case Leaf(_, text) => Clean(text)
    case _ => forall i :: 0 <= i < |v.elems| ==> ShownClean(v.elems[i])
  }

  /** What the scrubber passes on without looking holds no secret: the keys above the depth cap and
      outside sensitive keys, and the leaves there. */
  ghost predicate PassedOnClean(v: Value, depth: nat)
    decreases MAX_SCRUB_DEPTH - depth
  {
    depth >= MAX_SCRUB_DEPTH ||
    match v
    case Str(_) => true
    case Dict(items) =>
      forall i :: 0 <= i < |items| ==>
        Clean(items[i].key.text) &&
        (IsSensitiveKey(items[i].key.text) || PassedOnClean(items[i].value, depth + 1))
    case Leaf(_, text) => Clean(text)
    case _ => forall i :: 0 <= i < |v.elems| ==> PassedOnClean(v.elems[i], depth + 1)
  }

  /** The scrubbed value shows no secret exactly when what is passed on without a look holds none. */
  lemma {:induction false} ShownCleanIff(v: Value, depth: nat)
    ensures ShownClean(ScrubValue(v, depth)) <==> PassedOnClean(v, depth)
    decreases MAX_SCRUB_DEPTH - depth, 1
  {
    MarkersHoldNoSecret();
    if depth < MAX_SCRUB_DEPTH {
      match v
      case Str(s) => ScrubLeavesNoResidue(s);
      case Dict(items) => DictShownCleanIff(v, depth);
      case Leaf(_, _) =>
      case _ => ElementsShownCleanIff(v, depth);
    }
  }

  lemma {:induction false} DictShownCleanIff(v: Value, depth: nat)
    requires v.Dict? && depth < MAX_SCRUB_DEPTH && Clean(REDACTED)
    ensures ShownClean(ScrubValue(v, depth)) <==> PassedOnClean(v, depth)
    decreases MAX_SCRUB_DEPTH - depth, 0
  {
    var items, out := v.items, ScrubValue(v, depth).items;
    forall i | 0 <= i < |items|
      ensures ShownClean(out[i].value) <==>
              (IsSensitiveKey(items[i].key.text) || PassedOnClean(items[i].value, depth + 1))
    {
      if IsSensitiveKey(items[i].key.text) {
        assert ShownClean(Str(REDACTED));
      } else {
        ShownCleanIff(items[i].value, depth + 1);
      }
    }
  }

  lemma {:induction false} ElementsShownCleanIff(v: Value, depth: nat)
    requires (v.List? || v.Tuple? || v.Set?) && depth < MAX_SCRUB_DEPTH
    ensures ShownClean(ScrubValue(v, depth)) <==> PassedOnClean(v, depth)
    decreases MAX_SCRUB_DEPTH - depth, 0
  {
    var out := ScrubValue(v, depth).elems;
    forall i | 0 <= i < |v.elems| ensures ShownClean(out[i]) <==> PassedOnClean(v.elems[i], depth + 1) {
      ShownCleanIff(v.elems[i], depth + 1);
    }
  }

  // ----- what the output reveals ----------------------------------------------------------

  /** The values agree everywhere except under sensitive keys, beyond the depth cap, in the content
      of secrets in their texts, and in whether a sequence was a set or a list. */
  ghost predicate Alike(v: Value, w: Value, depth: nat)
    decreases MAX_SCRUB_DEPTH - depth
  {
    depth >= MAX_SCRUB_DEPTH ||
    match v
    case Str(s) => w.Str? && ReadAlike(s, w.text)
    case Dict(items) =>
      w.Dict? && |items| == |w.items| && forall i :: 0 <= i < |items| ==>
        items[i].key == w.items[i].key &&
        (IsSensitiveKey(items[i].key.text) || Alike(items[i].value, w.items[i].value, depth + 1))
    case Leaf(_, _) => v == w
    case _ =>
      (if v.Tuple? then w.Tuple? else w.List? || w.Set?) && |v.elems| == |w.elems| &&
      forall i :: 0 <= i < |v.elems| ==> Alike(v.elems[i], w.elems[i], depth + 1)
  }

  /** The output tells two values apart exactly when they differ outside what is redacted. */
  lemma {:induction false} EqualOutputIffAlike(v: Value, w: Value, depth: nat)
    ensures ScrubValue(v, depth) == ScrubValue(w, depth) <==> Alike(v, w, depth)
    decreases MAX_SCRUB_DEPTH - depth
  {
    if Alike(v, w, depth) {
      AlikeGivesEqualOutput(v, w, depth);
    }
    if ScrubValue(v, depth) == ScrubValue(w, depth) {
      EqualOutputGivesAlike(v, w, depth);
    }
  }

  lemma {:induction false} AlikeGivesEqualOutput(v: Value, w: Value, depth: nat)
    requires Alike(v, w, depth)
    ensures ScrubValue(v, depth) == ScrubValue(w, depth)
    decreases MAX_SCRUB_DEPTH - depth
  {
    if depth < MAX_SCRUB_DEPTH {
      match v
      case Str(s) => SameScrubIff(s, w.text);
      case Leaf(_, _) =>
      case Dict(items) =>
        forall i | 0 <= i < |items| && !IsSensitiveKey(items[i].key.text)
          ensures ScrubValue(items[i].value, depth + 1) == ScrubValue(w.items[i].value, depth + 1)
        {
          AlikeGivesEqualOutput(items[i].value, w.items[i].value, depth + 1);
        }
        assert ScrubValue(v, depth).items == ScrubValue(w, depth).items;
      case _ =>
        forall i | 0 <= i < |v.elems|
          ensures ScrubValue(v.elems[i], depth + 1) == ScrubValue(w.elems[i], depth + 1)
        {
          AlikeGivesEqualOutput(v.elems[i], w.elems[i], depth + 1);
        }
        assert ScrubValue(v, depth).elems == ScrubValue(w, depth).elems;
    }
  }

  lemma {:induction false} EqualOutputGivesAlike(v: Value, w: Value, depth: nat)
    requires ScrubValue(v, depth) == ScrubValue(w, depth)
    ensures Alike(v, w, depth)
    decreases MAX_SCRUB_DEPTH - depth
  {
    if depth < MAX_SCRUB_DEPTH {
      var x, y := ScrubValue(v, depth), ScrubValue(w, depth);
      match v
      case Str(s) => SameScrubIff(s, w.text);
      case Leaf(_, _) =>
      case Dict(items) =>
        assert |x.items| == |y.items|;
        forall i | 0 <= i < |items|
          ensures items[i].key == w.items[i].key
          ensures IsSensitiveKey(items[i].key.text) || Alike(items[i].value, w.items[i].value, depth + 1)
        {
          assert x.items[i] == y.items[i];
          if !IsSensitiveKey(items[i].key.text) {
            EqualOutputGivesAlike(items[i].value, w.items[i].value, depth + 1);
          }
        }
      case _ =>
        assert |x.elems| == |y.elems|;
        forall i | 0 <= i < |v.elems| ensures Alike(v.elems[i], w.elems[i], depth + 1) {
          assert x.elems[i] == y.elems[i];
          EqualOutputGivesAlike(v.elems[i], w.elems[i], depth + 1);
        }
    }
  }
}
