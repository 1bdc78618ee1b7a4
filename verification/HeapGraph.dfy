/** Payloads as Python holds them: objects that refer to each other, possibly in a cycle. */
module HeapGraph {
  import opened Redactor
  import opened SensitiveKeys
  import opened Values

  type Ref = nat

  datatype Slot = Slot(key: Key, ref: Ref)

  datatype Node =
    | StrNode(text: string)
    | DictNode(slots: seq<Slot>)
    | ListNode(refs: seq<Ref>)
    | TupleNode(refs: seq<Ref>)
    | SetNode(refs: seq<Ref>)
    | LeafNode(id: int, text: string)

  type Heap = map<Ref, Node>

  predicate NodeClosed(h: Heap, node: Node) {
    match node
    case DictNode(slots) => forall i :: 0 <= i < |slots| ==> slots[i].ref in h
    case ListNode(refs) => forall i :: 0 <= i < |refs| ==> refs[i] in h
    case TupleNode(refs) => forall i :: 0 <= i < |refs| ==> refs[i] in h
    case SetNode(refs) => forall i :: 0 <= i < |refs| ==> refs[i] in h
    case _ => true
  }

  predicate Closed(h: Heap) {
    forall r :: r in h ==> NodeClosed(h, h[r])
  }

  /** The scrubber on an object graph. It never looks whether it has been somewhere before: the
      depth alone makes it stop. */
  function ScrubRef(h: Heap, r: Ref, depth: nat): Value
    requires Closed(h) && r in h
    decreases MAX_SCRUB_DEPTH - depth
  {
    if depth >= MAX_SCRUB_DEPTH then Str(TRUNCATED)
    else
      assert NodeClosed(h, h[r]);
      match h[r]
      case StrNode(s) => Str(ScrubText(s))
      case DictNode(slots) =>
        Dict(seq(|slots|, i requires 0 <= i < |slots| =>
          Item(slots[i].key,
               if IsSensitiveKey(slots[i].key.text) then Str(REDACTED)
               else ScrubRef(h, slots[i].ref, depth + 1))))
      case ListNode(refs) => List(seq(|refs|, i requires 0 <= i < |refs| => ScrubRef(h, refs[i], depth + 1)))
      case TupleNode(refs) => Tuple(seq(|refs|, i requires 0 <= i < |refs| => ScrubRef(h, refs[i], depth + 1)))
      case SetNode(refs) => List(seq(|refs|, i requires 0 <= i < |refs| => ScrubRef(h, refs[i], depth + 1)))
      case LeafNode(id, text) => Leaf(id, text)
  }

  /** What a reader of the graph sees within `levels` steps; beyond them stands `horizon`. */
  function Unfold(h: Heap, r: Ref, levels: nat, horizon: Value): Value
    requires Closed(h) && r in h
    decreases levels
  {
    if levels == 0 then horizon
    else
      assert NodeClosed(h, h[r]);
      match h[r]
      case StrNode(s) => Str(s)
      case DictNode(slots) =>
        Dict(seq(|slots|, i requires 0 <= i < |slots| =>
          Item(slots[i].key, Unfold(h, slots[i].ref, levels - 1, horizon))))
      case ListNode(refs) => List(seq(|refs|, i requires 0 <= i < |refs| => Unfold(h, refs[i], levels - 1, horizon)))
      case TupleNode(refs) => Tuple(seq(|refs|, i requires 0 <= i < |refs| => Unfold(h, refs[i], levels - 1, horizon)))
      case SetNode(refs) => Set(seq(|refs|, i requires 0 <= i < |refs| => Unfold(h, refs[i], levels - 1, horizon)))
      case LeafNode(id, text) => Leaf(id, text)
  }

  /** Cyclic payloads: whatever the graph, the scrubber's result is that of the plain scrubber on
      any unfolding deep enough to reach the cap, no matter what stands beyond its horizon. */
  lemma {:induction false} GraphScrubIsUnfoldedScrub(h: Heap, r: Ref, depth: nat, levels: nat, horizon: Value)
    requires Closed(h) && r in h && depth + levels >= MAX_SCRUB_DEPTH
    ensures ScrubRef(h, r, depth) == ScrubValue(Unfold(h, r, levels, horizon), depth)
    decreases MAX_SCRUB_DEPTH - depth, 1
  {
    if depth < MAX_SCRUB_DEPTH {
      match h[r]
      case StrNode(_) =>
      case LeafNode(_, _) =>
      case DictNode(_) => DictAgrees(h, r, depth, levels, horizon);
      case _ => ElementsAgree(h, r, depth, levels, horizon);
    }
  }

  lemma {:induction false} DictAgrees(h: Heap, r: Ref, depth: nat, levels: nat, horizon: Value)
    requires Closed(h) && r in h && depth + levels >= MAX_SCRUB_DEPTH
    requires depth < MAX_SCRUB_DEPTH && h[r].DictNode?
    ensures ScrubRef(h, r, depth) == ScrubValue(Unfold(h, r, levels, horizon), depth)
    decreases MAX_SCRUB_DEPTH - depth, 0
  {
    assert NodeClosed(h, h[r]);
    var slots := h[r].slots;
    forall i | 0 <= i < |slots|
      ensures ScrubRef(h, slots[i].ref, depth + 1) ==
              ScrubValue(Unfold(h, slots[i].ref, levels - 1, horizon), depth + 1)
    {
      GraphScrubIsUnfoldedScrub(h, slots[i].ref, depth + 1, levels - 1, horizon);
    }
    assert ScrubRef(h, r, depth).items == ScrubValue(Unfold(h, r, levels, horizon), depth).items;
  }

  lemma {:induction false} ElementsAgree(h: Heap, r: Ref, depth: nat, levels: nat, horizon: Value)
    requires Closed(h) && r in h && depth + levels >= MAX_SCRUB_DEPTH
    requires depth < MAX_SCRUB_DEPTH && (h[r].ListNode? || h[r].TupleNode? || h[r].SetNode?)
    ensures ScrubRef(h, r, depth) == ScrubValue(Unfold(h, r, levels, horizon), depth)
    decreases MAX_SCRUB_DEPTH - depth, 0
  {
    assert NodeClosed(h, h[r]);
    var refs := h[r].refs;
    forall i | 0 <= i < |refs|
      ensures ScrubRef(h, refs[i], depth + 1) ==
              ScrubValue(Unfold(h, refs[i], levels - 1, horizon), depth + 1)
    {
      GraphScrubIsUnfoldedScrub(h, refs[i], depth + 1, levels - 1, horizon);
    }
    assert ScrubRef(h, r, depth).elems == ScrubValue(Unfold(h, r, levels, horizon), depth).elems;
  }

  /** So a cyclic payload is emitted as a finite value, at most six deep, whose strings hold no
      secret. */
  lemma GraphScrubIsEmittable(h: Heap, r: Ref)
    requires Closed(h) && r in h
    ensures Emittable(ScrubRef(h, r, 0), MAX_SCRUB_DEPTH)
  {
    GraphScrubIsUnfoldedScrub(h, r, 0, MAX_SCRUB_DEPTH, Leaf(0, ""));
    ScrubbedIsEmittable(Unfold(h, r, MAX_SCRUB_DEPTH, Leaf(0, "")), 0);
  }

  /** Keys and leaves included, what is shown of a payload holds no secret exactly when what is
      passed on without a look holds none in an unfolding to the cap. */
  lemma GraphShownCleanIff(h: Heap, r: Ref, horizon: Value)
    requires Closed(h) && r in h
    ensures ShownClean(ScrubRef(h, r, 0)) <==> PassedOnClean(Unfold(h, r, MAX_SCRUB_DEPTH, horizon), 0)
  {
    GraphScrubIsUnfoldedScrub(h, r, 0, MAX_SCRUB_DEPTH, horizon);
    ShownCleanIff(Unfold(h, r, MAX_SCRUB_DEPTH, horizon), 0);
  }

  /** A list that contains itself comes out as six lists around the truncation marker. */
  lemma SelfContainingList(h: Heap, r: Ref, depth: nat)
    requires Closed(h) && r in h && h[r] == ListNode([r]) && depth <= MAX_SCRUB_DEPTH
    ensures ScrubRef(h, r, depth) == Nest(MAX_SCRUB_DEPTH - depth)
    decreases MAX_SCRUB_DEPTH - depth
  {
    if depth < MAX_SCRUB_DEPTH {
      SelfContainingList(h, r, depth + 1);
      assert ScrubRef(h, r, depth).elems == [ScrubRef(h, r, depth + 1)];
    }
  }

  function Nest(n: nat): Value {
    if n == 0 then Str(TRUNCATED) else List([Nest(n - 1)])
  }
}
