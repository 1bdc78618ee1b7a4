/** What the scrubber does at every place inside a value. */
module Paths {
  import opened Wrappers
  import opened SensitiveKeys
  import opened Redactor
  import opened Values
  import opened HeapGraph

  // ----- places ---------------------------------------------------------------------------

  function Children(v: Value): seq<Value> {
    match v
    case Dict(items) => seq(|items|, i requires 0 <= i < |items| => items[i].value)
    case List(vs) => vs
    case Tuple(vs) => vs
    case Set(vs) => vs
    case _ => []
  }

  function Keys(v: Value): seq<Key> {
    if v.Dict? then seq(|v.items|, i requires 0 <= i < |v.items| => v.items[i].key) else []
  }

  /** What stands at the end of a path that takes the `path[k]`-th child in its k-th step. */
  function Reach(v: Value, path: seq<nat>): Option<Value>
    decreases |path|
  {
    if path == [] then Some(v)
    else if path[0] >= |Children(v)| then None
    else Reach(Children(v)[path[0]], path[1..])
  }

  /** No key on the path spells a secret word. */
  ghost predicate InTheOpen(v: Value, path: seq<nat>)
    decreases |path|
  {
    path == [] ||
    (path[0] < |Children(v)| && (v.Dict? ==> !NamesSecret(Keys(v)[path[0]].text)) &&
     InTheOpen(Children(v)[path[0]], path[1..]))
  }

  /** The last key on the path spells a secret word, and none before it does. */
  ghost predicate EndsUnderSecret(v: Value, path: seq<nat>)
    decreases |path|
  {
    path != [] && path[0] < |Children(v)| &&
    if |path| == 1 then v.Dict? && NamesSecret(Keys(v)[path[0]].text)
    else (v.Dict? ==> !NamesSecret(Keys(v)[path[0]].text)) && EndsUnderSecret(Children(v)[path[0]], path[1..])
  }

  // ----- what stands there afterwards -------------------------------------------------------

  /** What becomes of a single value, its children apart: texts are scrubbed, containers keep their
      kind, their size and their keys, a set becomes a list, and anything else stays. */
  predicate Becomes(x: Value, y: Value) {
    |Children(y)| == |Children(x)| && Keys(y) == Keys(x) &&
    match x
    case Str(s) => y == Str(ScrubText(s))
    case Dict(_) => y.Dict?
    case List(_) => y.List?
    case Tuple(_) => y.Tuple?
    case Set(_) => y.List?
    case Leaf(_, _) => y == x
  }

  lemma ScrubbedChildren(v: Value, depth: nat)
    requires depth < MAX_SCRUB_DEPTH
    ensures Becomes(v, ScrubValue(v, depth))
    ensures forall i :: 0 <= i < |Children(v)| ==>
      Children(ScrubValue(v, depth))[i] ==
        if v.Dict? && NamesSecret(Keys(v)[i].text) then Str(REDACTED) else ScrubValue(Children(v)[i], depth + 1)
  {
    forall key ensures IsSensitiveKey(key) <==> NamesSecret(key) { SensitiveIff(key); }
  }

  lemma ScrubbedSize(v: Value, depth: nat)
    requires depth < MAX_SCRUB_DEPTH
    ensures |Children(ScrubValue(v, depth))| == |Children(v)| && (v.Dict? ==> |Keys(v)| == |Children(v)|)
  {
  }

  lemma ScrubbedAtCap(v: Value)
    ensures ScrubValue(v, 6) == Str("[TRUNCATED:depth]") && Children(ScrubValue(v, 6)) == []
  {
  }

  /** Every place up to the sixth level that lies in the open: what stands there becomes what it
      should, and at the sixth level stands the truncation marker. */
  lemma {:induction false} ScrubInTheOpen(v: Value, depth: nat, path: seq<nat>)
    requires depth + |path| <= 6 && InTheOpen(v, path)
    ensures Reach(v, path).Some? && Reach(ScrubValue(v, depth), path).Some?
    ensures var x, y := Reach(v, path).value, Reach(ScrubValue(v, depth), path).value;
      if depth + |path| == 6 then y == Str("[TRUNCATED:depth]") else Becomes(x, y)
    decreases |path|
  {
    hide ScrubValue, Children, Keys, Becomes, NamesSecret;
    if path != [] {
      ScrubbedChildren(v, depth);
      ScrubbedSize(v, depth);
      ScrubInTheOpen(Children(v)[path[0]], depth + 1, path[1..]);
    } else if depth < 6 {
      ScrubbedChildren(v, depth);
    } else {
      ScrubbedAtCap(v);
    }
  }

  /** Every place right under a secret word, up to the sixth level, holds the redaction marker. */
  lemma {:induction false} ScrubUnderSecret(v: Value, depth: nat, path: seq<nat>)
    requires depth + |path| <= 6 && EndsUnderSecret(v, path)
    ensures Reach(ScrubValue(v, depth), path) == Some(Str("[REDACTED]"))
    decreases |path|
  {
    hide ScrubValue, Children, Keys, Becomes, NamesSecret;
    ScrubbedChildren(v, depth);
    ScrubbedSize(v, depth);
    if |path| > 1 {
      ScrubUnderSecret(Children(v)[path[0]], depth + 1, path[1..]);
    } else {
      assert path[1..] == [];
    }
  }

  lemma MarkerHasNoChildren()
    ensures Children(Str(REDACTED)) == []
  {
  }

  /** There are no other places in the output. */
  lemma {:induction false} NothingElseIsShown(v: Value, depth: nat, path: seq<nat>)
    requires depth <= 6 && Reach(ScrubValue(v, depth), path).Some?
    ensures depth + |path| <= 6 && (InTheOpen(v, path) || EndsUnderSecret(v, path))
    decreases |path|
  {
    hide ScrubValue, Children, Keys, Becomes, NamesSecret;
    if path != [] {
      if depth == 6 {
        ScrubbedAtCap(v);
      }
      ScrubbedChildren(v, depth);
      ScrubbedSize(v, depth);
      if v.Dict? && NamesSecret(Keys(v)[path[0]].text) {
        MarkerHasNoChildren();
      } else {
        NothingElseIsShown(Children(v)[path[0]], depth + 1, path[1..]);
      }
    }
  }

  // ----- places in an object graph ----------------------------------------------------------

  function Refs(node: Node): seq<Ref> {
    match node
    case DictNode(slots) => seq(|slots|, i requires 0 <= i < |slots| => slots[i].ref)
    case ListNode(refs) => refs
    case TupleNode(refs) => refs
    case SetNode(refs) => refs
    case _ => []
  }

  lemma RefsAreClosed(h: Heap, r: Ref)
    requires Closed(h) && r in h
    ensures forall i :: 0 <= i < |Refs(h[r])| ==> Refs(h[r])[i] in h
  {
    assert NodeClosed(h, h[r]);
  }

  /** The node that a path through the graph leads to. */
  function Follow(h: Heap, r: Ref, path: seq<nat>): (end: Option<Ref>)
    requires Closed(h) && r in h
    ensures end.Some? ==> end.value in h
    decreases |path|
  {
    if path == [] then Some(r)
    else if path[0] >= |Refs(h[r])| then None
    else
      RefsAreClosed(h, r);
      Follow(h, Refs(h[r])[path[0]], path[1..])
  }

  /** The value is of the kind of the node, with the same text, size and keys. */
  predicate Shows(node: Node, v: Value) {
    |Children(v)| == |Refs(node)| &&
    match node
    case StrNode(s) => v == Str(s)
    case DictNode(slots) =>
      v.Dict? && |Keys(v)| == |slots| && forall i :: 0 <= i < |slots| ==> Keys(v)[i] == slots[i].key
    case ListNode(_) => v.List?
    case TupleNode(_) => v.Tuple?
    case SetNode(_) => v.Set?
    case LeafNode(id, text) => v == Leaf(id, text)
  }

  lemma UnfoldChildren(h: Heap, r: Ref, levels: nat, horizon: Value)
    requires Closed(h) && r in h && levels > 0
    ensures Shows(h[r], Unfold(h, r, levels, horizon))
    ensures forall i :: 0 <= i < |Refs(h[r])| ==>
      Refs(h[r])[i] in h && Children(Unfold(h, r, levels, horizon))[i] == Unfold(h, Refs(h[r])[i], levels - 1, horizon)
  {
    assert NodeClosed(h, h[r]);
  }

  /** An unfolding shows at the end of every path the node that the path leads to, and the horizon
      where the levels are used up. */
  lemma {:induction false} UnfoldShowsGraph(h: Heap, r: Ref, levels: nat, horizon: Value, path: seq<nat>)
    requires Closed(h) && r in h && |path| <= levels
    ensures Reach(Unfold(h, r, levels, horizon), path).Some? <==> Follow(h, r, path).Some?
    ensures Follow(h, r, path).Some? ==>
      var x := Reach(Unfold(h, r, levels, horizon), path).value;
      if |path| == levels then x == horizon else Shows(h[Follow(h, r, path).value], x)
    decreases |path|
  {
    if levels > 0 {
      hide Unfold, Shows, Children, Refs, Closed;
      UnfoldChildren(h, r, levels, horizon);
      UnfoldSize(h, r, levels, horizon);
      if path != [] && path[0] < |Refs(h[r])| {
        UnfoldShowsGraph(h, Refs(h[r])[path[0]], levels - 1, horizon, path[1..]);
      }
    }
  }

  lemma UnfoldSize(h: Heap, r: Ref, levels: nat, horizon: Value)
    requires Closed(h) && r in h && levels > 0
    ensures |Children(Unfold(h, r, levels, horizon))| == |Refs(h[r])|
  {
    UnfoldChildren(h, r, levels, horizon);
  }

  /** A list that contains itself, at the top of an event field. */
  lemma SixListsAndMarker(h: Heap, r: Ref)
    requires Closed(h) && r in h && h[r] == ListNode([r])
    ensures ScrubRef(h, r, 0) == List([List([List([List([List([List([Str("[TRUNCATED:depth]")])])])])])])
  {
    SelfContainingList(h, r, 0);
  }
}
