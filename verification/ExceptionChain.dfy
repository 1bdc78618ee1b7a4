/** The walk along `__cause__` and `__context__`, and the classification that relies on it. */
module ExceptionChain {
  import opened Wrappers
  import opened Regex
  import opened Texts

  // ----- orbits in a finite graph ---------------------------------------------------------

  /** Where each node leads; None at the end of a chain. */
  type Links<T(==)> = map<T, Option<T>>

  predicate ClosedLinks<T(==)>(g: Links<T>) {
    forall x :: x in g && g[x].Some? ==> g[x].value in g
  }

  /** The node `k` links after `x`. */
  function Hop<T(==)>(g: Links<T>, x: T, k: nat): Option<T>
    requires ClosedLinks(g) && x in g
    ensures Hop(g, x, k).Some? ==> Hop(g, x, k).value in g
  {
    if k == 0 then Some(x)
    else
      var y := Hop(g, x, k - 1);
      if y.None? then None else g[y.value]
  }

  ghost function Reachable<T>(g: Links<T>, x: T): set<T>
    requires ClosedLinks(g) && x in g
  {
    set y | y in g && exists k: nat :: Hop(g, x, k) == Some(y)
  }

  /** `chain` is the start of the orbit of `x`, without repetition. */
  ghost predicate IsOrbit<T>(g: Links<T>, x: T, chain: seq<T>)
    requires ClosedLinks(g) && x in g
  {
    (forall k :: 0 <= k < |chain| ==> Hop(g, x, k) == Some(chain[k])) &&
    (forall i, j :: 0 <= i < j < |chain| ==> chain[i] != chain[j])
  }

  lemma OrbitBegins<T>(g: Links<T>, x: T)
    requires ClosedLinks(g) && x in g
    ensures IsOrbit(g, x, []) && Hop(g, x, 0) == Some(x)
  {
  }

  lemma OrbitGrows<T>(g: Links<T>, x: T, chain: seq<T>, y: T)
    requires ClosedLinks(g) && x in g && IsOrbit(g, x, chain)
    requires Hop(g, x, |chain|) == Some(y) && y !in chain
    ensures IsOrbit(g, x, chain + [y]) && Hop(g, x, |chain| + 1) == g[y]
  {
  }

  function Elements<T>(chain: seq<T>): set<T> {
    set x | x in chain
  }

  lemma {:induction false} DistinctCount<T>(chain: seq<T>)
    requires forall i, j :: 0 <= i < j < |chain| ==> chain[i] != chain[j]
    ensures |Elements(chain)| == |chain|
    decreases |chain|
  {
    if chain != [] {
      var n := |chain| - 1;
      DistinctCount(chain[..n]);
      assert Elements(chain) == Elements(chain[..n]) + {chain[n]};
    }
  }

  /** Once the next node is missing or known already, nothing new can come. */
  lemma {:induction false} OrbitStaysInside<T>(g: Links<T>, x: T, chain: seq<T>, k: nat)
    requires ClosedLinks(g) && x in g && IsOrbit(g, x, chain) && chain != []
    requires var next := Hop(g, x, |chain|); next.None? || next.value in chain
    ensures Hop(g, x, k).None? || Hop(g, x, k).value in chain
    decreases k
  {
    if k > 0 {
      OrbitStaysInside(g, x, chain, k - 1);
      if Hop(g, x, k - 1).Some? {
        var j :| 0 <= j < |chain| && chain[j] == Hop(g, x, k - 1).value;
        assert Hop(g, x, k) == Hop(g, x, j + 1);
      }
    } else {
      assert Hop(g, x, 0) == Some(chain[0]);
    }
  }

  lemma OrbitIsReachable<T>(g: Links<T>, x: T, chain: seq<T>)
    requires ClosedLinks(g) && x in g && IsOrbit(g, x, chain)
    ensures Elements(chain) <= Reachable(g, x) && |chain| <= |Reachable(g, x)|
    ensures chain != [] && (Hop(g, x, |chain|).None? || Hop(g, x, |chain|).value in chain)
            ==> Elements(chain) == Reachable(g, x) && |chain| == |Reachable(g, x)|
  {
    DistinctCount(chain);
    forall y | y in chain ensures y in Reachable(g, x) {
      var k :| 0 <= k < |chain| && chain[k] == y;
      assert Hop(g, x, k) == Some(y);
    }
    SubsetSize(Elements(chain), Reachable(g, x));
    if chain != [] && (Hop(g, x, |chain|).None? || Hop(g, x, |chain|).value in chain) {
      forall y | y in Reachable(g, x) ensures y in chain {
        var k: nat :| Hop(g, x, k) == Some(y);
        OrbitStaysInside(g, x, chain, k);
      }
      assert Elements(chain) == Reachable(g, x);
    }
  }

  lemma {:induction false} SubsetSize<T>(a: set<T>, b: set<T>)
    requires a <= b
    ensures |a| <= |b|
    decreases |a|
  {
    if a != {} {
      var x :| x in a;
      SubsetSize(a - {x}, b - {x});
    }
  }

  /** The orbit property and the length together leave one possible result. */
  lemma OrbitIsUnique<T>(g: Links<T>, x: T, a: seq<T>, b: seq<T>)
    requires ClosedLinks(g) && x in g && IsOrbit(g, x, a) && IsOrbit(g, x, b) && |a| == |b|
    ensures a == b
  {
    forall k | 0 <= k < |a| ensures a[k] == b[k] {
      assert Hop(g, x, k) == Some(a[k]) && Hop(g, x, k) == Some(b[k]);
    }
  }

  // ----- exception objects ----------------------------------------------------------------

  class Exc {
    var cause: Exc?
    var context: Exc?
    const typeName: string

    constructor (typeName: string)
      ensures this.typeName == typeName && cause == null && context == null
    {
      this.typeName := typeName;
      cause, context := null, null;
    }

    /** `exc.__cause__ or exc.__context__` */
    function Next(): Exc?
      reads this
    {
      if cause != null then cause else context
    }
  }

  /** The exceptions of `world` lead to one another only. */
  ghost predicate ClosedWorld(world: set<Exc>)
    reads world
  {
    forall e :: e in world && e.Next() != null ==> e.Next() in world
  }

  ghost function Graph(world: set<Exc>): Links<Exc>
    reads world
  {
    map e | e in world :: if e.Next() == null then None else Some(e.Next())
  }

  /** The first is `exc`, and each of the others is the cause of the one before it or, if that has
      none, its context. */
  ghost predicate Follows(exc: Exc, chain: seq<Exc>)
    reads chain
  {
    chain != [] && chain[0] == exc && forall k {:trigger chain[k]} :: 0 < k < |chain| ==>
      (chain[k - 1].cause == null && chain[k - 1].context == chain[k]) || chain[k - 1].cause == chain[k]
  }

  /** Neither cause nor context is set on the last one, or the one that counts is in the chain. */
  ghost predicate LeadsNowhereNew(chain: seq<Exc>)
    requires chain != []
    reads chain
  {
    var last := chain[|chain| - 1];
    (last.cause != null && last.cause in chain) ||
    (last.cause == null && (last.context == null || last.context in chain))
  }

  function Least(a: int, b: int): int { if a < b then a else b }

  /** `_exception_chain`: the distinct exceptions of the orbit in order, up to `limit` of them,
      whether the chain ends, comes back to its start or runs into a later loop. */
  method Walk(exc: Exc, limit: int, ghost world: set<Exc>) returns (seen: seq<Exc>)
    requires exc in world && ClosedWorld(world)
    ensures IsOrbit(Graph(world), exc, seen)
    ensures |seen| == if limit < 0 then 0 else Least(limit, |Reachable(Graph(world), exc)|)
    // it begins with the argument and follows the cause, or else the context
    ensures limit > 0 ==> Follows(exc, seen)
    // it stops at the limit, or where neither is set, or where the next one has been seen
    ensures 0 < |seen| < limit ==> LeadsNowhereNew(seen)
  {
    hide IsOrbit, Hop, Reachable, Follows, LeadsNowhereNew;
    ghost var g := Graph(world);
    seen := [];
    var current: Exc? := exc;
    OrbitBegins<Exc>(g, exc);
    while current != null && |seen| < limit
      invariant IsOrbit(g, exc, seen) && (limit >= 0 ==> |seen| <= limit) && (limit < 0 ==> seen == [])
      invariant Hop(g, exc, |seen|) == if current == null then None else Some(current)
      invariant current != null ==> current in world && current !in seen
      decreases limit - |seen|
    {
      OrbitGrows<Exc>(g, exc, seen, current);
      seen := seen + [current];
      current := current.Next();
      if current != null && current in seen {
        break;
      }
    }
    OrbitIsReachable(g, exc, seen);
    assert current == null ==> seen != [];
    if seen != [] {
      OrbitFollows(world, exc, seen);
      if current == null || current in seen {
        OrbitStops(world, exc, seen);
      }
    }
  }

  lemma OrbitStops(world: set<Exc>, exc: Exc, chain: seq<Exc>)
    requires exc in world && ClosedWorld(world) && chain != [] && IsOrbit(Graph(world), exc, chain)
    requires var next := Hop(Graph(world), exc, |chain|); next.None? || next.value in chain
    ensures LeadsNowhereNew(chain)
  {
    OrbitFollows(world, exc, chain);
  }

  lemma OrbitFollows(world: set<Exc>, exc: Exc, chain: seq<Exc>)
    requires exc in world && ClosedWorld(world) && chain != [] && IsOrbit(Graph(world), exc, chain)
    ensures Follows(exc, chain)
    ensures Hop(Graph(world), exc, |chain|) == Graph(world)[chain[|chain| - 1]]
  {
    var g := Graph(world);
    assert Hop(g, exc, 0) == Some(chain[0]);
    forall k | 0 < k < |chain| ensures g[chain[k - 1]] == Some(chain[k]) {
      assert Hop(g, exc, k - 1) == Some(chain[k - 1]) && Hop(g, exc, k) == Some(chain[k]);
    }
    assert Hop(g, exc, |chain| - 1) == Some(chain[|chain| - 1]);
  }

  // ----- classification -------------------------------------------------------------------

  /** What `isinstance` and the attributes say about the error that left the session. */
  datatype Kind = PoolTimeout | Operational | OtherDbapi(text: string, invalidated: bool) | NotDbapi

  datatype Class = PoolExhausted | TransientError | StatementTimeout | ConnectionLost | Unclassified

  const QUERY_CANCELED := "QueryCanceled"
  const CHAIN_LIMIT := 10

  function Join(names: seq<string>): string {
    if names == [] then ""
    else if |names| == 1 then names[0]
    else names[0] + " " + Join(names[1..])
  }

  function Names(chain: seq<Exc>): (names: seq<string>)
    ensures |names| == |chain| && forall i :: 0 <= i < |names| ==> names[i] == chain[i].typeName
  {
    seq(|chain|, i requires 0 <= i < |chain| => chain[i].typeName)
  }

  /** The message speaks of a statement timeout, in whatever case. */
  ghost predicate SaysTimeout(text: string) {
    exists i: nat :: SpelledAt(text, i, "statement timeout")
  }

  lemma TimeoutIff(text: string)
    ensures SaysTimeout(text) <==> Contains(Lower(text), "statement timeout")
  {
    FoldedContainsIff(text, "statement timeout");
  }

  ghost predicate IsCanceled(e: Exc) {
    exists i: nat :: StandsAt("QueryCanceled", e.typeName, i)
  }

  /** Among the first `n` exceptions from `e` on, along the causes and, where there is none, the
      contexts, one has a type name that mentions a cancelled query. */
  ghost predicate LeadsToCanceled(e: Exc?, n: nat)
    reads *
    decreases n
  {
    e != null && n > 0 &&
    (IsCanceled(e) || if e.cause != null then LeadsToCanceled(e.cause, n - 1) else LeadsToCanceled(e.context, n - 1))
  }

  /** `_classify_db_error`; the classes stand for the error objects it builds. */
  method Classify(exc: Exc, kind: Kind, ghost world: set<Exc>) returns (c: Class)
    requires exc in world && ClosedWorld(world)
    ensures c == PoolExhausted <==> kind == PoolTimeout
    ensures c == TransientError <==> kind == Operational
    ensures c == StatementTimeout <==> (kind.OtherDbapi? && (SaysTimeout(kind.text) || LeadsToCanceled(exc, 10)))
    ensures c == ConnectionLost <==> (kind.OtherDbapi? && kind.invalidated && c != StatementTimeout)
  {
    match kind
    case PoolTimeout => c := PoolExhausted;
    case Operational => c := TransientError;
    case NotDbapi => c := Unclassified;
    case OtherDbapi(text, invalidated) =>
      var chain := Walk(exc, CHAIN_LIMIT, world);
      var joined := Join(Names(chain));
      CanceledInChain(Graph(world), exc, chain);
      CanceledIff(world, exc, CHAIN_LIMIT);
      TimeoutIff(text);
      if Contains(joined, QUERY_CANCELED) || Contains(Lower(text), "statement timeout") {
        c := StatementTimeout;
      } else if invalidated {
        c := ConnectionLost;
      } else {
        c := Unclassified;
      }
  }

  /** The exception `k` links along has a type name that mentions a cancelled query. */
  ghost predicate CanceledAt(g: Links<Exc>, exc: Exc, k: nat)
    requires ClosedLinks(g) && exc in g
  {
    Hop(g, exc, k).Some? && Contains(Hop(g, exc, k).value.typeName, QUERY_CANCELED)
  }

  lemma {:induction false} HopFromNext<T>(g: Links<T>, x: T, k: nat)
    requires ClosedLinks(g) && x in g
    ensures Hop(g, x, k + 1) == if g[x].None? then None else Hop(g, g[x].value, k)
    decreases k
  {
    if k > 0 {
      HopFromNext(g, x, k - 1);
    } else {
      assert Hop(g, x, 1) == g[Hop(g, x, 0).value];
    }
  }

  lemma {:induction false} CanceledIff(world: set<Exc>, exc: Exc, n: nat)
    requires exc in world && ClosedWorld(world)
    ensures LeadsToCanceled(exc, n) <==> exists k: nat :: k < n && CanceledAt(Graph(world), exc, k)
    decreases n
  {
    var g, next := Graph(world), exc.Next();
    ContainsIff(exc.typeName, QUERY_CANCELED);
    assert IsCanceled(exc) <==> CanceledAt(g, exc, 0);
    if n > 0 {
      if next != null {
        CanceledIff(world, next, n - 1);
        forall k: nat ensures CanceledAt(g, exc, k + 1) <==> CanceledAt(g, next, k) { HopFromNext(g, exc, k); }
        if k: nat :| k < n && CanceledAt(g, exc, k) && k > 0 { assert CanceledAt(g, next, k - 1); }
        if k: nat :| k < n - 1 && CanceledAt(g, next, k) { assert CanceledAt(g, exc, k + 1); }
      } else {
        if k: nat :| k < n && CanceledAt(g, exc, k) && k > 0 { HopFromNext(g, exc, k - 1); }
      }
    }
  }

  /** Looking for the name in the joined names of the walk finds it exactly when one of the first
      ten exceptions of the orbit, repetitions included, carries it. */
  lemma CanceledInChain(g: Links<Exc>, exc: Exc, chain: seq<Exc>)
    requires ClosedLinks(g) && exc in g && IsOrbit(g, exc, chain)
    requires |chain| == Least(CHAIN_LIMIT, |Reachable(g, exc)|)
    ensures Contains(Join(Names(chain)), QUERY_CANCELED) <==>
            exists k :: 0 <= k < CHAIN_LIMIT && CanceledAt(g, exc, k)
  {
    var names := Names(chain);
    JoinContains(names, QUERY_CANCELED);
    if k :| 0 <= k < |names| && Contains(names[k], QUERY_CANCELED) {
      assert Hop(g, exc, k) == Some(chain[k]);
      assert CanceledAt(g, exc, k);
    }
    if k :| 0 <= k < CHAIN_LIMIT && CanceledAt(g, exc, k) {
      var j := PlaceInChain(g, exc, chain, k);
      assert Contains(names[j], QUERY_CANCELED);
    }
  }

  lemma PlaceInChain(g: Links<Exc>, exc: Exc, chain: seq<Exc>, k: nat) returns (j: nat)
    requires ClosedLinks(g) && exc in g && IsOrbit(g, exc, chain)
    requires |chain| == Least(CHAIN_LIMIT, |Reachable(g, exc)|)
    requires k < CHAIN_LIMIT && Hop(g, exc, k).Some?
    ensures j < |chain| && Hop(g, exc, k) == Some(chain[j])
  {
    if k < |chain| {
      j := k;
    } else {
      OrbitIsReachable(g, exc, chain);
      DistinctCount(chain);
      var y := Hop(g, exc, k).value;
      assert y in Reachable(g, exc);
      SameSize(Elements(chain), Reachable(g, exc));
      j :| 0 <= j < |chain| && chain[j] == y;
    }
  }

  lemma SameSize<T>(a: set<T>, b: set<T>)
    requires a <= b && |a| == |b|
    ensures a == b
  {
    if x :| x in b && x !in a {
      SubsetSize(a, b - {x});
    }
  }

  /** A word without spaces is in a joined text exactly when it is in one of the parts. */
  lemma {:induction false} JoinContains(names: seq<string>, word: string)
    requires word != "" && ' ' !in word
    ensures Contains(Join(names), word) <==> exists k :: 0 <= k < |names| && Contains(names[k], word)
    decreases |names|
  {
    if |names| == 0 {
      assert !Contains("", word);
    } else if |names| > 1 {
      var rest := names[1..];
      JoinContains(rest, word);
      ConcatContains(names[0], Join(rest), word);
      if k :| 0 <= k < |rest| && Contains(rest[k], word) { assert names[k + 1] == rest[k]; }
      if k :| 0 < k < |names| && Contains(names[k], word) { assert rest[k - 1] == names[k]; }
    } else {
      assert names[0] == Join(names);
    }
  }

  lemma ConcatContains(a: string, b: string, word: string)
    requires word != "" && ' ' !in word
    ensures Contains(a + " " + b, word) <==> Contains(a, word) || Contains(b, word)
  {
    var t := a + " " + b;
    if i :| 0 <= i <= |t| && At(word, t, i) {
      if |a| < i {
        forall k | 0 <= k < |word| ensures b[i - |a| - 1 + k] == word[k] { assert t[i + k] == word[k]; }
        assert At(word, b, i - |a| - 1);
      } else {
        if i + |word| > |a| {
          AtShows(word, t, i, |a| - i);
        }
        forall k | 0 <= k < |word| ensures a[i + k] == word[k] { assert t[i + k] == word[k]; }
        assert At(word, a, i);
      }
    }
    if i :| 0 <= i <= |a| && At(word, a, i) {
      forall k | 0 <= k < |word| ensures t[i + k] == word[k] { assert a[i + k] == word[k]; }
      assert At(word, t, i);
    }
    if i :| 0 <= i <= |b| && At(word, b, i) {
      forall k | 0 <= k < |word| ensures t[|a| + 1 + i + k] == word[k] { assert b[i + k] == word[k]; }
      assert At(word, t, |a| + 1 + i);
    }
  }
}
