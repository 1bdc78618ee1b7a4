/** The five correlation variables of one task's context, set and reset through tokens. */
module CorrelationContext {
  import opened Wrappers

  datatype Field = RequestId | CorrelationId | JobId | WorkflowId | Agent

  function FieldName(f: Field): string {
    match f
    case RequestId => "request_id"
    case CorrelationId => "correlation_id"
    case JobId => "job_id"
    case WorkflowId => "workflow_id"
    case Agent => "agent"
  }

  const FIELD_NAMES: set<string> := {"request_id", "correlation_id", "job_id", "workflow_id", "agent"}

  function FieldNamed(name: string): (f: Option<Field>)
    ensures f.Some? <==> name in FIELD_NAMES
    ensures f.Some? ==> FieldName(f.value) == name
  {
    if name == "request_id" then Some(RequestId)
    else if name == "correlation_id" then Some(CorrelationId)
    else if name == "job_id" then Some(JobId)
    else if name == "workflow_id" then Some(WorkflowId)
    else if name == "agent" then Some(Agent)
    else None
  }

  lemma NamedByItsName(f: Field)
    ensures FieldNamed(FieldName(f)) == Some(f)
  {
    if f == RequestId { assert "request_id" in FIELD_NAMES; }
  }

  // ----- context variables ----------------------------------------------------------------

  /** A variable that was never set is absent; one that was set to None is present. */
  type Vars = map<Field, Option<string>>

  function Get(vars: Vars, f: Field): Option<string> {
    if f in vars then vars[f] else None
  }

  /** `previous` is None when the variable was absent. A token works once, in its own context. */
  datatype Token = Token(owner: nat, id: nat, field: Field, previous: Option<Option<string>>)

  datatype Ctx = Ctx(owner: nat, vars: Vars, issued: nat, spent: set<nat>)

  function SetVar(c: Ctx, f: Field, value: Option<string>): (Ctx, Token) {
    (c.(vars := c.vars[f := value], issued := c.issued + 1),
     Token(c.owner, c.issued, f, if f in c.vars then Some(c.vars[f]) else None))
  }

  function Undo(vars: Vars, token: Token): Vars {
    if token.previous.Some? then vars[token.field := token.previous.value] else vars - {token.field}
  }

  /** Fails on a spent token and on a token of another context. */
  function ResetVar(c: Ctx, token: Token): Option<Ctx> {
    if token.owner != c.owner || token.id in c.spent then None
    else Some(c.(vars := Undo(c.vars, token), spent := c.spent + {token.id}))
  }

  /** The set fields under their names. */
  function CurrentContext(vars: Vars): map<string, string> {
    map name | name in FIELD_NAMES && Get(vars, FieldNamed(name).value).Some?
      :: Get(vars, FieldNamed(name).value).value
  }

  // ----- binding and restoring ------------------------------------------------------------

  datatype Binding = Binding(name: string, value: Option<string>)

  datatype Bound =
    | Bound(ctx: Ctx, tokens: seq<Token>)
    | UnknownField(ctx: Ctx, name: string)

  function Bind(c: Ctx, fields: seq<Binding>): Bound
    decreases |fields|
  {
    if fields == [] then Bound(c, [])
    else match FieldNamed(fields[0].name)
      case None => UnknownField(c, fields[0].name)
      case Some(f) =>
        if fields[0].value.None? then Bind(c, fields[1..])
        else
          var (c', token) := SetVar(c, f, fields[0].value);
          match Bind(c', fields[1..])
          case Bound(c'', tokens) => Bound(c'', [token] + tokens)
          case UnknownField(c'', name) => UnknownField(c'', name)
  }

  /** `ok` is false when a reset raised; the tokens before it are then not replayed. */
  datatype Replay = Replay(ctx: Ctx, ok: bool)

  /** `_ContextTokens.restore`: last token first. */
  function Restore(c: Ctx, tokens: seq<Token>): Replay
    decreases |tokens|
  {
    if tokens == [] then Replay(c, true)
    else match ResetVar(c, tokens[|tokens| - 1])
      case None => Replay(c, false)
      case Some(c') => Restore(c', tokens[..|tokens| - 1])
  }

  class ContextState {
    var ctx: Ctx

    constructor (owner: nat, vars: Vars)
      ensures ctx == Ctx(owner, vars, 0, {})
    {
      ctx := Ctx(owner, vars, 0, {});
    }

    method BindContext(fields: seq<Binding>) returns (r: Result<seq<Token>, string>)
      modifies this
      ensures match Bind(old(ctx), fields)
              case Bound(c, tokens) => ctx == c && r == Success(tokens)
              case UnknownField(c, name) => ctx == c && r == Failure(name)
    {
      var tokens := [];
      for i := 0 to |fields|
        invariant match Bind(ctx, fields[i..])
                  case Bound(c, more) => Bind(old(ctx), fields) == Bound(c, tokens + more)
                  case UnknownField(c, name) => Bind(old(ctx), fields) == UnknownField(c, name)
      {
        assert fields[i..][1..] == fields[i + 1..];
        var f := FieldNamed(fields[i].name);
        if f.None? {
          return Failure(fields[i].name);
        }
        if fields[i].value.Some? {
          var (c, token) := SetVar(ctx, f.value, fields[i].value);
          ctx := c;
          assert forall more: seq<Token> :: tokens + ([token] + more) == tokens + [token] + more;
          tokens := tokens + [token];
        }
      }
      assert fields[|fields|..] == [];
      assert tokens + [] == tokens;
      return Success(tokens);
    }

    method RestoreTokens(tokens: seq<Token>) returns (ok: bool)
      modifies this
      ensures Replay(ctx, ok) == Restore(old(ctx), tokens)
    {
      var i := |tokens|;
      assert tokens[..i] == tokens;
      while i > 0
        invariant 0 <= i <= |tokens|
        invariant Restore(old(ctx), tokens) == Restore(ctx, tokens[..i])
      {
        i := i - 1;
        assert tokens[..i + 1][..i] == tokens[..i];
        var c := ResetVar(ctx, tokens[i]);
        if c.None? {
          return false;
        }
        ctx := c.value;
      }
      return true;
    }

    method ClearContext()
      modifies this
      ensures CurrentContext(ctx.vars) == map[]
      ensures ctx.owner == old(ctx.owner) && ctx.spent == old(ctx.spent)
    {
      var fields := [RequestId, CorrelationId, JobId, WorkflowId, Agent];
      for i := 0 to |fields|
        invariant ctx.owner == old(ctx.owner) && ctx.spent == old(ctx.spent)
        invariant forall k :: 0 <= k < i ==> Get(ctx.vars, fields[k]) == None
      {
        var (c, _) := SetVar(ctx, fields[i], None);
        ctx := c;
      }
      forall f: Field ensures Get(ctx.vars, f) == None {
        var k := match f
          case RequestId => 0 case CorrelationId => 1 case JobId => 2
          case WorkflowId => 3 case Agent => 4;
        assert fields[k] == f;
      }
    }
  }

  // ----- what binding and restoring mean --------------------------------------------------

  predicate Known(fields: seq<Binding>) {
    forall i :: 0 <= i < |fields| ==> fields[i].name in FIELD_NAMES
  }

  /** The meaning of a binding: the given values on top of the present ones. */
  function BindVars(vars: Vars, fields: seq<Binding>): Vars
    decreases |fields|
  {
    if fields == [] then vars
    else match FieldNamed(fields[0].name)
      case None => vars
      case Some(f) =>
        BindVars(if fields[0].value.None? then vars else vars[f := fields[0].value], fields[1..])
  }

  function UndoAll(vars: Vars, tokens: seq<Token>): Vars
    decreases |tokens|
  {
    if tokens == [] then vars
    else UndoAll(Undo(vars, tokens[|tokens| - 1]), tokens[..|tokens| - 1])
  }

  /** The tokens of one binding: `n` of them, issued in a row from `first` on. */
  predicate IssuedBy(owner: nat, first: nat, tokens: seq<Token>) {
    forall i :: 0 <= i < |tokens| ==> tokens[i].owner == owner && tokens[i].id == first + i
  }

  lemma {:induction false} UndoFirst(vars: Vars, token: Token, tokens: seq<Token>)
    ensures UndoAll(vars, [token] + tokens) == Undo(UndoAll(vars, tokens), token)
    decreases |tokens|
  {
    var all := [token] + tokens;
    if tokens == [] {
      assert all[..0] == [];
    } else {
      var n := |tokens|;
      assert all[n] == tokens[n - 1];
      assert all[..n] == [token] + tokens[..n - 1];
      UndoFirst(Undo(vars, tokens[n - 1]), token, tokens[..n - 1]);
    }
  }

  /** Whatever the names, a binding spends no token, and the tokens it hands out are new. */
  lemma {:induction false} BindTokens(c: Ctx, fields: seq<Binding>)
    ensures var r := Bind(c, fields);
      r.ctx.owner == c.owner && r.ctx.spent == c.spent && c.issued <= r.ctx.issued &&
      (r.Bound? ==> r.ctx.issued == c.issued + |r.tokens| && IssuedBy(c.owner, c.issued, r.tokens))
    decreases |fields|
  {
    if fields != [] && FieldNamed(fields[0].name).Some? {
      var f := FieldNamed(fields[0].name).value;
      BindTokens(if fields[0].value.None? then c else SetVar(c, f, fields[0].value).0, fields[1..]);
    }
  }

  /** Binding known fields succeeds, sets what was given, and its tokens undo exactly that. */
  lemma {:induction false} BindEffect(c: Ctx, fields: seq<Binding>)
    requires Known(fields)
    ensures var r := Bind(c, fields);
      r.Bound? && r.ctx == c.(vars := BindVars(c.vars, fields), issued := c.issued + |r.tokens|) &&
      IssuedBy(c.owner, c.issued, r.tokens) &&
      UndoAll(r.ctx.vars, r.tokens) == c.vars
    decreases |fields|
  {
    if fields != [] {
      var f := FieldNamed(fields[0].name).value;
      if fields[0].value.None? {
        BindEffect(c, fields[1..]);
      } else {
        var (c', token) := SetVar(c, f, fields[0].value);
        BindEffect(c', fields[1..]);
        var r' := Bind(c', fields[1..]);
        UndoFirst(r'.ctx.vars, token, r'.tokens);
        assert Undo(c'.vars, token) == c.vars;
      }
    }
  }

  lemma {:induction false} RestoreEffect(c: Ctx, first: nat, tokens: seq<Token>)
    requires IssuedBy(c.owner, first, tokens)
    requires forall id :: first <= id < first + |tokens| ==> id !in c.spent
    ensures var r := Restore(c, tokens);
      r.ok && r.ctx.vars == UndoAll(c.vars, tokens) &&
      r.ctx.owner == c.owner && r.ctx.issued == c.issued &&
      forall id :: id in r.ctx.spent <==> id in c.spent || first <= id < first + |tokens|
    decreases |tokens|
  {
    if tokens != [] {
      var n := |tokens| - 1;
      RestoreEffect(ResetVar(c, tokens[n]).value, first, tokens[..n]);
    }
  }

  /** Tokens cannot be replayed: a second restore is refused. */
  lemma RestoreTwiceFails(c: Ctx, first: nat, tokens: seq<Token>)
    requires IssuedBy(c.owner, first, tokens) && tokens != []
    requires forall id :: first <= id < first + |tokens| ==> id !in c.spent
    ensures Restore(c, tokens).ok && !Restore(Restore(c, tokens).ctx, tokens).ok
  {
    RestoreEffect(c, first, tokens);
    assert tokens[|tokens| - 1].id == first + (|tokens| - 1);
  }

  /** Each token is this context's own, unspent, and there once. */
  ghost predicate Replayable(c: Ctx, tokens: seq<Token>) {
    (forall i :: 0 <= i < |tokens| ==> tokens[i].owner == c.owner && tokens[i].id !in c.spent) &&
    forall i, j :: 0 <= i < j < |tokens| ==> tokens[i].id != tokens[j].id
  }

  /** A replay succeeds exactly when every token can still be used, in this context. */
  lemma {:induction false} RestoreSucceedsIff(c: Ctx, tokens: seq<Token>)
    ensures Restore(c, tokens).ok <==> Replayable(c, tokens)
    decreases |tokens|
  {
    if tokens != [] {
      var n := |tokens| - 1;
      var r := ResetVar(c, tokens[n]);
      if r.Some? {
        RestoreSucceedsIff(r.value, tokens[..n]);
        assert forall i :: 0 <= i < n ==> tokens[..n][i] == tokens[i];
        assert Replayable(c, tokens) ==> Replayable(r.value, tokens[..n]);
        if Replayable(r.value, tokens[..n]) {
          forall i | 0 <= i < n ensures tokens[i].id != tokens[n].id { assert tokens[..n][i].id !in r.value.spent; }
        }
      }
    }
  }

  // ----- a binding that fails -------------------------------------------------------------

  predicate DistinctNames(fields: seq<Binding>) {
    forall i, j :: 0 <= i < j < |fields| ==> fields[i].name != fields[j].name
  }

  /** `n` is the place of the first unknown name. */
  predicate FirstUnknown(fields: seq<Binding>, n: nat) {
    n < |fields| && fields[n].name !in FIELD_NAMES && Known(fields[..n])
  }

  lemma {:induction false} FailedBindKeepsPrefix(c: Ctx, fields: seq<Binding>, n: nat)
    requires FirstUnknown(fields, n)
    ensures Bind(c, fields).UnknownField? && Bind(c, fields).name == fields[n].name
    ensures Bind(c, fields).ctx.vars == BindVars(c.vars, fields[..n])
    decreases n
  {
    if n > 0 {
      assert fields[0].name == fields[..n][0].name;
      assert fields[..n][1..] == fields[1..][..n - 1];
      assert Known(fields[..n][1..]);
      var f := FieldNamed(fields[0].name).value;
      FailedBindKeepsPrefix(if fields[0].value.None? then c else SetVar(c, f, fields[0].value).0, fields[1..], n - 1);
    }
  }

  predicate Gives(b: Binding, f: Field) {
    b.value.Some? && b.name == FieldName(f)
  }

  /** A field reads, after a binding, as the value given for it, or as before. */
  lemma {:induction false} BoundValue(vars: Vars, fields: seq<Binding>, f: Field)
    requires Known(fields) && DistinctNames(fields)
    ensures (forall i :: 0 <= i < |fields| ==> !Gives(fields[i], f))
            ==> Get(BindVars(vars, fields), f) == Get(vars, f)
    ensures forall i :: 0 <= i < |fields| ==>
              Gives(fields[i], f) ==> Get(BindVars(vars, fields), f) == fields[i].value
    decreases |fields|
  {
    if fields != [] {
      var g, rest := FieldNamed(fields[0].name).value, fields[1..];
      assert fields[0].name == FieldName(g);
      var vars' := if fields[0].value.None? then vars else vars[g := fields[0].value];
      assert forall i :: 0 <= i < |rest| ==> rest[i] == fields[i + 1];
      BoundValue(vars', rest, f);
      NamedByItsName(f);
      NamedByItsName(g);
      forall i | 0 <= i < |fields| && Gives(fields[i], f)
        ensures Get(BindVars(vars, fields), f) == fields[i].value
      {
        if i > 0 { assert rest[i - 1] == fields[i]; }
      }
    }
  }

  /** `bind_context` with an unknown field raises after it has set the fields named before it.
      It leaves the context as it was exactly when those brought no new value. */
  lemma FailedBindLeaksNothingIff(c: Ctx, fields: seq<Binding>, n: nat)
    requires DistinctNames(fields) && FirstUnknown(fields, n)
    ensures Bind(c, fields).UnknownField?
    ensures SameFields(Bind(c, fields).ctx.vars, c.vars) <==> BringsNothingNew(c.vars, fields[..n])
  {
    FailedBindKeepsPrefix(c, fields, n);
    var before := fields[..n];
    var after := BindVars(c.vars, before);
    if BringsNothingNew(c.vars, before) {
      forall f: Field ensures Get(after, f) == Get(c.vars, f) {
        BoundValue(c.vars, before, f);
        NamedByItsName(f);
      }
    }
    if SameFields(after, c.vars) {
      forall i | 0 <= i < n && before[i].value.Some?
        ensures before[i].value == Get(c.vars, FieldNamed(before[i].name).value)
      {
        var f := FieldNamed(before[i].name).value;
        BoundValue(c.vars, before, f);
        assert Gives(before[i], f);
      }
    }
  }

  ghost predicate SameFields(vars: Vars, vars': Vars) {
    forall f: Field :: Get(vars, f) == Get(vars', f)
  }

  predicate BringsNothingNew(vars: Vars, fields: seq<Binding>)
    requires Known(fields)
  {
    forall i :: 0 <= i < |fields| && fields[i].value.Some? ==>
      fields[i].value == Get(vars, FieldNamed(fields[i].name).value)
  }

  lemma FailedBindLeaks()
    ensures var fields := [Binding("request_id", Some("r1")), Binding("tenant", Some("t"))];
      Bind(Ctx(0, map[], 0, {}), fields).UnknownField? &&
      Get(Bind(Ctx(0, map[], 0, {}), fields).ctx.vars, RequestId) == Some("r1")
  {
    var fields := [Binding("request_id", Some("r1")), Binding("tenant", Some("t"))];
    assert fields[..1] == [fields[0]];
    FailedBindKeepsPrefix(Ctx(0, map[], 0, {}), fields, 1);
    BoundValue(map[], [fields[0]], RequestId);
    assert Gives(fields[0], RequestId);
  }
}
