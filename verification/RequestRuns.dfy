/** Concurrent requests and what their log lines say: the correlation scopes of interleaved tasks
    together with the identifiers that the requests carry and echo. */
module RequestRuns {
  import opened Wrappers
  import opened CorrelationContext
  import opened TaskRuns
  import opened Events
  import opened Propagation

  /** From the n-th scope on, no open scope gives `f` a value. */
  predicate NoneGives(scopes: seq<Scope>, n: nat, f: Field) {
    forall k :: n <= k < |scopes| ==> Given(scopes[k].fields, f).None?
  }

  lemma {:induction false} InnermostBelow(base: Vars, scopes: seq<Scope>, n: nat, f: Field)
    requires n <= |scopes| && NoneGives(scopes, n, f)
    ensures Innermost(base, scopes, f) == Innermost(base, scopes[..n], f)
    decreases |scopes|
  {
    if n == |scopes| {
      assert scopes[..n] == scopes;
    } else {
      var m := |scopes| - 1;
      InnermostBelow(base, scopes[..m], n, f);
      assert scopes[..m][..n] == scopes[..n];
    }
  }

  /** While `n` scopes stay open and none inside them gives `f` at the moment, the field reads as it
      did there. */
  lemma FieldStays(t: Task, actions: seq<Action>, n: nat, f: Field)
    requires Inv(t) && AllKnown(actions) && StaysInside(t, actions, n)
    requires NoneGives(t.scopes, n, f) && NoneGives(RunTask(t, actions).scopes, n, f)
    ensures Get(RunTask(t, actions).ctx.vars, f) == Get(t.ctx.vars, f)
  {
    var t' := RunTask(t, actions);
    OuterScopesStay(t, actions, n);
    InnermostBelow(t.base, t.scopes, n, f);
    InnermostBelow(t'.base, t'.scopes, n, f);
    ReadsInnermost(t, f);
    ReadsInnermost(t', f);
  }

  lemma ReadsInnermost(t: Task, f: Field)
    requires Inv(t)
    ensures Get(t.ctx.vars, f) == Innermost(t.base, t.scopes, f)
  {
    forall k | 0 <= k < |t.scopes| ensures Known(t.scopes[k].fields) { assert ScopeOk(t, k); }
    OverlayShowsInnermost(t.base, t.scopes, f);
  }

  lemma {:induction false} AlwaysInside(t: Task, actions: seq<Action>)
    ensures StaysInside(t, actions, 0)
    decreases |actions|
  {
    if actions != [] {
      AlwaysInside(TaskStep(t, actions[0]), actions[1..]);
    }
  }

  /** The line that task `t` writes next, for a call with the fields `e`. */
  function NextLine(s: System, t: nat, e: Event): Event
    requires t in s.tasks
  {
    RedactEvent(Merge(SystemStep(s, Act(t, Log)).log[|s.log|].fields, e))
  }

  predicate IsIdField(f: Field) {
    f == RequestId || f == CorrelationId
  }

  function IdOf(ids: Ids, f: Field): string
    requires IsIdField(f)
  {
    if f == RequestId then ids.requestId else ids.correlationId
  }

  /** A task serves a request: it binds the identifiers from the headers and runs, interleaved with
      any other tasks. As long as it is inside that scope, every line it writes carries the
      identifiers that the response echoes, unless they are key-shaped or a JWT. Only a nested scope
      that is open at that moment and gives another identifier stands in the way; one that has been
      closed again does not. */
  lemma RequestLinesCarryId(s: System, t: nat, h: Headers, minted: string, steps: seq<Step>, f: Field, e: Event)
    requires SystemInv(s) && t in s.tasks && IsFreshId(minted) && StepsKnown(steps)
    requires IsIdField(f) && FieldName(f) !in e
    requires var t1, n := OpenScope(s.tasks[t], IdFields(Identify(h, minted))), |s.tasks[t].scopes| + 1;
      StaysInside(t1, ActionsOf(steps, t), n) && NoneGives(RunTask(t1, ActionsOf(steps, t)).scopes, n, f)
    ensures var ids := Identify(h, minted);
      var s' := Run(SystemStep(s, Act(t, Open(IdFields(ids)))), steps);
      t in s'.tasks && CarriesId(NextLine(s', t, e), FieldName(f), IdOf(ids, f))
  {
    var ids := Identify(h, minted);
    var t0, n := s.tasks[t], |s.tasks[t].scopes|;
    var t1 := OpenScope(t0, IdFields(ids));
    var s1 := SystemStep(s, Act(t, Open(IdFields(ids))));
    OpenKeepsInv(t0, IdFields(ids));
    ContextShowsIds(t0.ctx, ids);
    RunProjects(s1, steps, t);
    ActionsKnown(steps, t);
    FieldStays(t1, ActionsOf(steps, t), n + 1, f);
    IdsAreSanitised(h, minted);
    LineCarriesId(Run(s1, steps).tasks[t].ctx.vars, f, IdOf(ids, f), e);
  }

  /** The same for a task that is spawned while the identifier is bound: its lines carry it unless a
      scope of its own gives another, whatever becomes of the request in the meantime. */
  lemma ChildLinesCarryId(s: System, parent: nat, child: nat, id: string, steps: seq<Step>, f: Field, e: Event)
    requires SystemInv(s) && parent in s.tasks && child !in s.tasks && StepsKnown(steps)
    requires IsIdField(f) && FieldName(f) !in e
    requires Get(s.tasks[parent].ctx.vars, f) == Some(id) && Sanitised(id)
    requires NoneGives(RunTask(NewTask(child, s.tasks[parent].ctx.vars), ActionsOf(steps, child)).scopes, 0, f)
    ensures var s' := Run(SystemStep(s, Spawn(parent, child)), steps);
      child in s'.tasks && CarriesId(NextLine(s', child, e), FieldName(f), id)
  {
    var s1 := SystemStep(s, Spawn(parent, child));
    var t1 := s1.tasks[child];
    NewTaskInv(child, s.tasks[parent].ctx.vars);
    RunProjects(s1, steps, child);
    ActionsKnown(steps, child);
    AlwaysInside(t1, ActionsOf(steps, child));
    FieldStays(t1, ActionsOf(steps, child), 0, f);
    LineCarriesId(Run(s1, steps).tasks[child].ctx.vars, f, id, e);
  }
}
