/** Correlation scopes in many asyncio tasks at once.

    Each task has its own context, copied from its parent when it is spawned. Its open scopes form
    a stack; a scope ends when its block does, or when an exception leaves the block. */
module TaskRuns {
  import opened Wrappers
  import opened CorrelationContext

  /** `first` records the token number at which the scope was opened. */
  datatype Scope = Scope(fields: seq<Binding>, tokens: seq<Token>, first: nat)

  /** `base` is the context the task started with; `crashed` says that a restore raised. */
  datatype Task = Task(base: Vars, ctx: Ctx, scopes: seq<Scope>, crashed: bool)

  datatype Action =
    | Open(fields: seq<Binding>)
    | Close                 // the innermost block ends
    | Raise(keep: nat)      // an exception unwinds to the handler inside the first `keep` scopes
    | Log

  datatype Step = Spawn(parent: nat, child: nat) | Act(task: nat, action: Action)

  datatype LogLine = LogLine(task: nat, fields: map<string, string>)

  datatype System = System(tasks: map<nat, Task>, log: seq<LogLine>)

  function NewTask(owner: nat, vars: Vars): Task {
    Task(vars, Ctx(owner, vars, 0, {}), [], false)
  }

  function OpenScope(t: Task, fields: seq<Binding>): Task {
    match Bind(t.ctx, fields)
    case Bound(c, tokens) => t.(ctx := c, scopes := t.scopes + [Scope(fields, tokens, t.ctx.issued)])
    case UnknownField(c, _) => t.(ctx := c)
  }

  function CloseScope(t: Task): Task
    requires t.scopes != []
  {
    var n := |t.scopes| - 1;
    var r := Restore(t.ctx, t.scopes[n].tokens);
    t.(ctx := r.ctx, scopes := t.scopes[..n], crashed := t.crashed || !r.ok)
  }

  /** Every scope that the exception leaves runs its `finally`. */
  function Unwind(t: Task, keep: nat): Task
    decreases |t.scopes|
  {
    if |t.scopes| <= keep then t else Unwind(CloseScope(t), keep)
  }

  function TaskStep(t: Task, a: Action): Task {
    match a
    case Open(fields) => OpenScope(t, fields)
    case Close => if t.scopes == [] then t else CloseScope(t)
    case Raise(keep) => Unwind(t, keep)
    case Log => t
  }

  function SystemStep(s: System, step: Step): System {
    match step
    case Spawn(parent, child) =>
      if parent in s.tasks && child !in s.tasks
      then s.(tasks := s.tasks[child := NewTask(child, s.tasks[parent].ctx.vars)])
      else s
    case Act(t, a) =>
      if t !in s.tasks then s
      else System(s.tasks[t := TaskStep(s.tasks[t], a)],
                  if a.Log? then s.log + [LogLine(t, CurrentContext(s.tasks[t].ctx.vars))] else s.log)
  }

  function Run(s: System, steps: seq<Step>): System
    decreases |steps|
  {
    if steps == [] then s else Run(SystemStep(s, steps[0]), steps[1..])
  }

  function RunTask(t: Task, actions: seq<Action>): Task
    decreases |actions|
  {
    if actions == [] then t else RunTask(TaskStep(t, actions[0]), actions[1..])
  }

  /** The actions of one task in an interleaving. */
  function ActionsOf(steps: seq<Step>, t: nat): seq<Action> {
    if steps == [] then []
    else (if steps[0].Act? && steps[0].task == t then [steps[0].action] else []) + ActionsOf(steps[1..], t)
  }

  predicate KnownFields(a: Action) {
    a.Open? ==> Known(a.fields)
  }

  predicate AllKnown(actions: seq<Action>) {
    forall i :: 0 <= i < |actions| ==> KnownFields(actions[i])
  }

  predicate StepsKnown(steps: seq<Step>) {
    forall i :: 0 <= i < |steps| ==> (steps[i].Act? ==> KnownFields(steps[i].action))
  }

  // ----- the invariant of a task ----------------------------------------------------------

  /** The base context with the bindings of the open scopes on top, outermost first. */
  function Overlay(base: Vars, scopes: seq<Scope>): Vars
    decreases |scopes|
  {
    if scopes == [] then base
    else
      var n := |scopes| - 1;
      BindVars(Overlay(base, scopes[..n]), scopes[n].fields)
  }

  /** The tokens of scope `k` are the task's own, unspent, and older than those of scope `k + 1`. */
  ghost predicate TokensOk(t: Task, k: nat)
    requires k < |t.scopes|
  {
    var sc := t.scopes[k];
    IssuedBy(t.ctx.owner, sc.first, sc.tokens) &&
    sc.first + |sc.tokens| <= (if k + 1 < |t.scopes| then t.scopes[k + 1].first else t.ctx.issued) &&
    forall id :: sc.first <= id < sc.first + |sc.tokens| ==> id !in t.ctx.spent
  }

  /** No restore has raised, and none can. This does not depend on the names that were bound. */
  ghost predicate TokenInv(t: Task) {
    !t.crashed &&
    (forall id :: id in t.ctx.spent ==> id < t.ctx.issued) &&
    forall k :: 0 <= k < |t.scopes| ==> TokensOk(t, k)
  }

  /** The tokens of scope `k` undo exactly its own bindings. */
  ghost predicate ScopeOk(t: Task, k: nat)
    requires k < |t.scopes|
  {
    Known(t.scopes[k].fields) &&
    UndoAll(Overlay(t.base, t.scopes[..k + 1]), t.scopes[k].tokens) == Overlay(t.base, t.scopes[..k])
  }

  ghost predicate Inv(t: Task) {
    TokenInv(t) &&
    t.ctx.vars == Overlay(t.base, t.scopes) &&
    forall k :: 0 <= k < |t.scopes| ==> ScopeOk(t, k)
  }

  lemma NewTaskInv(owner: nat, vars: Vars)
    ensures Inv(NewTask(owner, vars))
  {
  }

  lemma {:induction false} ScopesAscend(t: Task, k: nat, l: nat)
    requires TokenInv(t) && k < l < |t.scopes|
    ensures t.scopes[k].first + |t.scopes[k].tokens| <= t.scopes[l].first
    decreases l - k
  {
    assert TokensOk(t, k);
    if k + 1 < l {
      ScopesAscend(t, k + 1, l);
      assert TokensOk(t, k + 1);
    }
  }

  lemma OpenKeepsTokens(t: Task, fields: seq<Binding>)
    requires TokenInv(t)
    ensures TokenInv(OpenScope(t, fields))
  {
    BindTokens(t.ctx, fields);
    var t', n := OpenScope(t, fields), |t.scopes|;
    forall k | 0 <= k < |t'.scopes| ensures TokensOk(t', k) {
      if k < n { assert TokensOk(t, k); }
    }
  }

  lemma CloseKeepsTokens(t: Task)
    requires TokenInv(t) && t.scopes != []
    ensures TokenInv(CloseScope(t))
    ensures CloseScope(t).ctx.vars == UndoAll(t.ctx.vars, t.scopes[|t.scopes| - 1].tokens)
  {
    var n := |t.scopes| - 1;
    var sc, t' := t.scopes[n], CloseScope(t);
    assert TokensOk(t, n);
    RestoreEffect(t.ctx, sc.first, sc.tokens);
    forall k | 0 <= k < n ensures TokensOk(t', k) {
      assert TokensOk(t, k);
      ScopesAscend(t, k, n);
      assert k + 1 < n ==> t'.scopes[k + 1] == t.scopes[k + 1];
    }
  }

  lemma {:induction false} UnwindKeepsTokens(t: Task, keep: nat)
    requires TokenInv(t)
    ensures TokenInv(Unwind(t, keep))
    decreases |t.scopes|
  {
    if |t.scopes| > keep {
      CloseKeepsTokens(t);
      UnwindKeepsTokens(CloseScope(t), keep);
    }
  }

  lemma StepKeepsTokens(t: Task, a: Action)
    requires TokenInv(t)
    ensures TokenInv(TaskStep(t, a))
  {
    match a
    case Open(fields) => OpenKeepsTokens(t, fields);
    case Close => if t.scopes != [] { CloseKeepsTokens(t); }
    case Raise(keep) => UnwindKeepsTokens(t, keep);
    case Log =>
  }

  lemma OpenKeepsInv(t: Task, fields: seq<Binding>)
    requires Inv(t) && Known(fields)
    ensures Inv(OpenScope(t, fields))
    ensures OpenScope(t, fields).scopes[..|t.scopes|] == t.scopes
    ensures |OpenScope(t, fields).scopes| == |t.scopes| + 1
    ensures OpenScope(t, fields).scopes[|t.scopes|].fields == fields
    ensures OpenScope(t, fields).base == t.base
  {
    BindEffect(t.ctx, fields);
    OpenKeepsTokens(t, fields);
    var t', n := OpenScope(t, fields), |t.scopes|;
    assert t'.scopes[..n] == t.scopes && t'.scopes[..n + 1] == t'.scopes;
    forall k | 0 <= k < |t'.scopes| ensures ScopeOk(t', k) {
      if k < n {
        assert ScopeOk(t, k);
        assert t'.scopes[..k] == t.scopes[..k] && t'.scopes[..k + 1] == t.scopes[..k + 1];
      }
    }
  }

  lemma CloseKeepsInv(t: Task)
    requires Inv(t) && t.scopes != []
    ensures Inv(CloseScope(t))
    ensures CloseScope(t).base == t.base
  {
    var n := |t.scopes| - 1;
    var t' := CloseScope(t);
    CloseKeepsTokens(t);
    assert ScopeOk(t, n);
    assert t.scopes[..n + 1] == t.scopes;
    forall k | 0 <= k < n ensures ScopeOk(t', k) {
      assert ScopeOk(t, k);
      assert t'.scopes[..k] == t.scopes[..k] && t'.scopes[..k + 1] == t.scopes[..k + 1];
    }
  }

  /** Leaving scopes keeps the outer ones as they were. */
  lemma {:induction false} UnwindKeepsInv(t: Task, keep: nat)
    requires Inv(t)
    ensures Inv(Unwind(t, keep)) && Unwind(t, keep).base == t.base
    ensures Unwind(t, keep).scopes == if |t.scopes| <= keep then t.scopes else t.scopes[..keep]
    decreases |t.scopes|
  {
    if |t.scopes| > keep {
      CloseKeepsInv(t);
      UnwindKeepsInv(CloseScope(t), keep);
    }
  }

  lemma StepKeepsInv(t: Task, a: Action)
    requires Inv(t) && KnownFields(a)
    ensures Inv(TaskStep(t, a)) && TaskStep(t, a).base == t.base
  {
    match a
    case Open(fields) => OpenKeepsInv(t, fields);
    case Close => if t.scopes != [] { CloseKeepsInv(t); }
    case Raise(keep) => UnwindKeepsInv(t, keep);
    case Log =>
  }

  /** Closing a scope raises exactly when one of its tokens cannot be replayed. */
  lemma CloseRaisesIff(t: Task)
    requires t.scopes != []
    ensures CloseScope(t).crashed <==> t.crashed || !Replayable(t.ctx, t.scopes[|t.scopes| - 1].tokens)
  {
    RestoreSucceedsIff(t.ctx, t.scopes[|t.scopes| - 1].tokens);
  }

  // ----- isolation ------------------------------------------------------------------------

  /** A step changes no task but the one that acts. */
  lemma StepIsLocal(s: System, step: Step, t: nat)
    requires t in s.tasks && !(step.Act? && step.task == t)
    ensures t in SystemStep(s, step).tasks && SystemStep(s, step).tasks[t] == s.tasks[t]
  {
  }

  /** What a task becomes in an interleaving is what it becomes on its own. */
  lemma {:induction false} RunProjects(s: System, steps: seq<Step>, t: nat)
    requires t in s.tasks
    ensures t in Run(s, steps).tasks
    ensures Run(s, steps).tasks[t] == RunTask(s.tasks[t], ActionsOf(steps, t))
    decreases |steps|
  {
    if steps != [] {
      var s' := SystemStep(s, steps[0]);
      RunProjects(s', steps[1..], t);
      if steps[0].Act? && steps[0].task == t {
        assert ActionsOf(steps, t)[0] == steps[0].action;
        assert ActionsOf(steps, t)[1..] == ActionsOf(steps[1..], t);
      } else {
        StepIsLocal(s, steps[0], t);
        assert ActionsOf(steps, t) == ActionsOf(steps[1..], t);
      }
    }
  }

  ghost predicate SystemInv(s: System) {
    forall t :: t in s.tasks ==> Inv(s.tasks[t])
  }

  ghost predicate SystemTokenInv(s: System) {
    forall t :: t in s.tasks ==> TokenInv(s.tasks[t])
  }

  /** No restore raises in any run, whatever names the tasks bind. */
  lemma {:induction false} NoRestoreRaises(s: System, steps: seq<Step>)
    requires SystemTokenInv(s)
    ensures SystemTokenInv(Run(s, steps))
    ensures forall t :: t in Run(s, steps).tasks ==>
      !Run(s, steps).tasks[t].crashed && ClosesWell(Run(s, steps).tasks[t])
    decreases |steps|
  {
    if steps != [] {
      var step := steps[0];
      if step.Act? && step.task in s.tasks {
        StepKeepsTokens(s.tasks[step.task], step.action);
      }
      NoRestoreRaises(SystemStep(s, step), steps[1..]);
    } else {
      forall t | t in s.tasks ensures ClosesWell(s.tasks[t]) { ScopesCloseWell(s.tasks[t]); }
    }
  }

  /** Each open scope, were it the innermost, could replay its tokens. */
  ghost predicate ClosesWell(t: Task) {
    forall k :: 0 <= k < |t.scopes| ==> Restore(t.ctx, t.scopes[k].tokens).ok
  }

  lemma ScopesCloseWell(t: Task)
    requires TokenInv(t)
    ensures ClosesWell(t)
  {
    forall k | 0 <= k < |t.scopes| ensures Restore(t.ctx, t.scopes[k].tokens).ok {
      assert TokensOk(t, k);
      RestoreEffect(t.ctx, t.scopes[k].first, t.scopes[k].tokens);
    }
  }

  /** As long as the names are known, every context is the overlay of its open scopes. */
  lemma {:induction false} RunKeepsInv(s: System, steps: seq<Step>)
    requires SystemInv(s) && StepsKnown(steps)
    ensures SystemInv(Run(s, steps))
    decreases |steps|
  {
    if steps != [] {
      var step := steps[0];
      if step.Act? && step.task in s.tasks {
        StepKeepsInv(s.tasks[step.task], step.action);
      }
      RunKeepsInv(SystemStep(s, step), steps[1..]);
    }
  }

  /** A scope with an unknown name does not open: the exception leaves the fields set that were named
      before it, and no scope is there to take them back. */
  lemma FailedOpenLeaks(t: Task, fields: seq<Binding>, n: nat)
    requires FirstUnknown(fields, n)
    ensures var t' := OpenScope(t, fields);
      t'.scopes == t.scopes && t'.crashed == t.crashed && t'.ctx.vars == BindVars(t.ctx.vars, fields[..n])
  {
    FailedBindKeepsPrefix(t.ctx, fields, n);
  }

  // ----- scopes restore -------------------------------------------------------------------

  /** Along these actions at least `n` scopes stay open. */
  predicate StaysInside(t: Task, actions: seq<Action>, n: nat)
    decreases |actions|
  {
    |t.scopes| >= n && (actions == [] || StaysInside(TaskStep(t, actions[0]), actions[1..], n))
  }

  lemma {:induction false} OuterScopesStay(t: Task, actions: seq<Action>, n: nat)
    requires Inv(t) && AllKnown(actions) && StaysInside(t, actions, n)
    ensures var t' := RunTask(t, actions);
      Inv(t') && t'.base == t.base && |t'.scopes| >= n && t'.scopes[..n] == t.scopes[..n]
    decreases |actions|
  {
    if actions != [] {
      var a, t1 := actions[0], TaskStep(t, actions[0]);
      StepKeepsInv(t, a);
      assert t1.scopes[..n] == t.scopes[..n] by {
        match a
        case Open(fields) =>
          OpenKeepsInv(t, fields);
          assert t1.scopes[..|t.scopes|][..n] == t1.scopes[..n];
        case Close =>
        case Raise(keep) => UnwindKeepsInv(t, keep);
        case Log =>
      }
      OuterScopesStay(t1, actions[1..], n);
    }
  }

  /** A task opens a scope and does anything within it; then the block ends, or an exception leaves
      it together with whatever is still open inside. Either way the fields are those from before. */
  lemma ScopeRestores(t: Task, fields: seq<Binding>, body: seq<Action>, exit: Action)
    requires Inv(t) && Known(fields) && AllKnown(body)
    requires StaysInside(OpenScope(t, fields), body, |t.scopes| + 1)
    requires exit == Raise(|t.scopes|) ||
             (exit == Close && |RunTask(OpenScope(t, fields), body).scopes| == |t.scopes| + 1)
    ensures var t' := TaskStep(RunTask(OpenScope(t, fields), body), exit);
      t'.ctx.vars == t.ctx.vars && t'.scopes == t.scopes && !t'.crashed
  {
    var n, t1 := |t.scopes|, OpenScope(t, fields);
    OpenKeepsInv(t, fields);
    OuterScopesStay(t1, body, n + 1);
    var t2 := RunTask(t1, body);
    assert t2.scopes[..n + 1][..n] == t2.scopes[..n];
    assert t1.scopes[..n + 1][..n] == t1.scopes[..n];
    StepKeepsInv(t2, exit);
    if exit.Raise? {
      UnwindKeepsInv(t2, n);
    }
  }

  /** The same inside any interleaving: other tasks may do what they like in the meantime. */
  lemma ScopeRestoresInAnyRun(s: System, t: nat, fields: seq<Binding>, steps: seq<Step>, exit: Action)
    requires SystemInv(s) && t in s.tasks && Known(fields) && StepsKnown(steps)
    requires StaysInside(OpenScope(s.tasks[t], fields), ActionsOf(steps, t), |s.tasks[t].scopes| + 1)
    requires exit == Raise(|s.tasks[t].scopes|) ||
             (exit == Close &&
              |RunTask(OpenScope(s.tasks[t], fields), ActionsOf(steps, t)).scopes| == |s.tasks[t].scopes| + 1)
    ensures var s1 := SystemStep(s, Act(t, Open(fields)));
      var s3 := SystemStep(Run(s1, steps), Act(t, exit));
      t in s3.tasks && s3.tasks[t].ctx.vars == s.tasks[t].ctx.vars && !s3.tasks[t].crashed
  {
    RunProjects(SystemStep(s, Act(t, Open(fields))), steps, t);
    ActionsKnown(steps, t);
    ScopeRestores(s.tasks[t], fields, ActionsOf(steps, t), exit);
  }

  lemma {:induction false} ActionsKnown(steps: seq<Step>, t: nat)
    requires StepsKnown(steps)
    ensures AllKnown(ActionsOf(steps, t))
    decreases |steps|
  {
    if steps != [] {
      ActionsKnown(steps[1..], t);
    }
  }

  // ----- what a log line shows ------------------------------------------------------------

  /** The value the last of these bindings gives to `f`, if any of them gives one. */
  function Given(fields: seq<Binding>, f: Field): Option<string> {
    if fields == [] then None
    else
      var later := Given(fields[1..], f);
      if later.Some? then later
      else if Gives(fields[0], f) then fields[0].value
      else None
  }

  /** The innermost open scope that gives `f` a value decides; failing all, the base context. */
  function Innermost(base: Vars, scopes: seq<Scope>, f: Field): Option<string>
    decreases |scopes|
  {
    if scopes == [] then Get(base, f)
    else
      var n := |scopes| - 1;
      if Given(scopes[n].fields, f).Some? then Given(scopes[n].fields, f)
      else Innermost(base, scopes[..n], f)
  }

  lemma {:induction false} BindGives(vars: Vars, fields: seq<Binding>, f: Field)
    requires Known(fields)
    ensures Get(BindVars(vars, fields), f) ==
            if Given(fields, f).Some? then Given(fields, f) else Get(vars, f)
    decreases |fields|
  {
    if fields != [] {
      var g := FieldNamed(fields[0].name).value;
      NamedByItsName(f);
      BindGives(if fields[0].value.None? then vars else vars[g := fields[0].value], fields[1..], f);
    }
  }

  lemma {:induction false} OverlayShowsInnermost(base: Vars, scopes: seq<Scope>, f: Field)
    requires forall k :: 0 <= k < |scopes| ==> Known(scopes[k].fields)
    ensures Get(Overlay(base, scopes), f) == Innermost(base, scopes, f)
    decreases |scopes|
  {
    if scopes != [] {
      var n := |scopes| - 1;
      OverlayShowsInnermost(base, scopes[..n], f);
      BindGives(Overlay(base, scopes[..n]), scopes[n].fields, f);
    }
  }

  /** In any run a log line carries, for each field, the innermost binding of the task that logs,
      and nothing for a field without one. */
  lemma LogShowsInnermost(s: System, steps: seq<Step>, t: nat, f: Field)
    requires SystemInv(s) && StepsKnown(steps) && t in Run(s, steps).tasks
    ensures var s1 := Run(s, steps);
      var s2 := SystemStep(s1, Act(t, Log));
      var inner := Innermost(s1.tasks[t].base, s1.tasks[t].scopes, f);
      s2.tasks == s1.tasks && |s2.log| == |s1.log| + 1 && s2.log[..|s1.log|] == s1.log &&
      var line := s2.log[|s1.log|];
      line.task == t && (FieldName(f) in line.fields <==> inner.Some?) &&
      (inner.Some? ==> line.fields[FieldName(f)] == inner.value)
  {
    RunKeepsInv(s, steps);
    var task := Run(s, steps).tasks[t];
    forall k | 0 <= k < |task.scopes| ensures Known(task.scopes[k].fields) { assert ScopeOk(task, k); }
    OverlayShowsInnermost(task.base, task.scopes, f);
    NamedByItsName(f);
  }

  /** A child starts with its parent's fields and none of its scopes, so it cannot close them. */
  lemma SpawnCopies(s: System, parent: nat, child: nat, f: Field)
    requires SystemInv(s) && parent in s.tasks && child !in s.tasks
    ensures var s' := SystemStep(s, Spawn(parent, child));
      SystemInv(s') && s'.tasks[parent] == s.tasks[parent] && s'.tasks[child].scopes == [] &&
      Get(s'.tasks[child].ctx.vars, f) == Innermost(s.tasks[parent].base, s.tasks[parent].scopes, f)
  {
    var task := s.tasks[parent];
    forall k | 0 <= k < |task.scopes| ensures Known(task.scopes[k].fields) { assert ScopeOk(task, k); }
    OverlayShowsInnermost(task.base, task.scopes, f);
    NewTaskInv(child, task.ctx.vars);
  }
}
