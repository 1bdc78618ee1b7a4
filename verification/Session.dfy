/** `Database.session`: commit, rollback and close around a block of work. */
module Session {
  import opened Signals

  datatype Call = Commit | Rollback | Close

  /** What happens at each point of a session that is reached. */
  datatype Faults = Faults(factory: Signal, body: Signal, commit: Signal, rollback: Signal, close: Signal)

  /** `classified` stands for the error object that `_classify_db_error` returns for an error. */
  datatype Exit =
    | Returned
    | NotConnected
    | Raised(signal: Signal)
    | RaisedClassified(cause: Signal)

  /** A unit of work: its effect on the database, and the faults it meets. */
  datatype Work<!S> = Work(effect: S -> S, faults: Faults)

  predicate Commits(f: Faults) {
    f.factory.Fine? && f.body.Fine? && f.commit.Fine?
  }

  /** The error that sends the session to its rollback, if any. */
  predicate RollsBack(f: Faults) {
    f.factory.Fine? && (f.body.Ordinary? || (f.body.Fine? && f.commit.Ordinary?))
  }

  function Number(calls: seq<Call>, c: Call): nat {
    multiset(calls)[c]
  }

  class Database<!S> {
    var connected: bool
    var committed: S

    constructor (initial: S, connected: bool)
      ensures committed == initial && this.connected == connected
    {
      committed := initial;
      this.connected := connected;
    }

    /** One session. A commit that raises is taken to have applied nothing. */
    method Session(w: Work<S>) returns (calls: seq<Call>, exit: Exit)
      modifies this`committed
      ensures committed == if connected && Commits(w.faults) then w.effect(old(committed)) else old(committed)
      // close runs exactly once, and last, as soon as there is a session
      ensures connected && w.faults.factory.Fine? ==>
        calls != [] && calls[|calls| - 1] == Close && Number(calls, Close) == 1
      // commit is called exactly when the body ends well, and never after a rollback
      ensures connected && w.faults.factory.Fine? ==>
        (Number(calls, Commit) == if w.faults.body.Fine? then 1 else 0)
      ensures forall i, j :: 0 <= i < j < |calls| ==> calls[i] == Rollback ==> calls[j] != Commit
      // rollback runs exactly when body or commit raised an ordinary exception
      ensures connected ==> (Number(calls, Rollback) == if RollsBack(w.faults) then 1 else 0)
      ensures !connected || !w.faults.factory.Fine? ==> calls == []
      ensures connected && w.faults.factory.Fine? && w.faults.body.Base? ==> calls == [Close]
      // the caller sees success exactly when nothing failed, and otherwise the last error
      ensures exit == Returned <==> (connected && Commits(w.faults) && w.faults.close.Fine?)
      ensures exit == NotConnected <==> !connected
      ensures connected && w.faults.factory.Fine? && !w.faults.close.Fine? ==> exit == Raised(w.faults.close)
      ensures connected && w.faults.close.Fine? && RollsBack(w.faults) ==>
        exit == if !w.faults.rollback.Fine? then Raised(w.faults.rollback)
                else RaisedClassified(if w.faults.body.Ordinary? then w.faults.body else w.faults.commit)
      ensures connected && w.faults.factory.Fine? && w.faults.close.Fine? && !RollsBack(w.faults) && !Commits(w.faults)
        ==> exit == Raised(if w.faults.body.Base? then w.faults.body else w.faults.commit)
      ensures connected && !w.faults.factory.Fine? ==> exit == Raised(w.faults.factory)
    {
      calls := [];
      if !connected {
        return calls, NotConnected;
      }
      if !w.faults.factory.Fine? {
        return calls, Raised(w.faults.factory);
      }
      var pending := w.faults.body;
      if pending.Fine? {
        calls := calls + [Commit];
        pending := w.faults.commit;
        if pending.Fine? {
          committed := w.effect(committed);
        }
      }
      if pending.Fine? {
        exit := Returned;
      } else if pending.Ordinary? {
        calls := calls + [Rollback];
        exit := if w.faults.rollback.Fine? then RaisedClassified(pending) else Raised(w.faults.rollback);
      } else {
        exit := Raised(pending);
      }
      calls := calls + [Close];
      if !w.faults.close.Fine? {
        exit := Raised(w.faults.close);
      }
    }

    /** Sessions one after the other, whatever their callers make of the errors. */
    method Sessions(work: seq<Work<S>>) returns (exits: seq<Exit>)
      modifies this`committed
      ensures committed == if connected then Fold(old(committed), Survivors(work)) else old(committed)
      ensures |exits| == |work|
      ensures connected ==> forall i :: 0 <= i < |work| && exits[i] == Returned ==> Commits(work[i].faults)
    {
      exits := [];
      for i := 0 to |work|
        invariant |exits| == i
        invariant committed == if connected then Fold(old(committed), Survivors(work[..i])) else old(committed)
        invariant connected ==> forall k :: 0 <= k < i && exits[k] == Returned ==> Commits(work[k].faults)
      {
        SurvivorsSnoc(work, i);
        FoldSnoc(old(committed), Survivors(work[..i]), work[i]);
        var _, exit := Session(work[i]);
        exits := exits + [exit];
      }
      assert work[..|work|] == work;
    }
  }

  /** A cancelled body: the session is closed without a rollback. */
  method CancelledBody<S>(db: Database<S>, effect: S -> S, tag: int) returns (calls: seq<Call>)
    requires db.connected
    modifies db`committed
    ensures calls == [Close] && db.committed == old(db.committed)
  {
    var exit;
    calls, exit := db.Session(Work(effect, Faults(Fine, Base(tag), Fine, Fine, Fine)));
  }

  /** The work whose commit succeeded, in order. */
  function Survivors<S>(work: seq<Work<S>>): seq<Work<S>> {
    if work == [] then []
    else (if Commits(work[0].faults) then [work[0]] else []) + Survivors(work[1..])
  }

  function Fold<S>(s: S, work: seq<Work<S>>): S
    decreases |work|
  {
    if work == [] then s else Fold(work[0].effect(s), work[1..])
  }

  lemma {:induction false} FoldSnoc<S>(s: S, work: seq<Work<S>>, w: Work<S>)
    ensures Fold(s, work + [w]) == w.effect(Fold(s, work))
    decreases |work|
  {
    if work == [] {
      assert work + [w] == [w];
    } else {
      assert (work + [w])[1..] == work[1..] + [w];
      FoldSnoc(work[0].effect(s), work[1..], w);
    }
  }

  lemma {:induction false} SurvivorsConcat<S>(a: seq<Work<S>>, b: seq<Work<S>>)
    ensures Survivors(a + b) == Survivors(a) + Survivors(b)
    decreases |a|
  {
    if a == [] {
      assert a + b == b;
    } else {
      assert (a + b)[1..] == a[1..] + b && (a + b)[0] == a[0];
      SurvivorsConcat(a[1..], b);
      if Commits(a[0].faults) {
        assert [a[0]] + (Survivors(a[1..]) + Survivors(b)) == [a[0]] + Survivors(a[1..]) + Survivors(b);
      }
    }
  }

  lemma SurvivorsSnoc<S>(work: seq<Work<S>>, i: nat)
    requires i < |work|
    ensures Survivors(work[..i + 1]) ==
            if Commits(work[i].faults) then Survivors(work[..i]) + [work[i]] else Survivors(work[..i])
  {
    assert work[..i + 1] == work[..i] + [work[i]];
    SurvivorsConcat(work[..i], [work[i]]);
    assert Survivors([work[i]]) == if Commits(work[i].faults) then [work[i]] else [];
  }

  /** Work that did not commit leaves no trace: dropping it changes nothing. */
  lemma {:induction false} FailedWorkIsInvisible<S>(s: S, before: seq<Work<S>>, w: Work<S>, after: seq<Work<S>>)
    requires !Commits(w.faults)
    ensures Fold(s, Survivors(before + [w] + after)) == Fold(s, Survivors(before + after))
  {
    SurvivorsConcat(before + [w], after);
    SurvivorsConcat(before, [w]);
    SurvivorsConcat(before, after);
    assert Survivors([w]) == [];
    assert Survivors(before) + [] + Survivors(after) == Survivors(before) + Survivors(after);
  }
}
