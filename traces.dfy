/** The event log and the relations read directly off it: the activity set Tl,
    the initial set Ti, the final set To and the directly-follows pairs. */
module Traces {

  /** An activity label, compared only for equality. */
  type Activity = string

  /** One recorded case: the activities in the order they happened. */
  type Trace = seq<Activity>

  type Log = seq<Trace>

  /** An ordered pair of activities, as stored in the directly-follows set. */
  type Pair = (Activity, Activity)

  /** Ti and To index the first and last activity of every trace, so every
      trace must hold at least one activity. */
  predicate NonEmptyTraces(log: Log) {
    forall k :: 0 <= k < |log| ==> |log[k]| > 0
  }

  /** Tl: every activity that occurs in some trace. */
  function Activities(log: Log): (tl: set<Activity>)
    ensures forall k, i :: 0 <= k < |log| && 0 <= i < |log[k]| ==> log[k][i] in tl
  {
    assert forall k, i | 0 <= k < |log| && 0 <= i < |log[k]| :: log[k] in log && log[k][i] in log[k];
    set t, a | t in log && a in t :: a
  }

  /** Tl holds nothing but the activities of the traces. */
  lemma ActivitiesMember(log: Log, a: Activity)
    ensures a in Activities(log) <==> exists k, i :: 0 <= k < |log| && 0 <= i < |log[k]| && log[k][i] == a
  {
    if a in Activities(log) {
      var t :| t in log && a in t;
      var k :| 0 <= k < |log| && log[k] == t;
      var i :| 0 <= i < |t| && t[i] == a;
    }
  }

  /** Ti: the first activity of every trace. */
  function InitialActivities(log: Log): (ti: set<Activity>)
    requires NonEmptyTraces(log)
    ensures ti <= Activities(log)
    ensures forall k :: 0 <= k < |log| ==> log[k][0] in ti
    ensures forall a :: a in ti ==> exists k :: 0 <= k < |log| && log[k][0] == a
    ensures ti == {} <==> log == []
  {
    var ti := set k | 0 <= k < |log| :: log[k][0];
    assert log != [] ==> log[0][0] in ti;
    assert forall k :: 0 <= k < |log| ==> log[k][0] in Activities(log);
    ti
  }

  /** To: the last activity of every trace. */
  function FinalActivities(log: Log): (to: set<Activity>)
    requires NonEmptyTraces(log)
    ensures to <= Activities(log)
    ensures forall k :: 0 <= k < |log| ==> log[k][|log[k]| - 1] in to
    ensures forall a :: a in to ==> exists k :: 0 <= k < |log| && log[k][|log[k]| - 1] == a
    ensures to == {} <==> log == []
  {
    var to := set k | 0 <= k < |log| :: log[k][|log[k]| - 1];
    assert log != [] ==> log[0][|log[0]| - 1] in to;
    assert forall k :: 0 <= k < |log| ==> log[k][|log[k]| - 1] in Activities(log);
    to
  }

  /** A one-trace log starts with the trace's first activity. */
  lemma InitialOfOne(log: Log)
    requires |log| == 1 && |log[0]| > 0
    ensures InitialActivities(log) == {log[0][0]}
  {
    var ti := InitialActivities(log);
    forall a | a in ti ensures a == log[0][0] {
      var k :| 0 <= k < |log| && log[k][0] == a;
      assert k == 0;
    }
  }

  /** A one-trace log ends with the trace's last activity. */
  lemma FinalOfOne(log: Log)
    requires |log| == 1 && |log[0]| > 0
    ensures FinalActivities(log) == {log[0][|log[0]| - 1]}
  {
    var to := FinalActivities(log);
    forall a | a in to ensures a == log[0][|log[0]| - 1] {
      var k :| 0 <= k < |log| && log[k][|log[k]| - 1] == a;
      assert k == 0;
    }
  }

  /** The adjacent pairs of one trace, built up from its front. */
  function Adjacent(t: Trace): set<Pair>
  {
    if |t| < 2 then {} else Adjacent(t[..|t| - 1]) + {(t[|t| - 2], t[|t| - 1])}
  }

  /** The directly-follows set: the adjacent pairs of every trace of the log. */
  function DirectlyFollows(log: Log): set<Pair>
  {
    if log == [] then {} else DirectlyFollows(log[..|log| - 1]) + Adjacent(log[|log| - 1])
  }

  /** (x, y) is adjacent in t exactly when t[i] == x and t[i + 1] == y for some i. */
  lemma {:induction false} AdjacentMember(t: Trace, p: Pair)
    ensures p in Adjacent(t) <==> exists i :: 0 <= i < |t| - 1 && (t[i], t[i + 1]) == p
  {
    if |t| >= 2 {
      var s := t[..|t| - 1];
      AdjacentMember(s, p);
      if exists i :: 0 <= i < |t| - 1 && (t[i], t[i + 1]) == p {
        var i :| 0 <= i < |t| - 1 && (t[i], t[i + 1]) == p;
        if i < |t| - 2 {
          assert (s[i], s[i + 1]) == p;
        }
      }
      if p in Adjacent(s) {
        var i :| 0 <= i < |s| - 1 && (s[i], s[i + 1]) == p;
        assert (t[i], t[i + 1]) == p;
      }
    }
  }

  /** The directly-follows property: (x, y) is in the set exactly when some
      trace holds x immediately followed by y. */
  lemma {:induction false} DirectlyFollowsMember(log: Log, p: Pair)
    ensures p in DirectlyFollows(log) <==>
      exists k, i :: 0 <= k < |log| && 0 <= i < |log[k]| - 1 && (log[k][i], log[k][i + 1]) == p
  {
    if log != [] {
      var front, last := log[..|log| - 1], log[|log| - 1];
      DirectlyFollowsMember(front, p);
      AdjacentMember(last, p);
      if exists k, i :: 0 <= k < |log| && 0 <= i < |log[k]| - 1 && (log[k][i], log[k][i + 1]) == p {
        var k, i :| 0 <= k < |log| && 0 <= i < |log[k]| - 1 && (log[k][i], log[k][i + 1]) == p;
        if k < |log| - 1 {
          assert (front[k][i], front[k][i + 1]) == p;
        } else {
          assert (last[i], last[i + 1]) == p;
        }
      }
      if p in DirectlyFollows(front) {
        var k, i :| 0 <= k < |front| && 0 <= i < |front[k]| - 1 && (front[k][i], front[k][i + 1]) == p;
        assert (log[k][i], log[k][i + 1]) == p;
      }
    }
  }

  /** Both members of every directly-follows pair are activities of the log. */
  lemma DirectlyFollowsWithinActivities(log: Log)
    ensures forall p :: p in DirectlyFollows(log) ==> p.0 in Activities(log) && p.1 in Activities(log)
  {
    forall p | p in DirectlyFollows(log)
      ensures p.0 in Activities(log) && p.1 in Activities(log)
    {
      DirectlyFollowsMember(log, p);
      var k, i :| 0 <= k < |log| && 0 <= i < |log[k]| - 1 && (log[k][i], log[k][i + 1]) == p;
      assert log[k][i + 1] in Activities(log);
    }
  }

  /** create_task_sequence_set: walks every trace and adds each adjacent pair. */
  method CreateTaskSequenceSet(log: Log) returns (df: set<Pair>)
    ensures df == DirectlyFollows(log)
  {
    df := {};
    for k := 0 to |log|
      invariant df == DirectlyFollows(log[..k])
    {
      var task := log[k];
      var i := 0;
      while i + 1 < |task|
        invariant if task == [] then i == 0 else i < |task|
        invariant df == DirectlyFollows(log[..k]) + Adjacent(task[..if task == [] then 0 else i + 1])
      {
        assert task[..i + 2][..i + 1] == task[..i + 1];
        df := df + {(task[i], task[i + 1])};
        i := i + 1;
      }
      assert task[..if task == [] then 0 else i + 1] == task;
      assert log[..k + 1][..k] == log[..k];
    }
    assert log[..|log|] == log;
  }
}
