/** The clean-up of the final-activity set To against the place candidates. */
module EndSet {
  import opened Traces
  import opened Candidates

  /** Some candidate of xl has t as its only producer, which is what
      comparing t with a candidate's first component can match. */
  predicate SoleProducer(xl: set<Candidate>, t: Activity) {
    exists x :: x in xl && x.producers == {t}
  }

  /** To without the activities that are the sole producer of a candidate. */
  function Cleared(to: set<Activity>, xl: set<Candidate>): (r: set<Activity>)
    ensures r <= to
    ensures forall t :: t in to ==> (t in r <==> !SoleProducer(xl, t))
  {
    set t | t in to && !SoleProducer(xl, t)
  }

  /** clear_to_set: walks a copy of to_set and discards from to_set every
      activity that equals the first component of some candidate. */
  method ClearToSet(toSet: set<Activity>, xl: set<Candidate>) returns (cleared: set<Activity>)
    ensures cleared == Cleared(toSet, xl)
  {
    cleared := toSet;
    var to := toSet;
    while to != {}
      invariant to <= toSet
      invariant cleared == set t | t in toSet && (t in to || !SoleProducer(xl, t))
    {
      var t :| t in to;
      var rest := xl;
      while rest != {}
        invariant rest <= xl
        invariant cleared == (set u | u in toSet && (u in to || !SoleProducer(xl, u)))
                             - (if exists x :: x in xl - rest && x.producers == {t} then {t} else {})
      {
        var x :| x in rest;
        if x.producers == {t} {
          cleared := cleared - {t};
        }
        rest := rest - {x};
      }
      to := to - {t};
    }
  }

  /** Cleaning an already cleaned set changes nothing. */
  lemma ClearedIdempotent(to: set<Activity>, xl: set<Candidate>)
    ensures Cleared(Cleared(to, xl), xl) == Cleared(to, xl)
  {
  }

  /** On XL the clean-up removes exactly the final activities that cause some
      other activity: the first element of some causal pair. */
  lemma ClearedRemovesCauses(causal: set<Pair>, par: set<Pair>, to: set<Activity>)
    ensures Cleared(to, XL(causal, par)) == to - (set c | c in causal :: c.0)
  {
    var xl := XL(causal, par);
    forall t | t in to
      ensures SoleProducer(xl, t) <==> exists c :: c in causal && c.0 == t
    {
      if c :| c in causal && c.0 == t {
        XLContainsCausal(causal, par, c);
        assert Candidate({c.0}, {c.1}).producers == {t};
      }
      forall x | x in xl && x.producers == {t}
        ensures exists c :: c in causal && c.0 == t
      {
        XLShape(causal, par, x);
        forall c: Pair | c in causal && x == Candidate({c.0}, {c.1})
          ensures exists c :: c in causal && c.0 == t
        {
          assert c.0 in {t};
        }
        forall a, q: Pair | q in par && (a, q.0) in causal && (a, q.1) in causal && x == Candidate({a}, {q.0, q.1})
          ensures exists c :: c in causal && c.0 == t
        {
          assert a in {t} && (a, q.0).0 == t;
        }
        forall q: Pair, b | q in par && (q.0, b) in causal && (q.1, b) in causal && x == Candidate({q.0, q.1}, {b})
          ensures exists c :: c in causal && c.0 == t
        {
          assert q.0 in {t} && (q.0, b).0 == t;
        }
      }
    }
  }
}
