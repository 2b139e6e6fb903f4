/** Place candidates: the set XL grown from the causal and parallel
    relations, and its subset-maximal part YL. */
module Candidates {
  import opened Traces
  import opened Orderings

  /** A hypothesised place: the activities that put a token into it and the
      activities that take one out. */
  datatype Candidate = Candidate(producers: set<Activity>, consumers: set<Activity>)

  /** The causal pair (a, b) read as the candidate ({a}, {b}). */
  function Singleton(c: Pair): Candidate {
    Candidate({c.0}, {c.1})
  }

  function Singletons(causal: set<Pair>): set<Candidate> {
    set c | c in causal :: Singleton(c)
  }

  /** What one parallel pair q and one causal pair c add to XL: a split
      ({c.0}, {q.0, q.1}) when c.0 causes both members of q, and a join
      ({q.0, q.1}, {c.1}) when both members of q cause c.1. */
  function Extend(causal: set<Pair>, q: Pair, c: Pair): set<Candidate> {
    (if (c.0, q.0) in causal && (c.0, q.1) in causal then {Candidate({c.0}, {q.0, q.1})} else {})
    + (if (q.0, c.1) in causal && (q.1, c.1) in causal then {Candidate({q.0, q.1}, {c.1})} else {})
  }

  /** Everything the parallel pairs qs and the causal pairs cs add together. */
  function Extensions(causal: set<Pair>, qs: set<Pair>, cs: set<Pair>): set<Candidate> {
    set q, c, x | q in qs && c in cs && x in Extend(causal, q, c) :: x
  }

  /** XL: the causal pairs as singleton candidates, plus one level of
      extension by parallel pairs. */
  function XL(causal: set<Pair>, par: set<Pair>): set<Candidate> {
    Singletons(causal) + Extensions(causal, par, causal)
  }

  lemma ExtensionsAddCause(causal: set<Pair>, q: Pair, cs: set<Pair>, c: Pair)
    ensures Extensions(causal, {q}, cs + {c}) == Extensions(causal, {q}, cs) + Extend(causal, q, c)
  {
  }

  lemma ExtensionsAddParallel(causal: set<Pair>, qs: set<Pair>, q: Pair)
    ensures Extensions(causal, qs + {q}, causal) == Extensions(causal, qs, causal) + Extensions(causal, {q}, causal)
  {
  }

  /** create_xl_set: starts from the causal pairs and, for every parallel
      pair and every causal pair, adds the split and the join they allow. */
  method CreateXlSet(causalsSet: set<Pair>, parallelsSet: set<Pair>) returns (xl: set<Candidate>)
    ensures xl == XL(causalsSet, parallelsSet)
  {
    xl := set c | c in causalsSet :: Singleton(c);
    var prest := parallelsSet;
    while prest != {}
      invariant prest <= parallelsSet
      invariant xl == Singletons(causalsSet) + Extensions(causalsSet, parallelsSet - prest, causalsSet)
    {
      var parallels :| parallels in prest;
      var crest := causalsSet;
      ghost var done := parallelsSet - prest;
      while crest != {}
        invariant crest <= causalsSet
        invariant xl == Singletons(causalsSet) + Extensions(causalsSet, done, causalsSet)
                        + Extensions(causalsSet, {parallels}, causalsSet - crest)
      {
        var causals :| causals in crest;
        ExtensionsAddCause(causalsSet, parallels, causalsSet - crest, causals);
        if (causals.0, parallels.0) in causalsSet && (causals.0, parallels.1) in causalsSet {
          xl := xl + {Candidate({causals.0}, {parallels.0, parallels.1})};
        }
        if (parallels.0, causals.1) in causalsSet && (parallels.1, causals.1) in causalsSet {
          xl := xl + {Candidate({parallels.0, parallels.1}, {causals.1})};
        }
        assert causalsSet - (crest - {causals}) == (causalsSet - crest) + {causals};
        crest := crest - {causals};
      }
      ExtensionsAddParallel(causalsSet, done, parallels);
      assert parallelsSet - (prest - {parallels}) == done + {parallels};
      prest := prest - {parallels};
    }
  }

  /** Every causal pair (a, b) is in XL as ({a}, {b}). */
  lemma XLContainsCausal(causal: set<Pair>, par: set<Pair>, c: Pair)
    requires c in causal
    ensures Candidate({c.0}, {c.1}) in XL(causal, par)
  {
    assert Singleton(c) in Singletons(causal);
  }

  /** ({a}, {p, q}) is in XL for the parallel pair (p, q) exactly when a causes both p and q. */
  lemma XLSplit(causal: set<Pair>, par: set<Pair>, a: Activity, q: Pair)
    requires q in par
    ensures Candidate({a}, {q.0, q.1}) in XL(causal, par) <==> (a, q.0) in causal && (a, q.1) in causal
  {
    var x := Candidate({a}, {q.0, q.1});
    if (a, q.0) in causal && (a, q.1) in causal {
      assert x in Extend(causal, q, (a, q.0));
    }
    if x in XL(causal, par) {
      XLShape(causal, par, x);
      forall c: Pair | c in causal && x == Candidate({c.0}, {c.1})
        ensures (a, q.0) in causal && (a, q.1) in causal
      {
        SameSingleton(a, c.0);
        PairInSingleton(q.0, q.1, c.1);
      }
      forall a': Activity, q': Pair | q' in par && (a', q'.0) in causal && (a', q'.1) in causal && x == Candidate({a'}, {q'.0, q'.1})
        ensures (a, q.0) in causal && (a, q.1) in causal
      {
        SameSingleton(a, a');
        PairInPair(q.0, q.1, q'.0, q'.1);
      }
      forall q': Pair, b: Activity | q' in par && (q'.0, b) in causal && (q'.1, b) in causal && x == Candidate({q'.0, q'.1}, {b})
        ensures (a, q.0) in causal && (a, q.1) in causal
      {
        PairInSingleton(q'.0, q'.1, a);
        PairInSingleton(q.0, q.1, b);
      }
    }
  }

  /** ({p, q}, {b}) is in XL for the parallel pair (p, q) exactly when both p and q cause b. */
  lemma XLJoin(causal: set<Pair>, par: set<Pair>, q: Pair, b: Activity)
    requires q in par
    ensures Candidate({q.0, q.1}, {b}) in XL(causal, par) <==> (q.0, b) in causal && (q.1, b) in causal
  {
    var x := Candidate({q.0, q.1}, {b});
    if (q.0, b) in causal && (q.1, b) in causal {
      assert x in Extend(causal, q, (q.0, b));
    }
    if x in XL(causal, par) {
      XLShape(causal, par, x);
      forall c: Pair | c in causal && x == Candidate({c.0}, {c.1})
        ensures (q.0, b) in causal && (q.1, b) in causal
      {
        SameSingleton(b, c.1);
        PairInSingleton(q.0, q.1, c.0);
      }
      forall a: Activity, q': Pair | q' in par && (a, q'.0) in causal && (a, q'.1) in causal && x == Candidate({a}, {q'.0, q'.1})
        ensures (q.0, b) in causal && (q.1, b) in causal
      {
        PairInSingleton(q.0, q.1, a);
        PairInSingleton(q'.0, q'.1, b);
      }
      forall q': Pair, b': Activity | q' in par && (q'.0, b') in causal && (q'.1, b') in causal && x == Candidate({q'.0, q'.1}, {b'})
        ensures (q.0, b) in causal && (q.1, b) in causal
      {
        SameSingleton(b, b');
        PairInPair(q.0, q.1, q'.0, q'.1);
      }
    }
  }

  lemma SameSingleton(a: Activity, b: Activity)
    requires {a} == {b}
    ensures a == b
  {
    assert a in {b};
  }

  lemma PairInSingleton(p: Activity, q: Activity, a: Activity)
    requires {p, q} == {a}
    ensures p == a && q == a
  {
    assert p in {a} && q in {a};
  }

  lemma PairInPair(p: Activity, q: Activity, p': Activity, q': Activity)
    requires {p, q} == {p', q'}
    ensures (p == p' || p == q') && (q == p' || q == q')
  {
    assert p in {p', q'} && q in {p', q'};
  }

  /** XL holds nothing but the three shapes: a causal singleton, a split on a
      parallel pair fed by one cause, and a join on a parallel pair feeding one effect. */
  lemma XLShape(causal: set<Pair>, par: set<Pair>, x: Candidate)
    requires x in XL(causal, par)
    ensures || (exists c :: c in causal && x == Candidate({c.0}, {c.1}))
            || (exists a, q :: q in par && (a, q.0) in causal && (a, q.1) in causal && x == Candidate({a}, {q.0, q.1}))
            || (exists q, b :: q in par && (q.0, b) in causal && (q.1, b) in causal && x == Candidate({q.0, q.1}, {b}))
  {
    if x !in Singletons(causal) {
      var q, c :| q in par && c in causal && x in Extend(causal, q, c);
      if x == Candidate({c.0}, {q.0, q.1}) && (c.0, q.0) in causal && (c.0, q.1) in causal {
      } else {
        assert (q.0, c.1) in causal && (q.1, c.1) in causal && x == Candidate({q.0, q.1}, {c.1});
      }
    }
  }

  /** The candidate invariant: both sides are non-empty, every producer causes
      every consumer, and no two activities on the same side are causally related. */
  predicate WellFormedCandidate(causal: set<Pair>, x: Candidate) {
    && x.producers != {} && x.consumers != {}
    && (forall a, b :: a in x.producers && b in x.consumers ==> (a, b) in causal)
    && (forall a, a' :: a in x.producers && a' in x.producers ==> (a, a') !in causal)
    && (forall b, b' :: b in x.consumers && b' in x.consumers ==> (b, b') !in causal)
  }

  /** A split ({a}, {p, q}) on a parallel pair satisfies the candidate invariant. */
  lemma SplitWellFormed(df: set<Pair>, a: Activity, q: Pair)
    requires q in BothWays(df)
    requires (a, q.0) in Causal(df) && (a, q.1) in Causal(df)
    ensures WellFormedCandidate(Causal(df), Candidate({a}, {q.0, q.1}))
  {
    assert Flip(q) in df;
  }

  /** A join ({p, q}, {b}) on a parallel pair satisfies the candidate invariant. */
  lemma JoinWellFormed(df: set<Pair>, q: Pair, b: Activity)
    requires q in BothWays(df)
    requires (q.0, b) in Causal(df) && (q.1, b) in Causal(df)
    ensures WellFormedCandidate(Causal(df), Candidate({q.0, q.1}, {b}))
  {
    assert Flip(q) in df;
  }

  /** Every XL candidate built from the causal relation and pairs seen in
      both orders of the same directly-follows set (any parallel selection,
      or all of them) satisfies the candidate invariant. */
  lemma XLWellFormed(df: set<Pair>, par: set<Pair>, x: Candidate)
    requires par <= BothWays(df)
    requires x in XL(Causal(df), par)
    ensures WellFormedCandidate(Causal(df), x)
  {
    var causal := Causal(df);
    if x !in Extensions(causal, par, causal) {
      var c :| c in causal && x == Singleton(c);
    } else {
      var q, c :| q in par && c in causal && x in Extend(causal, q, c);
      if x == Candidate({c.0}, {q.0, q.1}) && (c.0, q.0) in causal && (c.0, q.1) in causal {
        SplitWellFormed(df, c.0, q);
      } else {
        JoinWellFormed(df, q, c.1);
      }
    }
  }

  /** A parallel pair and its reverse extend a causal pair in the same way. */
  lemma ExtendFlip(causal: set<Pair>, q: Pair, c: Pair)
    ensures Extend(causal, Flip(q), c) == Extend(causal, q, c)
  {
    assert {q.1, q.0} == {q.0, q.1};
  }

  /** XL does not depend on which orientation of each parallel pair the
      parallel set happened to keep: it is the same as when every pair seen
      in both orders is offered. */
  lemma XLOrderIndependent(df: set<Pair>, par: set<Pair>)
    requires IsParallelSelection(df, par)
    ensures XL(Causal(df), par) == XL(Causal(df), BothWays(df))
  {
    var causal := Causal(df);
    forall x | x in Extensions(causal, BothWays(df), causal)
      ensures x in Extensions(causal, par, causal)
    {
      var q, c :| q in BothWays(df) && c in causal && x in Extend(causal, q, c);
      if q !in par {
        ExtendFlip(causal, q, c);
        assert Flip(q) in par;
      }
    }
  }

  /** y covers x when each side of x lies within the same side of y. */
  predicate Covers(y: Candidate, x: Candidate) {
    x.producers <= y.producers && x.consumers <= y.consumers
  }

  /** x is not covered by any other candidate of xl. */
  predicate IsMaximal(x: Candidate, xl: set<Candidate>) {
    forall y :: y in xl && y != x ==> !Covers(y, x)
  }

  /** YL: the subset-maximal candidates of XL. */
  function YL(xl: set<Candidate>): (yl: set<Candidate>)
    ensures yl <= xl
    ensures forall x, y :: x in yl && y in yl && x != y ==> !Covers(y, x)
  {
    set x | x in xl && IsMaximal(x, xl)
  }

  /** create_yl_set: copies xl and discards every candidate some other
      candidate of the unchanged xl covers, stopping at the first such witness. */
  method CreateYlSet(xl: set<Candidate>) returns (yl: set<Candidate>)
    ensures yl == YL(xl)
  {
    yl := xl;
    var outer := xl;
    while outer != {}
      invariant outer <= xl
      invariant yl == set z | z in xl && (z in outer || IsMaximal(z, xl))
    {
      var x :| x in outer;
      var inner := xl;
      while inner != {}
        invariant inner <= xl
        invariant forall y :: y in xl - inner && y != x ==> !Covers(y, x)
      {
        var y :| y in inner;
        if x.producers <= y.producers && x.consumers <= y.consumers {
          if x != y {
            yl := yl - {x};
            break;
          }
        }
        inner := inner - {y};
      }
      outer := outer - {x};
    }
  }

  /** The candidates of xl that strictly cover x. */
  function StrictCovers(xl: set<Candidate>, x: Candidate): set<Candidate> {
    set y | y in xl && y != x && Covers(y, x)
  }

  /** Nothing is lost by the reduction: every XL candidate is covered by (or
      is) some YL candidate. */
  lemma {:induction false} YLCoversXL(xl: set<Candidate>, x: Candidate)
    requires x in xl
    ensures exists y :: y in YL(xl) && Covers(y, x)
    decreases StrictCovers(xl, x)
  {
    if IsMaximal(x, xl) {
      assert x in YL(xl) && Covers(x, x);
    } else {
      var y :| y in xl && y != x && Covers(y, x);
      forall z | z in StrictCovers(xl, y) ensures z in StrictCovers(xl, x) {
      }
      assert y in StrictCovers(xl, x) && y !in StrictCovers(xl, y);
      YLCoversXL(xl, y);
      var w :| w in YL(xl) && Covers(w, y);
      assert Covers(w, x);
    }
  }

  /** Reducing twice gives the same set as reducing once. */
  lemma YLIdempotent(xl: set<Candidate>)
    ensures YL(YL(xl)) == YL(xl)
  {
    forall x | x in YL(xl) ensures IsMaximal(x, YL(xl)) {
    }
  }
}
