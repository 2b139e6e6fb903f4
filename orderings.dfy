/** The ordering relations derived from the directly-follows set: causal
    (seen in one order only) and parallel (seen in both orders). */
module Orderings {
  import opened Traces

  /** The reversed pair. */
  function Flip(p: Pair): Pair {
    (p.1, p.0)
  }

  /** The causal relation: the directly-follows pairs whose reverse was never observed. */
  function Causal(df: set<Pair>): (c: set<Pair>)
    ensures c <= df
    ensures forall a :: (a, a) !in c
    ensures forall a, b :: (a, b) in c ==> (b, a) !in c
    ensures forall p :: p in df && Flip(p) !in df ==> p in c
    ensures forall p :: p in c ==> Flip(p) !in df
  {
    set p | p in df && Flip(p) !in df
  }

  /** create_causal_set: one pass over the directly-follows pairs. */
  method CreateCausalSet(sequences: set<Pair>) returns (cSet: set<Pair>)
    ensures cSet == Causal(sequences)
  {
    cSet := {};
    var rest := sequences;
    while rest != {}
      invariant rest <= sequences
      invariant forall p :: p in cSet ==> p in sequences && Flip(p) !in sequences
      invariant forall p :: p in sequences - rest && Flip(p) !in sequences ==> p in cSet
    {
      var sequence :| sequence in rest;
      if (sequence.0, sequence.1) in sequences && (sequence.1, sequence.0) !in sequences {
        cSet := cSet + {sequence};
      }
      rest := rest - {sequence};
    }
  }

  /** The pairs observed in both orders. */
  function BothWays(df: set<Pair>): (r: set<Pair>)
    ensures r <= df
    ensures forall p :: p in r ==> Flip(p) in r
  {
    set p | p in df && Flip(p) in df
  }

  /** What create_parallel_set promises of the set it builds: only pairs seen
      in both orders, at least one orientation of each such pair, and never
      both orientations of two distinct activities. */
  predicate IsParallelSelection(df: set<Pair>, par: set<Pair>) {
    && par <= BothWays(df)
    && (forall p :: p in BothWays(df) ==> p in par || Flip(p) in par)
    && (forall p :: p in par && p.0 != p.1 ==> Flip(p) !in par)
  }

  /** create_parallel_set: keeps a both-ways pair unless it or its reverse is
      already kept, so which orientation survives depends on the order in
      which the set is walked. */
  method CreateParallelSet(sequences: set<Pair>) returns (pSet: set<Pair>)
    ensures IsParallelSelection(sequences, pSet)
  {
    pSet := {};
    var rest := sequences;
    while rest != {}
      invariant rest <= sequences
      invariant pSet <= BothWays(sequences) - rest
      invariant forall p :: p in BothWays(sequences) - rest ==> p in pSet || Flip(p) in pSet
      invariant forall p :: p in pSet && p.0 != p.1 ==> Flip(p) !in pSet
    {
      var sequence :| sequence in rest;
      if (sequence.0, sequence.1) in sequences && (sequence.1, sequence.0) in sequences {
        if (sequence.0, sequence.1) !in pSet && (sequence.1, sequence.0) !in pSet {
          pSet := pSet + {sequence};
        }
      }
      rest := rest - {sequence};
    }
  }

  /** Every parallel selection records the same unordered pairs: closing it
      under reversal gives back exactly the pairs seen in both orders. */
  lemma SelectionClosure(df: set<Pair>, par: set<Pair>)
    requires IsParallelSelection(df, par)
    ensures par + (set p | p in par :: Flip(p)) == BothWays(df)
  {
    var closed := par + (set p | p in par :: Flip(p));
    forall p | p in BothWays(df) ensures p in closed {
      if p !in par {
        assert Flip(p) in par && Flip(Flip(p)) == p;
      }
    }
    forall p | p in closed ensures p in BothWays(df) {
      if p !in par {
        var q :| q in par && Flip(q) == p;
      }
    }
  }

  /** A parallel selection only holds self-loops and pairs of distinct
      activities stored once: a self-loop (a, a) is kept, and of (a, b) and
      (b, a) with a != b exactly one is. */
  lemma SelectionExactlyOne(df: set<Pair>, par: set<Pair>, a: Activity, b: Activity)
    requires IsParallelSelection(df, par)
    requires (a, b) in df && (b, a) in df
    ensures a == b ==> (a, b) in par
    ensures a != b ==> ((a, b) in par <==> (b, a) !in par)
  {
    assert (a, b) in BothWays(df);
    assert Flip((a, b)) == (b, a);
  }

  /** No pair is both causal and parallel. */
  lemma ParallelDisjointFromCausal(df: set<Pair>, par: set<Pair>)
    requires IsParallelSelection(df, par)
    ensures par * Causal(df) == {}
  {
    forall p | p in par ensures p !in Causal(df) {
      assert p in BothWays(df);
    }
  }
}
