/** The whole mining run: from an event log to the Petri net the Alpha
    algorithm derives from it. */
module Miner {
  import opened Traces
  import opened Orderings
  import opened Candidates
  import opened EndSet
  import opened PetriNets

  /** XL of a log, offering every pair seen in both orders as parallel; by
      XLOrderIndependent this is XL for whichever orientations the parallel
      set kept. */
  function AlphaXL(log: Log): set<Candidate> {
    var df := DirectlyFollows(log);
    XL(Causal(df), BothWays(df))
  }

  /** The candidates that become numbered places. */
  function AlphaPlaces(log: Log): set<Candidate> {
    YL(AlphaXL(log))
  }

  /** The final activities that keep an arc into End. */
  function AlphaEnd(log: Log): set<Activity>
    requires NonEmptyTraces(log)
  {
    Cleared(FinalActivities(log), AlphaXL(log))
  }

  /** The arcs of the mined net when its numbered places were built in the
      order given. */
  function AlphaArcs(log: Log, order: seq<Candidate>): set<Arc>
    requires NonEmptyTraces(log)
  {
    BuiltArcs(InitialActivities(log), AlphaEnd(log), order)
  }

  /** Both sides of every XL candidate are activities of the log, so every
      arc gen_places draws has a transition at its end. */
  lemma CandidatesWithinActivities(log: Log, x: Candidate)
    requires x in AlphaXL(log)
    ensures x.producers <= Activities(log) && x.consumers <= Activities(log)
  {
    var df := DirectlyFollows(log);
    DirectlyFollowsWithinActivities(log);
    XLShape(Causal(df), BothWays(df), x);
  }

  /** Every place candidate satisfies the candidate invariant: non-empty
      sides, every producer causes every consumer, and neither side holds a
      causal pair. */
  lemma AlphaPlacesWellFormed(log: Log, y: Candidate)
    requires y in AlphaPlaces(log)
    ensures WellFormedCandidate(Causal(DirectlyFollows(log)), y)
  {
    var df := DirectlyFollows(log);
    XLWellFormed(df, BothWays(df), y);
  }

  /** Reading the mined net back: Start feeds exactly Ti and is fed by
      nothing, End is fed by exactly the cleaned To and feeds nothing, place
      str(k) reads as the k-th candidate walked, and the numbered places
      together read as exactly YL. */
  lemma NetDecodes(log: Log, order: seq<Candidate>)
    requires NonEmptyTraces(log) && Enumerates(order, AlphaPlaces(log))
    ensures PlaceCandidate(AlphaArcs(log, order), Start) == Candidate({}, InitialActivities(log))
    ensures PlaceCandidate(AlphaArcs(log, order), End) == Candidate(AlphaEnd(log), {})
    ensures forall k :: 1 <= k <= |order| ==> PlaceCandidate(AlphaArcs(log, order), Numbered(k)) == order[k - 1]
    ensures NumberedCandidates(AlphaArcs(log, order), |order|) == AlphaPlaces(log)
  {
    BuiltArcsDecode(InitialActivities(log), AlphaEnd(log), order);
    BuiltPlacesDecode(InitialActivities(log), AlphaEnd(log), order, AlphaPlaces(log));
  }

  /** The directly-follows set and XL of the single trace [x, y]. */
  lemma SequentialLogRelations()
    ensures DirectlyFollows([["x", "y"]]) == {("x", "y")}
    ensures AlphaXL([["x", "y"]]) == {Candidate({"x"}, {"y"})}
  {
    var log := [["x", "y"]];
    assert log[..0] == [] && ["x", "y"][..1] == ["x"];
    assert Adjacent(["x", "y"]) == {("x", "y")};
    var df := DirectlyFollows(log);
    assert df == {("x", "y")};
    assert Causal(df) == df && BothWays(df) == {};
  }

  /** A single strictly sequential trace [x, y] yields one place, from x to y. */
  lemma SequentialLogPlaces()
    ensures AlphaPlaces([["x", "y"]]) == {Candidate({"x"}, {"y"})}
  {
    SequentialLogRelations();
    var only := Candidate({"x"}, {"y"});
    assert IsMaximal(only, {only});
  }

  /** A single strictly sequential trace [x, y]: Start feeds x. */
  lemma SequentialLogStart()
    ensures InitialActivities([["x", "y"]]) == {"x"}
  {
    InitialOfOne([["x", "y"]]);
  }

  /** A single strictly sequential trace [x, y]: y keeps its arc into End,
      since it causes nothing. */
  lemma SequentialLogEnd()
    ensures AlphaEnd([["x", "y"]]) == {"y"}
  {
    var log := [["x", "y"]];
    FinalOfOne(log);
    SequentialLogRelations();
    var only := Candidate({"x"}, {"y"});
    assert "x" in only.producers && "x" != "y";
    assert Cleared({"y"}, {only}) == {"y"};
  }

  /** The script: Tl, Ti and To from the log, the directly-follows, causal
      and parallel sets, XL and YL, the clean-up of To against XL, and then
      the net: transitions, Start, End and one place per YL candidate, walked
      in the ghost order returned. */
  method Mine(log: Log) returns (net: PetriNet, ghost order: seq<Candidate>)
    requires NonEmptyTraces(log)
    ensures net.Valid()
    ensures net.transitions == Activities(log)
    ensures Enumerates(order, AlphaPlaces(log))
    ensures net.places == WithNumbered(StartAndEnd, |order|)
    ensures net.arcs == AlphaArcs(log, order)
  {
    var traceSet := Activities(log);
    var initActivities := InitialActivities(log);
    var endActivities := FinalActivities(log);
    var taskSequenceSet := CreateTaskSequenceSet(log);
    var causalSet := CreateCausalSet(taskSequenceSet);
    var parallelSet := CreateParallelSet(taskSequenceSet);
    var xlSet := CreateXlSet(causalSet, parallelSet);
    var ylSet := CreateYlSet(xlSet);
    endActivities := ClearToSet(endActivities, xlSet);
    XLOrderIndependent(taskSequenceSet, parallelSet);
    assert xlSet == AlphaXL(log) && ylSet == AlphaPlaces(log);
    forall y | y in ylSet
      ensures y.producers <= traceSet && y.consumers <= traceSet
    {
      CandidatesWithinActivities(log, y);
    }
    net, order := BuildNet(traceSet, initActivities, endActivities, ylSet);
  }
}
