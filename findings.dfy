/** Place candidates as the source stores them, and its subset test on them.
    A side is either one label or a tuple of two labels; the subset test
    first turns a side into a set by iterating over it, and iterating over a
    lone label yields its one-character strings, not the label. */
module RawCandidates {
  import opened Traces
  import opened Orderings
  import opened Candidates
  import opened Miner

  /** One side of a stored candidate: a causal pair contributes a lone
      label, a parallel pair a tuple of two labels. */
  datatype Side = Label(name: Activity) | Tuple(first: Activity, second: Activity)

  datatype RawCandidate = RawCandidate(producers: Side, consumers: Side)

  /** What iterating over a side yields. */
  function Elements(s: Side): set<string> {
    match s
    case Label(name) => set i | 0 <= i < |name| :: [name[i]]
    case Tuple(first, second) => {first, second}
  }

  /** The activities a side stands for. */
  function Meaning(s: Side): (r: set<Activity>)
    ensures r != {}
  {
    match s
    case Label(name) => {name}
    case Tuple(first, second) => {first, second}
  }

  function Decode(x: RawCandidate): Candidate {
    Candidate(Meaning(x.producers), Meaning(x.consumers))
  }

  /** The subset test of create_yl_set, on the iterated sides. */
  predicate RawCovers(y: RawCandidate, x: RawCandidate) {
    Elements(x.producers) <= Elements(y.producers) && Elements(x.consumers) <= Elements(y.consumers)
  }

  /** YL as create_yl_set computes it on stored candidates. */
  function RawYL(xl: set<RawCandidate>): (yl: set<RawCandidate>)
    ensures yl <= xl
    ensures forall x :: x in xl && x !in yl ==> exists y :: y in xl && y != x && RawCovers(y, x)
  {
    set x | x in xl && forall y :: y in xl && y != x ==> !RawCovers(y, x)
  }

  /** On a side whose labels are single characters, iterating over it yields
      exactly the activities it stands for; the test goes wrong only on
      longer labels. */
  lemma ElementsOfShortLabels(s: Side)
    requires s.Label? ==> |s.name| == 1
    ensures Elements(s) == Meaning(s)
  {
    if s.Label? {
      assert [s.name[0]] == s.name;
    }
  }

  /** XL of the log [["a", "c"], ["ab", "c"]]: its two causal pairs and nothing else. */
  lemma MixedLengthLabelsXL()
    ensures AlphaXL([["a", "c"], ["ab", "c"]]) == {Candidate({"a"}, {"c"}), Candidate({"ab"}, {"c"})}
  {
    var log := [["a", "c"], ["ab", "c"]];
    assert log[..1] == [["a", "c"]] && log[..1][..0] == [];
    assert ["a", "c"][..1] == ["a"] && ["ab", "c"][..1] == ["ab"];
    assert Adjacent(["a", "c"]) == {("a", "c")} && Adjacent(["ab", "c"]) == {("ab", "c")};
    assert DirectlyFollows(log[..1]) == {("a", "c")};
    var df := DirectlyFollows(log);
    assert df == {("a", "c"), ("ab", "c")};
    assert Causal(df) == df;
    assert BothWays(df) == {};
  }

  /** The log [["a", "c"], ["ab", "c"]]: both ("a", "c") and ("ab", "c") are
      causal and nothing is parallel, so both are maximal place candidates;
      the stored-candidate test drops ("a", "c") because the characters of
      "a" lie among those of "ab". */
  lemma CharSplitDropsPlace()
    ensures Decode(RawCandidate(Label("a"), Label("c"))) in AlphaXL([["a", "c"], ["ab", "c"]])
    ensures Decode(RawCandidate(Label("ab"), Label("c"))) in AlphaXL([["a", "c"], ["ab", "c"]])
    ensures AlphaPlaces([["a", "c"], ["ab", "c"]]) == {Candidate({"a"}, {"c"}), Candidate({"ab"}, {"c"})}
    ensures RawYL({RawCandidate(Label("a"), Label("c")), RawCandidate(Label("ab"), Label("c"))})
            == {RawCandidate(Label("ab"), Label("c"))}
  {
    var ac, abc := RawCandidate(Label("a"), Label("c")), RawCandidate(Label("ab"), Label("c"));
    MixedLengthLabelsXL();
    assert "a" != "ab" && "a" !in {"ab"} && "ab" !in {"a"};
    assert ["a"[0]] == "a" && ["ab"[0]] == "a" && ["ab"[1]] == "b";
    assert "a" in Elements(Label("ab"));
    assert Elements(Label("a")) == {"a"};
    assert "b" in Elements(Label("ab")) && "b" !in Elements(Label("a"));
    assert RawCovers(abc, ac) && !RawCovers(ac, abc);
  }
}
