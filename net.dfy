/** The Petri net under construction and the four steps that fill it:
    transitions, the Start place, the End place and one place per YL candidate. */
module PetriNets {
  import opened Traces
  import opened Candidates

  /** Place names: "Start", "End", and str(i) for the i-th candidate place. */
  datatype PlaceName = Start | End | Numbered(index: nat)

  datatype Node = PlaceNode(place: PlaceName) | TransitionNode(activity: Activity)

  /** A directed arc, from its source node to its target node. */
  type Arc = (Node, Node)

  /** The net's static structure. A marking is the multiset of token values a
      place holds: Place('Start', [1]) holds one token of value 1. */
  class PetriNet {
    var transitions: set<Activity>
    var places: map<PlaceName, multiset<int>>
    var arcs: set<Arc>

    /** An empty net. */
    constructor ()
      ensures transitions == {} && places == map[] && arcs == {}
      ensures Valid()
    {
      transitions, places, arcs := {}, map[], {};
    }

    /** Every arc joins an existing place and an existing transition, in one
        direction or the other. */
    predicate Valid()
      reads this
    {
      forall arc :: arc in arcs ==>
        || (arc.0.PlaceNode? && arc.0.place in places && arc.1.TransitionNode? && arc.1.activity in transitions)
        || (arc.0.TransitionNode? && arc.0.activity in transitions && arc.1.PlaceNode? && arc.1.place in places)
    }
  }

  /** Arcs from a place to each of the given activities (add_input). */
  function ArcsFromPlace(p: PlaceName, acts: set<Activity>): (r: set<Arc>)
    ensures forall arc :: arc in r ==> arc.0 == PlaceNode(p) && arc.1.TransitionNode? && arc.1.activity in acts
    ensures forall a :: a in acts ==> (PlaceNode(p), TransitionNode(a)) in r
  {
    set a | a in acts :: (PlaceNode(p), TransitionNode(a))
  }

  /** Arcs from each of the given activities to a place (add_output). */
  function ArcsToPlace(acts: set<Activity>, p: PlaceName): (r: set<Arc>)
    ensures forall arc :: arc in r ==> arc.1 == PlaceNode(p) && arc.0.TransitionNode? && arc.0.activity in acts
    ensures forall a :: a in acts ==> (TransitionNode(a), PlaceNode(p)) in r
  {
    set a | a in acts :: (TransitionNode(a), PlaceNode(p))
  }

  /** The arcs of the place numbered i built for candidate x. */
  function CandidateArcs(x: Candidate, i: nat): set<Arc> {
    ArcsToPlace(x.producers, Numbered(i)) + ArcsFromPlace(Numbered(i), x.consumers)
  }

  /** The arcs of the places numbered 1 .. |order| built for the candidates of order. */
  function PlaceArcs(order: seq<Candidate>): set<Arc>
  {
    if order == [] then {} else PlaceArcs(order[..|order| - 1]) + CandidateArcs(order[|order| - 1], |order|)
  }

  /** The names "1" .. str(n). */
  function NumberedNames(n: nat): set<PlaceName> {
    set k | 1 <= k <= n :: Numbered(k)
  }

  /** The places of m together with the places "1" .. str(n), each of those
      created with no tokens. */
  function WithNumbered(m: map<PlaceName, multiset<int>>, n: nat): map<PlaceName, multiset<int>> {
    if n == 0 then m else WithNumbered(m, n - 1)[Numbered(n) := multiset{}]
  }

  /** The activities with an arc into place p. */
  function Preset(arcs: set<Arc>, p: PlaceName): (r: set<Activity>)
    ensures forall a :: a in r <==> (TransitionNode(a), PlaceNode(p)) in arcs
  {
    set arc | arc in arcs && arc.1 == PlaceNode(p) && arc.0.TransitionNode? :: arc.0.activity
  }

  /** The activities with an arc from place p. */
  function Postset(arcs: set<Arc>, p: PlaceName): (r: set<Activity>)
    ensures forall a :: a in r <==> (PlaceNode(p), TransitionNode(a)) in arcs
  {
    set arc | arc in arcs && arc.0 == PlaceNode(p) && arc.1.TransitionNode? :: arc.1.activity
  }

  /** The candidate a place stands for: its preset and its postset. */
  function PlaceCandidate(arcs: set<Arc>, p: PlaceName): Candidate {
    Candidate(Preset(arcs, p), Postset(arcs, p))
  }

  /** Adding the arcs of candidate x as place str(i) changes only what place
      str(i) reads as, and place str(i) then also reads as x. */
  lemma CandidateArcsDecode(arcs: set<Arc>, x: Candidate, i: nat, p: PlaceName)
    ensures Preset(arcs + CandidateArcs(x, i), p) == Preset(arcs, p) + (if p == Numbered(i) then x.producers else {})
    ensures Postset(arcs + CandidateArcs(x, i), p) == Postset(arcs, p) + (if p == Numbered(i) then x.consumers else {})
  {
  }

  /** Decoding the places built for order: place str(k) reads as order[k - 1],
      and every other place has no arc from these candidates at all. */
  lemma {:induction false} PlaceArcsDecode(order: seq<Candidate>, p: PlaceName)
    ensures Preset(PlaceArcs(order), p) == (if p.Numbered? && 1 <= p.index <= |order| then order[p.index - 1].producers else {})
    ensures Postset(PlaceArcs(order), p) == (if p.Numbered? && 1 <= p.index <= |order| then order[p.index - 1].consumers else {})
  {
    if order != [] {
      var n := |order|;
      var front := order[..n - 1];
      PlaceArcsDecode(front, p);
      CandidateArcsDecode(PlaceArcs(front), order[n - 1], n, p);
      if p.Numbered? && 1 <= p.index < n {
        assert front[p.index - 1] == order[p.index - 1];
      }
    }
  }

  /** The arcs of a net whose Start place feeds ti, whose End place is fed
      by to, and whose numbered places were built for the candidates of order. */
  function BuiltArcs(ti: set<Activity>, to: set<Activity>, order: seq<Candidate>): set<Arc> {
    ArcsFromPlace(Start, ti) + ArcsToPlace(to, End) + PlaceArcs(order)
  }

  lemma BuiltArcsAt(ti: set<Activity>, to: set<Activity>, order: seq<Candidate>, p: PlaceName)
    ensures Preset(BuiltArcs(ti, to, order), p) == (if p == End then to else {}) + Preset(PlaceArcs(order), p)
    ensures Postset(BuiltArcs(ti, to, order), p) == (if p == Start then ti else {}) + Postset(PlaceArcs(order), p)
  {
  }

  /** Reading such a net back: Start reads as ({}, ti), End as (to, {}) and
      place str(k) as the k-th candidate of order. */
  lemma BuiltArcsDecode(ti: set<Activity>, to: set<Activity>, order: seq<Candidate>)
    ensures PlaceCandidate(BuiltArcs(ti, to, order), Start) == Candidate({}, ti)
    ensures PlaceCandidate(BuiltArcs(ti, to, order), End) == Candidate(to, {})
    ensures forall k :: 1 <= k <= |order| ==> PlaceCandidate(BuiltArcs(ti, to, order), Numbered(k)) == order[k - 1]
  {
    BuiltArcsAt(ti, to, order, Start);
    PlaceArcsDecode(order, Start);
    BuiltArcsAt(ti, to, order, End);
    PlaceArcsDecode(order, End);
    forall k | 1 <= k <= |order|
      ensures PlaceCandidate(BuiltArcs(ti, to, order), Numbered(k)) == order[k - 1]
    {
      BuiltArcsAt(ti, to, order, Numbered(k));
      PlaceArcsDecode(order, Numbered(k));
    }
  }

  /** What the places "1" .. str(n) of a net read as. */
  function NumberedCandidates(arcs: set<Arc>, n: nat): set<Candidate> {
    set k | 1 <= k <= n :: PlaceCandidate(arcs, Numbered(k))
  }

  /** When order walks the set s once, the numbered places of the built net
      read back as exactly s. */
  lemma BuiltPlacesDecode(ti: set<Activity>, to: set<Activity>, order: seq<Candidate>, s: set<Candidate>)
    requires Enumerates(order, s)
    ensures NumberedCandidates(BuiltArcs(ti, to, order), |order|) == s
  {
    var arcs := BuiltArcs(ti, to, order);
    BuiltArcsDecode(ti, to, order);
    forall y | y in s ensures y in NumberedCandidates(arcs, |order|) {
      var j :| 0 <= j < |order| && order[j] == y;
      assert PlaceCandidate(arcs, Numbered(j + 1)) == y;
    }
  }

  /** The places of WithNumbered(m, n): those of m, unchanged, and the empty
      places "1" .. str(n). */
  lemma {:induction false} WithNumberedPlaces(m: map<PlaceName, multiset<int>>, n: nat)
    requires forall p :: p in m ==> !p.Numbered?
    ensures WithNumbered(m, n).Keys == m.Keys + NumberedNames(n)
    ensures forall p :: p in m ==> WithNumbered(m, n)[p] == m[p]
    ensures forall k :: 1 <= k <= n ==> WithNumbered(m, n)[Numbered(k)] == multiset{}
  {
    if n > 0 {
      WithNumberedPlaces(m, n - 1);
      assert NumberedNames(n) == NumberedNames(n - 1) + {Numbered(n)};
    }
  }

  /** gen_transitions: one transition per activity of Tl. */
  method GenTransitions(net: PetriNet, traceSet: set<Activity>)
    requires net.Valid()
    modifies net
    ensures net.Valid()
    ensures net.transitions == old(net.transitions) + traceSet
    ensures net.places == old(net.places) && net.arcs == old(net.arcs)
  {
    var rest := traceSet;
    while rest != {}
      invariant rest <= traceSet
      invariant net.transitions == old(net.transitions) + (traceSet - rest)
      invariant net.places == old(net.places) && net.arcs == old(net.arcs)
      invariant net.Valid()
    {
      var t :| t in rest;
      net.transitions := net.transitions + {t};
      rest := rest - {t};
    }
  }

  /** An arc from every activity of acts into the existing place p (add_output). */
  method ConnectProducers(net: PetriNet, acts: set<Activity>, p: PlaceName)
    requires net.Valid() && acts <= net.transitions && p in net.places
    modifies net
    ensures net.Valid()
    ensures net.arcs == old(net.arcs) + ArcsToPlace(acts, p)
    ensures net.places == old(net.places) && net.transitions == old(net.transitions)
  {
    var a := acts;
    while a != {}
      invariant a <= acts
      invariant net.arcs == old(net.arcs) + ArcsToPlace(acts - a, p)
      invariant net.places == old(net.places) && net.transitions == old(net.transitions)
      invariant net.Valid()
    {
      var activity :| activity in a;
      net.arcs := net.arcs + {(TransitionNode(activity), PlaceNode(p))};
      a := a - {activity};
    }
  }

  /** An arc from the existing place p to every activity of acts (add_input). */
  method ConnectConsumers(net: PetriNet, p: PlaceName, acts: set<Activity>)
    requires net.Valid() && acts <= net.transitions && p in net.places
    modifies net
    ensures net.Valid()
    ensures net.arcs == old(net.arcs) + ArcsFromPlace(p, acts)
    ensures net.places == old(net.places) && net.transitions == old(net.transitions)
  {
    var b := acts;
    while b != {}
      invariant b <= acts
      invariant net.arcs == old(net.arcs) + ArcsFromPlace(p, acts - b)
      invariant net.places == old(net.places) && net.transitions == old(net.transitions)
      invariant net.Valid()
    {
      var activity :| activity in b;
      net.arcs := net.arcs + {(PlaceNode(p), TransitionNode(activity))};
      b := b - {activity};
    }
  }

  /** set_start_place: a Start place holding one token of value 1, with an arc
      from it to every initial activity. */
  method SetStartPlace(net: PetriNet, initActivities: set<Activity>)
    requires net.Valid() && initActivities <= net.transitions
    modifies net
    ensures net.Valid()
    ensures net.places == old(net.places)[Start := multiset{1}]
    ensures net.arcs == old(net.arcs) + ArcsFromPlace(Start, initActivities)
    ensures net.transitions == old(net.transitions)
  {
    net.places := net.places[Start := multiset{1}];
    ConnectConsumers(net, Start, initActivities);
  }

  /** set_end_place: an End place created as Place('End', [0]), so holding one
      token of value 0, with an arc from every final activity to it. */
  method SetEndPlace(net: PetriNet, endActivities: set<Activity>)
    requires net.Valid() && endActivities <= net.transitions
    modifies net
    ensures net.Valid()
    ensures net.places == old(net.places)[End := multiset{0}]
    ensures net.arcs == old(net.arcs) + ArcsToPlace(endActivities, End)
    ensures net.transitions == old(net.transitions)
  {
    net.places := net.places[End := multiset{0}];
    ConnectProducers(net, endActivities, End);
  }

  /** The body of gen_places for one candidate (A, B): an empty place str(i),
      an arc from every activity of A into it and an arc from it to every
      activity of B. */
  method AddCandidatePlace(net: PetriNet, x: Candidate, i: nat)
    requires net.Valid()
    requires x.producers <= net.transitions && x.consumers <= net.transitions
    modifies net
    ensures net.Valid()
    ensures net.places == old(net.places)[Numbered(i) := multiset{}]
    ensures net.arcs == old(net.arcs) + CandidateArcs(x, i)
    ensures net.transitions == old(net.transitions)
  {
    net.places := net.places[Numbered(i) := multiset{}];
    ConnectProducers(net, x.producers, Numbered(i));
    ConnectConsumers(net, Numbered(i), x.consumers);
  }

  /** order lists every element of s exactly once. */
  predicate Enumerates<T>(order: seq<T>, s: set<T>) {
    && |order| == |s|
    && (forall k :: 0 <= k < |order| ==> order[k] in s)
    && (forall y :: y in s ==> y in order)
    && (forall j, k :: 0 <= j < k < |order| ==> order[j] != order[k])
  }

  lemma EnumeratesStep<T>(order: seq<T>, done: set<T>, x: T)
    requires Enumerates(order, done) && x !in done
    ensures Enumerates(order + [x], done + {x})
  {
  }

  /** The state gen_places has reached once it has walked the candidates of
      order: on top of the net it started from (places0, arcs0, transitions0)
      the places "1" .. str(|order|) and their arcs. */
  predicate PlacesAdded(net: PetriNet, places0: map<PlaceName, multiset<int>>, arcs0: set<Arc>,
                        transitions0: set<Activity>, order: seq<Candidate>)
    reads net
  {
    && net.Valid()
    && net.places == WithNumbered(places0, |order|)
    && net.arcs == arcs0 + PlaceArcs(order)
    && net.transitions == transitions0
  }

  /** One turn of the gen_places loop: the place for candidate x gets the next number. */
  method AddNextPlace(net: PetriNet, ghost places0: map<PlaceName, multiset<int>>, ghost arcs0: set<Arc>,
                      ghost transitions0: set<Activity>, ghost order: seq<Candidate>, x: Candidate, i: nat)
    requires PlacesAdded(net, places0, arcs0, transitions0, order) && i == |order| + 1
    requires x.producers <= transitions0 && x.consumers <= transitions0
    modifies net
    ensures PlacesAdded(net, places0, arcs0, transitions0, order + [x])
  {
    AddCandidatePlace(net, x, i);
    assert (order + [x])[..|order|] == order;
  }

  /** gen_places: walks YL with a counter i starting at 1 and adds place str(i)
      for each candidate. The walk order, which the source leaves to set
      iteration, is returned as the ghost sequence order: place str(k + 1)
      belongs to order[k]. */
  method GenPlaces(net: PetriNet, ylSet: set<Candidate>) returns (ghost order: seq<Candidate>)
    requires net.Valid()
    requires forall y :: y in ylSet ==> y.producers <= net.transitions && y.consumers <= net.transitions
    modifies net
    ensures Enumerates(order, ylSet)
    ensures PlacesAdded(net, old(net.places), old(net.arcs), old(net.transitions), order)
  {
    order := [];
    var i := 1;
    var rest := ylSet;
    ghost var done: set<Candidate> := {};
    while rest != {}
      invariant done + rest == ylSet && done !! rest && i == |order| + 1
      invariant Enumerates(order, done)
      invariant PlacesAdded(net, old(net.places), old(net.arcs), old(net.transitions), order)
    {
      var x :| x in rest;
      AddNextPlace(net, old(net.places), old(net.arcs), old(net.transitions), order, x, i);
      EnumeratesStep(order, done, x);
      order := order + [x];
      done := done + {x};
      i := i + 1;
      rest := rest - {x};
    }
  }

  /** The places the net holds before the numbered ones: Start with one token
      of value 1 and End with one token of value 0. */
  const StartAndEnd: map<PlaceName, multiset<int>> := map[Start := multiset{1}, End := multiset{0}]

  /** The net-building half of the script on a fresh net: gen_transitions,
      set_start_place, set_end_place and gen_places, in that order. */
  method BuildNet(traceSet: set<Activity>, initActivities: set<Activity>, endActivities: set<Activity>,
                  ylSet: set<Candidate>) returns (net: PetriNet, ghost order: seq<Candidate>)
    requires initActivities <= traceSet && endActivities <= traceSet
    requires forall y :: y in ylSet ==> y.producers <= traceSet && y.consumers <= traceSet
    ensures net.Valid()
    ensures net.transitions == traceSet
    ensures Enumerates(order, ylSet)
    ensures net.places == WithNumbered(StartAndEnd, |order|)
    ensures net.arcs == BuiltArcs(initActivities, endActivities, order)
  {
    net := new PetriNet();
    GenTransitions(net, traceSet);
    SetStartPlace(net, initActivities);
    SetEndPlace(net, endActivities);
    assert net.places == StartAndEnd;
    order := GenPlaces(net, ylSet);
  }
}
