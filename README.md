# Alpha miner: a verified model

This project models the Alpha process-mining algorithm as implemented in
`alpha_miner.py`. The algorithm reads an event log: a list of traces, each
the ordered activities of one recorded case. From the log it derives:

- the activity set Tl, the initial set Ti and the final set To;
- the directly-follows pairs;
- the causal relation (pairs seen in one order only) and the parallel
  relation (pairs seen in both orders);
- the place candidates XL: each causal pair, plus the splits and joins that
  one parallel pair allows on it;
- their subset-maximal part YL;
- a clean-up of To against XL.

It then builds a Petri net with one transition per activity. A Start place
feeds Ti, an End place is fed by the cleaned To, and there is one numbered
place per YL candidate.

The model is split into modules that follow the script's stages:

| file | module | stage |
|---|---|---|
| `traces.dfy` | `Traces` | Tl, Ti, To and the directly-follows set |
| `orderings.dfy` | `Orderings` | causal and parallel relations |
| `candidates.dfy` | `Candidates` | XL and YL |
| `cleanup.dfy` | `EndSet` | the clean-up of To |
| `net.dfy` | `PetriNets` | the net under construction and the four builder steps |
| `miner.dfy` | `Miner` | the whole script, and what the finished net reads back as |
| `findings.dfy` | `RawCandidates` | candidates as the source stores them (see Findings) |

The source's loops over Python sets are methods with `while` loops. Each
loop picks an arbitrary remaining element (`var x :| x in rest`), so every
proof covers every iteration order. Most methods are proved equal to a
specification function, and the properties are proved about those
functions as lemmas. Two results depend on the iteration order, so their
methods are proved against a predicate instead:
`Orderings.CreateParallelSet` against `IsParallelSelection`, and
`PetriNets.GenPlaces` against `Enumerates` and `PlacesAdded`.

The net is a `class PetriNet`, whose builder methods update its fields in
place:

- a set of transitions;
- a map from place names to markings, where a marking is the multiset of
  token values;
- a set of arcs.

Place names are `Start`, `End` and `Numbered(i)`, which stands for `str(i)`.

Facts about the code that the model keeps as they are:

- **Empty log.** The code raises no error for an empty log. The run then yields a
  net with no transitions and only the Start and End places.
- **Empty trace.** The code raises no dedicated error for an empty trace: `trace[0]`
  simply fails. The model makes non-empty traces a precondition
  (`NonEmptyTraces`).
- **Candidate invariant.** The code never checks the candidate invariant
  and has no error for it. Instead, `Miner.AlphaPlacesWellFormed` proves that the
  invariant always holds.
- **Clean-up of To.** It runs against XL rather than YL. It removes an activity
  that equals the first component of some candidate. On XL that is exactly
  the activities that cause something (`EndSet.ClearedRemovesCauses`).
- **End place.** It is created as `Place('End', [0])`, which holds one token
  whose value is 0. It is not an empty place, and the model keeps this as
  written.
- **`create_xl_set`.** It reads the module-level `causal_set` where it
  should read its `causals_set` argument. The script passes the same set,
  so the model uses the argument.

## Model

| member | source | states |
|---|---|---|
| Traces.Activities | alpha_miner.py:22-26 | every activity at every position of every trace is in Tl |
| Traces.ActivitiesMember | alpha_miner.py:22-26 | an activity is in Tl exactly when it occurs at some position of some trace |
| Traces.InitialActivities | alpha_miner.py:29-33 | Ti lies within Tl, holds the first activity of every trace and nothing else, and is empty exactly when the log is |
| Traces.FinalActivities | alpha_miner.py:36-40 | To lies within Tl, holds the last activity of every trace and nothing else, and is empty exactly when the log is |
| Traces.InitialOfOne | alpha_miner.py:29-33 | a one-trace log has that trace's first activity as its only initial activity |
| Traces.FinalOfOne | alpha_miner.py:36-40 | a one-trace log has that trace's last activity as its only final activity |
| Traces.AdjacentMember | alpha_miner.py:47-48 | a pair is adjacent in a trace exactly when it sits at positions i and i + 1 |
| Traces.DirectlyFollowsMember | alpha_miner.py:43-49 | (x, y) is a directly-follows pair exactly when some trace holds x immediately followed by y |
| Traces.DirectlyFollowsWithinActivities | alpha_miner.py:43-49 | both members of every directly-follows pair are in Tl |
| Traces.CreateTaskSequenceSet | alpha_miner.py:43-49 | the nested loop over traces and positions builds exactly the directly-follows set |
| Orderings.Causal | alpha_miner.py:52-58 | the causal relation lies within the directly-follows set, is irreflexive and asymmetric, and holds exactly the pairs whose reverse was not observed |
| Orderings.CreateCausalSet | alpha_miner.py:52-58 | the loop keeps exactly the pairs whose reverse is absent |
| Orderings.BothWays | alpha_miner.py:61-68 | the pairs seen in both orders lie within the directly-follows set and are closed under reversal |
| Orderings.CreateParallelSet | alpha_miner.py:61-68 | whatever the iteration order, the result holds only both-ways pairs, at least one orientation of each, and never both orientations of distinct activities |
| Orderings.SelectionClosure | alpha_miner.py:61-68 | closing any parallel selection under reversal gives back exactly the both-ways pairs |
| Orderings.SelectionExactlyOne | alpha_miner.py:64-67 | a self-loop pair is kept, and of (a, b) and (b, a) with a != b exactly one is kept |
| Orderings.ParallelDisjointFromCausal | alpha_miner.py:52-68 | no pair is both causal and parallel |
| Candidates.CreateXlSet | alpha_miner.py:83-91 | the loops over parallel and causal pairs build exactly XL: the causal singletons plus the allowed splits and joins |
| Candidates.XLContainsCausal | alpha_miner.py:84 | every causal pair (a, b) is in XL as ({a}, {b}) |
| Candidates.XLSplit | alpha_miner.py:87-88 | ({a}, {p, q}) is in XL for a parallel pair (p, q) exactly when a causes both p and q |
| Candidates.XLJoin | alpha_miner.py:89-90 | ({p, q}, {b}) is in XL for a parallel pair (p, q) exactly when both p and q cause b |
| Candidates.XLShape | alpha_miner.py:83-91 | every XL candidate is a causal singleton, a split or a join |
| Candidates.SplitWellFormed | alpha_miner.py:87-88 | a split on a both-ways pair satisfies the candidate invariant |
| Candidates.JoinWellFormed | alpha_miner.py:89-90 | a join on a both-ways pair satisfies the candidate invariant |
| Candidates.XLWellFormed | alpha_miner.py:83-91 | every XL candidate has non-empty sides, every producer causes every consumer, and neither side holds a causal pair |
| Candidates.ExtendFlip | alpha_miner.py:87-90 | a parallel pair and its reverse allow the same splits and joins |
| Candidates.XLOrderIndependent | alpha_miner.py:83-91 | XL is the same whichever orientation of each parallel pair was kept |
| Candidates.YL | alpha_miner.py:94-104 | YL lies within XL and no candidate of YL covers another |
| Candidates.CreateYlSet | alpha_miner.py:94-104 | discarding each candidate that another candidate of the unchanged XL covers yields exactly the maximal candidates, whatever the order |
| Candidates.YLCoversXL | alpha_miner.py:94-104 | every XL candidate is covered by, or equal to, some YL candidate |
| Candidates.YLIdempotent | alpha_miner.py:94-104 | reducing YL again changes nothing |
| EndSet.Cleared | alpha_miner.py:107-113 | the cleaned set lies within To, and a final activity stays exactly when no candidate has it as its sole producer |
| EndSet.ClearToSet | alpha_miner.py:107-113 | the nested loop removes exactly the final activities that are the sole producer of some candidate |
| EndSet.ClearedIdempotent | alpha_miner.py:107-113 | cleaning twice gives the same set as cleaning once |
| EndSet.ClearedRemovesCauses | alpha_miner.py:107-113 | on XL, the clean-up removes exactly the final activities that cause some activity |
| PetriNets.PetriNet.constructor | alpha_miner.py:13 | a new net has no transitions, places or arcs |
| PetriNets.ArcsFromPlace | alpha_miner.py:119-120 | the arcs from a place go to exactly the given activities |
| PetriNets.ArcsToPlace | alpha_miner.py:126-127 | the arcs into a place come from exactly the given activities |
| PetriNets.GenTransitions | alpha_miner.py:130-133 | the transitions gain exactly Tl, and places and arcs are unchanged |
| PetriNets.ConnectConsumers | alpha_miner.py:143-144 | the arcs gain one arc from the place to each given activity, and nothing else changes |
| PetriNets.ConnectProducers | alpha_miner.py:141-142 | the arcs gain one arc from each given activity into the place, and nothing else changes |
| PetriNets.SetStartPlace | alpha_miner.py:116-120 | Start is added with one token of value 1, and it gains an arc to every initial activity |
| PetriNets.SetEndPlace | alpha_miner.py:123-127 | End is added with one token of value 0, and it gains an arc from every final activity |
| PetriNets.AddCandidatePlace | alpha_miner.py:140-144 | an empty place str(i) is added, with arcs from the candidate's producers and to its consumers |
| PetriNets.AddNextPlace | alpha_miner.py:139-145 | one loop turn extends the built places and arcs by the next candidate under the next number |
| PetriNets.GenPlaces | alpha_miner.py:136-145 | the walk visits every YL candidate exactly once, and place str(k) carries the arcs of the k-th candidate visited |
| PetriNets.CandidateArcsDecode | alpha_miner.py:140-144 | adding a candidate's arcs as place str(i) changes only what place str(i) reads as |
| PetriNets.PlaceArcsDecode | alpha_miner.py:136-145 | in the built arcs, place str(k) reads as the k-th candidate, and every other place reads as empty |
| PetriNets.BuiltArcsAt | alpha_miner.py:116-145 | the Start arcs add only to what Start feeds, and the End arcs add only to what feeds End |
| PetriNets.BuiltArcsDecode | alpha_miner.py:116-145 | in the built net, Start reads as ({}, Ti), End reads as (To, {}), and str(k) reads as the k-th candidate |
| PetriNets.BuiltPlacesDecode | alpha_miner.py:136-145 | the numbered places together read back as exactly the candidate set walked |
| PetriNets.WithNumberedPlaces | alpha_miner.py:136-145 | after n candidates the places are the earlier ones, unchanged, plus the empty places "1" .. str(n) |
| PetriNets.BuildNet | alpha_miner.py:161-164 | building on a fresh net yields transitions Tl, places Start, End and one empty numbered place per YL candidate, and exactly the arcs of the four builder steps |
| Miner.CandidatesWithinActivities | alpha_miner.py:83-91 | both sides of every XL candidate lie within Tl |
| Miner.AlphaPlacesWellFormed | alpha_miner.py:94-104 | every YL candidate satisfies the candidate invariant |
| Miner.NetDecodes | alpha_miner.py:148-164 | reading the mined net back: Start feeds exactly Ti, End is fed exactly by the cleaned To, and the numbered places are exactly YL, one place each |
| Miner.SequentialLogRelations | alpha_miner.py:148-156 | the log [[x, y]] has the directly-follows set {(x, y)} and XL {({x}, {y})} |
| Miner.SequentialLogPlaces | alpha_miner.py:148-157 | the log [[x, y]] yields the single place ({x}, {y}) |
| Miner.SequentialLogStart | alpha_miner.py:148-150 | for the log [[x, y]], Start feeds only x |
| Miner.SequentialLogEnd | alpha_miner.py:148-158 | for the log [[x, y]], y keeps its arc into End |
| Miner.Mine | alpha_miner.py:148-164 | the whole run yields transitions Tl, the places Start, End and one per YL candidate, and exactly the arcs of Ti, the cleaned To and YL |
| RawCandidates.RawYL | alpha_miner.py:94-104 | the source's reduction on stored candidates keeps a subset of XL, and drops a candidate only when another covers it character-wise |
| RawCandidates.ElementsOfShortLabels | alpha_miner.py:97-98 | on a side whose lone label is one character long, iterating the side yields exactly the activities it stands for |
| RawCandidates.MixedLengthLabelsXL | alpha_miner.py:83-91 | the log [[a, c], [ab, c]] has XL {({a}, {c}), ({ab}, {c})} |
| RawCandidates.CharSplitDropsPlace | alpha_miner.py:97-102 | on that log both candidates belong in YL, but the source's reduction drops ({a}, {c}) |

## Findings

| source | as written | input that shows it | evidently intended | confidence | as-written member | corrected member |
|---|---|---|---|---|---|---|
| alpha_miner.py:97-100 | `set(x[0])` and `set(x[1])` iterate a side. When the side is a lone activity label, iterating it yields the label's characters, so the subset test compares characters instead of activities | the log `[["a","c"],["ab","c"]]`. The candidate `("a","c")` is discarded from `yl_set` because `{'a'}` is a subset of `{'a','b'}`, although no candidate covers it as activities. The surviving `("ab","c")` then meets the same splitting in `gen_places` (see PetriNets.AddCandidatePlace under Left out) | the subset test compares whole activities, so both `({a},{c})` and `({ab},{c})` are places | high; not executed | RawCandidates.CharSplitDropsPlace | Candidates.YL |

The rest of the model uses the corrected reduction `Candidates.YL`, in which
a candidate's sides are typed sets of activities. The test goes wrong only
on labels longer than one character (`RawCandidates.ElementsOfShortLabels`).

## Left out

- Reading the log from `event_log.csv` (alpha_miner.py:12, 16-19, 148): the log is a parameter of `Miner.Mine`.
- The snakes library, its plugin loading and the drawing of the net to `test.png` (alpha_miner.py:1-4, 167-168): the net is modelled by its transitions, places with markings, and arcs.
- The arc labels `Variable('C')` and `Variable(activity)`: arcs carry no label.
- Token-game semantics (firing, reachability): only the static structure is built.
- `create_non_direct_causal_set` (alpha_miner.py:71-80, 155): its result is never used by anything else.
- The library's name-clash errors: the model keeps place names and transition names apart. An activity named `Start`, `End` or a number would clash with a place name in the library.
- Orderings.CreateParallelSet: the contract gives the properties of the kept set, not the exact set. Which orientation of a pair survives depends on Python's set iteration order. `Candidates.XLOrderIndependent` shows the choice cannot affect XL or anything after it.
- PetriNets.GenPlaces: which number each candidate's place gets depends on set iteration order. It is returned as a ghost sequence, not fixed.
- Candidate sides are typed sets of activities. The source stores a side as a lone label or a 2-tuple. With a self-loop `(p, p)` in the parallel set, the source holds both `(a, 'p')` and `(a, ('p', 'p'))`. These are distinct tuples, and for one-character labels they cover each other and are both discarded. In the model they are one candidate `({a}, {p})`. The other differences that come from this representation are the character splitting under Findings and the one on the PetriNets.AddCandidatePlace line below.
- PetriNets.AddCandidatePlace (and so PetriNets.GenPlaces): the source walks a side with `for activity in a` and `for activity in b` (alpha_miner.py:141, 143). When the side is a lone label, that loop visits the label's characters. For a label longer than one character it calls `add_output`/`add_input` with one-character names, which may not be transitions at all, instead of with the activity. The model connects the whole activity. It does not capture these arcs to or from single characters, nor the library error that an unknown transition name would raise.
- EndSet.ClearToSet: `to_set` is modelled as a value, and the method returns the cleaned set. The source discards from its argument in place, but the script rebinds `end_activities` to the result, so the aliasing cannot be observed.
