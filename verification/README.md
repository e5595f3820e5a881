# Crystal: a verified model

Crystal is a gateway that holds an ontology coordinate, a cache over an artifact store, a relay for desktop
sessions, a registry of content types and the life cycle of operators. This project models those parts and proves
what they keep. `dafny verify dfyconfig.toml` checks all of it.

What each module is about:

- `Geometry`, `JiangConrath`, `JcMetric`, `GeometryMemo`: the canonical spanning tree, the sparse coordinate whose
  squared distance is Jiang-Conrath and exactly when, on any ontology, the metric it makes, and the memo over the tree.
- `IntrinsicIc`, `SmoothIc`, `Spearman`: the two derivations of information content, Laplace smoothing over a forest,
  and the rank correlation used to judge the coordinate.
- `Lattice`, `Driver`, `DriverRuns`, `DriverHistory`: a store in which every write takes the next number, the ontology
  driver's cache over it, whole interleaved runs against the same run without a cache, and what those answer, told by
  the writes alone.
- `Lexicon`, `WordSenses`, `Morphology`, `Inflections`: the in-memory word index, the keyed entry edges and why they
  answer alike, which senses a word has, and which base an inflected word goes by.
- `RelayProtocol`, `RelayManagement`: the relay as atomic steps cut at each await, and the manager refining them.
- `TypeLineage`, `DepthLimit`, `RootEnds`, `TypeAnswers`, `TypeRegistration`, `TypeHistory`: inheritance walks, what
  their depth limit costs, where they end, operation lookup, the registry's history, and what a type answers after it.
- `PersonaMaps`, `OperatorGates`, `Describers`: three time-driven caches over a non-decreasing clock.
- `Evidence`, `Retirement`: an operator's track record and the rule that retires it.
- `Push`, `PushClient`: the paged scan and client-side upsert of operator manifests.
- `SeedLattice`: the batched write of information content.
- `Names`, `Outcomes`, `Sums`, `Graphs`, `Reals`, `Sorting`: shared vocabulary and facts.

## Assumptions

- Floats are reals. `log` is any function with `log(1) = 0` that strictly increases; `sqrt` any non-negative root;
  rounding to four places any monotone function within half a unit; the normal quantile any monotone function that is
  zero at one half and within 0.001 of 1.645 at 0.95. Each is a parameter.
- Hashes and JSON encoding are injective: the spec hash stands for what is hashed, a token for its digest.
- The store allocates one growing sequence number for every write, and its own language spec is never rewritten.
- One operation of a cache takes its clock readings in order, and no write lands inside one driver call. An
  unverifiable mark or stamp is a free choice at every read.
- An ontology is a map from object identity to node; distinct identities may share a name unless `Registry` says not.

## Where the code and what is written about it differ

- `_lineage` is described as ending at the root. Where each type has one declared parent and the root inherits nothing
  declared it always does, named early or not (`RootEnds.OneLineEndsAtRoot`). In general it need not: another type is
  listed after the root when the root inherits one not yet listed, or when an ancestor that leads to the root is
  followed by a parent that brings something new (`RootEnds.LineageEnds` says exactly when).
- The depth limit is described as only stopping a malformed definition. It also hides a parent that a short path leads
  to, when a longer path listed first meets that parent's child at the limit (`DepthLimit.DepthLimitHidesParents`).
  Nothing more than eight links from the type and the root is ever listed, chains of distinct types of at most eight
  links lose nothing, and where each type has one parent the exact condition is known
  (`DepthLimit.CompleteIsNear`, `TypeLineage.ShortChainsComplete`, `DepthLimit.CompleteExactly`). Between these, with
  several parents, the order in which parents are listed decides.
- A cached name is verified only against the id it was first read from, so writing its preferred id later goes
  unnoticed (`Driver.PreferredIdGoesUnnoticed`, and exactly when in `Driver.PinIsCurrent`).
- The keyed path looks an irregular up by the query, a bar and the part of speech, and then by the bare query, so a
  query with a bar in it can be taken for an irregular that the in-memory path does not find
  (`Morphology.BarMisleads`, and exactly when in `Morphology.ExceptionsAgreeExactly`).
- The build keeps to documents of one language and the in-memory index reads all, so a word a document of another
  language lists is answered differently (`Lexicon.ForeignExactly`).
- The push is described as a no-op for an unchanged operator. A definition without content is written again by every
  fresh client (`PushClient.PushTwice`), and a client that pushes an operator with content and then without leaves the
  old content (`Push.ForgottenContent`, and exactly when in `Push.UpsertHolds`).
- A definition's own counters are believed wherever its behaviour has none yet (`Evidence.BelievedExactly`), though
  evidence is described as something a redefinition cannot forge (`Evidence.FirstClaimBelieved` is an instance).
- The two derivations of information content differ on a cycle, where one counts a node among its own descendants and
  the other does not (`IntrinsicIc.DerivationsAgree`; `IntrinsicIc.TwoCycleDisagrees` is an instance).

## Model

| member | source | states |
|---|---|---|
| JiangConrath.ExactForPair | src/crystal/ontology/geometry.py:445-547 | For any two synsets whose climbs run on alike from where they meet, whatever cycles there are elsewhere: the squared distance of the two sparse vectors is never below Jiang-Conrath on the spanning tree (less the content at the two ends when the climbs never meet) and equals it if and only if no link on one climb only is clipped at zero. |
| JiangConrath.DistanceAnywhere | src/crystal/ontology/geometry.py:445-547 | For any two synsets of any ontology with one object a name, cycles or not, the squared distance exceeds Jiang-Conrath (less the content at the two ends when the climbs never meet) by exactly: what clipping hides before the meeting, plus the two links at the seam of a cycle both climbs go round, plus the difference in content between the two nodes each climb first meets the other at. |
| JiangConrath.ExactAnywhere | src/crystal/ontology/geometry.py:445-547 | So for any two synsets of any such ontology the coordinate is exact if and only if that excess is zero. |
| JiangConrath.RootsRunAlike | src/crystal/ontology/geometry.py:286-309 | Two climbs that both come to a root run on alike from where they meet, with or without cycles elsewhere. |
| JiangConrath.AcyclicRunsAlike | src/crystal/ontology/geometry.py:286-309 | On an acyclic ontology every climb comes to a root, so every pair runs on alike. |
| JiangConrath.PathCoordinate | src/crystal/ontology/geometry.py:536-547 | A path's vector has, at a node with a link on the path, the square root of the clipped link, and nothing elsewhere. |
| JiangConrath.DistanceOfPaths | src/crystal/ontology/geometry.py:536-547 | Shared links cancel: the squared distance is the weight of the links on one path only. |
| JiangConrath.StretchWeighs | src/crystal/ontology/geometry.py:536-542 | The links of a stretch of path weigh the content lost on it going up plus what clipping hides. |
| JiangConrath.SharedIsMeet | src/crystal/ontology/geometry.py:445-453 | The first node of one path whose name is on the other is where the paths meet, and there is none exactly when they are disjoint. |
| JiangConrath.MonotoneIsExact | src/crystal/ontology/geometry.py:536-547 | Where content never rises on the way up, the coordinate is exact for every two synsets, cycles or not. |
| JcMetric.LcsIsLowest | src/crystal/ontology/geometry.py:445-453 | On an acyclic ontology the first shared node is on both paths and below every other shared node, is the same from either side, and is missing exactly when the paths are disjoint. |
| Geometry.CanonicalParentIsGreatest | src/crystal/ontology/geometry.py:272-283 | No parent listed under either heading has more content than the canonical one, none of equal content sorts after it by code point, and where names are distinct it is the only one so. |
| Geometry.TreePathIsClimb | src/crystal/ontology/geometry.py:286-309 | On an acyclic graph the `seen` guard never cuts a path short: the walk is the whole climb to a root. |
| JcMetric.IntrinsicCoordinateIsExact | src/crystal/ontology/driver.py:116-136 | With the derived content the coordinate is exact for every two synsets, on any corpus, cycles or not. |
| JcMetric.SmoothedCoordinateIsExact | src/crystal/ontology/geometry.py:346-416 | With the smoothed content over the tree of canonical parents the coordinate is exact for every pair. |
| JcMetric.MeasuredIsMonotone | src/crystal/ontology/driver.py:116-136 | On any corpus the derived content lies in [0, 1] and never rises on the way up, and on an acyclic one it falls strictly along every is-a link. |
| JcMetric.CycleBreaksExactness | src/crystal/ontology/geometry.py:286-309 | A two-node cycle with other content, whose paths meet at a node and whose squared distance exceeds the tree distance: without monotone content a cycle can break exactness. |
| JiangConrath.CycleRunsApart | src/crystal/ontology/geometry.py:286-309 | The two synsets of that cycle do not run on alike: each climb stops short of its own start. |
| JcMetric.JcTreeIsMetric | src/crystal/ontology/geometry.py:456-485 | On a single-rooted monotone tree the tree distance is symmetric, non-negative, zero on the diagonal and satisfies the triangle inequality. |
| JcMetric.JcExactAgainstTree | src/crystal/ontology/geometry.py:916-919 | On an acyclic graph with non-negative content the exact distance is at most the tree distance, and equal when every node has one parent and content is monotone. |
| JcMetric.JcExact | src/crystal/ontology/geometry.py:916-919 | The exact distance subtracts twice the greatest content among all common ancestors, or zero when there are none. |
| JcMetric.Closure | src/crystal/ontology/driver.py:253-265 | The worklist closure is the synset with everything reachable above it, on any graph. |
| GeometryMemo.Memo.CanonicalParentOf | src/crystal/ontology/geometry.py:272-283 | Whatever the memo holds, the answer is the canonical parent in the present ontology and table. |
| GeometryMemo.Memo.TreePathOf | src/crystal/ontology/geometry.py:286-309 | Whatever the memo holds, the answer is the tree path in the present ontology and table. |
| GeometryMemo.Memo.Ready | src/crystal/ontology/geometry.py:248-269 | The memo is used only under a reported generation, and every entry kept was computed at that generation and for that table. |
| IntrinsicIc.CreditAncestors | src/crystal/ontology/driver.py:116-136 | The inner worklist ends on any graph and credits exactly the nodes strictly above its start, each once. |
| IntrinsicIc.DeriveIntrinsicIc | src/crystal/ontology/driver.py:116-136 | On any graph, cycles included, each synset's measure counts exactly the nodes that reach it: one less it, times the log of all and one, is the log of those and one. |
| IntrinsicIc.IcFallsUpward | src/crystal/ontology/driver.py:116-136 | The measure lies in [0, 1] and never rises along an is-a link, and falls strictly unless the lower node is on a cycle. |
| IntrinsicIc.VisitDown | src/crystal/ontology/seed_lattice.py:271-290 | The breadth-first visited set of a vertex is the vertex and exactly what lies below it. |
| IntrinsicIc.ConceptnetIc | src/crystal/ontology/seed_lattice.py:247-293 | Every vertex is measured by the size of its downward visited set; fewer than two vertices give nothing. |
| IntrinsicIc.DerivationsAgree | src/crystal/ontology/driver.py:116-136 | The two derivations give a vertex the same measure if and only if the vertex is on no cycle. |
| IntrinsicIc.TwoCycleDisagrees | src/crystal/ontology/seed_lattice.py:271-290 | On two vertices above each other the two derivations differ. |
| SmoothIc.Depth | src/crystal/ontology/geometry.py:382-395 | The memoised depth walk ends on any parent map and on a forest gives the distance to the root. |
| SmoothIc.DeepestFirst | src/crystal/ontology/geometry.py:397-397 | On a forest the sorted order puts every child before its parent, each node once. |
| SmoothIc.Accumulate | src/crystal/ontology/geometry.py:399-402 | Every mass is at least alpha, and on a forest each node holds its own smoothed count and all its children's mass: none reads as an absent zero. |
| SmoothIc.RootsCarryAll | src/crystal/ontology/geometry.py:404-407 | The roots together carry the smoothed count of every node: no mass is lost. |
| SmoothIc.MassIsSubtree | src/crystal/ontology/geometry.py:399-402 | A node's mass is the sum of the smoothed counts at and below it. |
| SmoothIc.SmoothIc | src/crystal/ontology/geometry.py:346-416 | Refuses exactly a non-positive alpha, or a map in which no name is a root; on a forest every node has as content the negated log of its subtree's share of all mass, and an error whose square times that mass is the rest of the share. |
| SmoothIc.MassIsCounts | src/crystal/ontology/geometry.py:402-403 | A mass is the positive counts in it, and alpha for each name, counted or not. |
| SmoothIc.ChildOutranksParent | src/crystal/ontology/geometry.py:411-416 | A parent's content is strictly below its child's, and so is its standard error. |
| SmoothIc.MeasureFalls | src/crystal/ontology/geometry.py:411-416 | Content and standard error both strictly fall as mass grows; content is zero exactly at the whole mass. |
| SmoothIc.ZeroContentIsOnlyRoot | src/crystal/ontology/geometry.py:404-416 | A node is at content zero if and only if everything lies at or below it. |
| Spearman.Ranks | src/crystal/ontology/geometry.py:939-951 | The tie-grouping loop gives every element the midrank of its value. |
| Spearman.RanksFollowValues | src/crystal/ontology/geometry.py:939-951 | Ranks are equal exactly where values are, and ordered exactly as values are. |
| Spearman.RankSum | src/crystal/ontology/geometry.py:939-951 | With any ties the ranks add up to n(n-1)/2. |
| Spearman.Spearman | src/crystal/ontology/geometry.py:923-962 | The method computes the correlation of the midranks or none. |
| Spearman.RhoUndefined | src/crystal/ontology/geometry.py:952-962 | There is no correlation if and only if the series are short, of different lengths, or one is constant. |
| Spearman.RhoInRange | src/crystal/ontology/geometry.py:955-962 | A correlation lies between -1 and 1. |
| Spearman.RhoIgnoresScale | src/crystal/ontology/geometry.py:923-962 | A strictly increasing map of either series changes nothing. |
| Spearman.RhoFlips | src/crystal/ontology/geometry.py:923-962 | A strictly decreasing map of either series turns the sign and changes nothing else. |
| Spearman.RhoOfReverse | src/crystal/ontology/geometry.py:923-962 | A varying series correlates with every strictly decreasing image of itself at exactly -1. |
| Spearman.RhoByDifferences | src/crystal/ontology/geometry.py:923-962 | Without ties it is one less six times the sum of squared rank differences over n(n^2 - 1). |
| Spearman.RhoOfImageIsOne | src/crystal/ontology/geometry.py:923-962 | A varying series correlates perfectly with every strictly increasing image of itself. |
| Lattice.StampSound | src/crystal/ontology/freshness.py:67-108 | Between any two moments of a store's history, stamps are equal if and only if the row and the out-edges, with their numbers, are the same. |
| Lattice.Store.ReadStamp | src/crystal/ontology/freshness.py:67-108 | The stamp read is the row's version with the degree and highest number of its out-edges. |
| Lattice.Store.Commit | src/crystal/ontology/freshness.py:11-19 | Every write, of whatever kind, takes the next number and extends the history. |
| Driver.StampedBuild | src/crystal/ontology/driver.py:698-760 | Equal stamps mean an equal synset: all that building one reads is stamped. |
| Driver.PinIsCurrent | src/crystal/ontology/driver.py:732-760 | Verifying against the id once resolved looks where a fresh read would if and only if no other candidate id is held that comes first or outlives it. |
| Driver.PreferredIdGoesUnnoticed | src/crystal/ontology/driver.py:732-760 | A name cached at its bare id keeps its old answer after the preferred prefixed id is written: one id per name is needed. |
| Driver.OntologyDriver.Gate | src/crystal/ontology/driver.py:374-399 | After the gate nothing counts as verified unless the store is as it was when verified; an unreadable mark verifies nothing. |
| Driver.OntologyDriver.Arts | src/crystal/ontology/driver.py:464-521 | The store named, else the last named, else the host's; naming another drops every cache, so stores never mix. |
| Driver.OntologyDriver.Bind | src/crystal/ontology/driver.py:402-418 | Binding keeps every cached answer tied to the store it came from; unbinding empties the caches and drops the host store and the mark. |
| Driver.OntologyDriver.GetSynset | src/crystal/ontology/driver.py:732-764 | An entry of this generation is answered untouched, any other verified by its stamp or read again: the answer is the build at the id it was read from, or the first held. |
| Driver.OntologyDriver.Index | src/crystal/ontology/driver.py:967-985 | The whole-corpus index answered is the one a load of the present store gives. |
| Driver.OntologyDriver.SynsetOf | src/crystal/ontology/driver.py:995-1000 | Where names live at one id, every lookup answers as a fresh read of that store would; with no store it is refused. |
| DriverHistory.AnswerIsHistory | src/crystal/ontology/driver.py:578-764 | After any writes, a fresh read of a name answers what was last put under the first of its ids that holds anything, with exactly these parents: those the document lists, each under its heading, or where it lists none the targets of its standing edges, an instance label making an instance link and any other is-a label a hypernym; and nothing exactly where no id of the name is held. |
| DriverHistory.OneAnswer | src/crystal/ontology/driver.py:578-764 | There is one such answer. |
| DriverHistory.LinkShows | src/crystal/ontology/driver.py:718-728 | One more edge from a document without listed parents adds its target to the hypernyms or the instance links of the next answer, by its label, and changes nothing else. |
| DriverHistory.ListedWins | src/crystal/ontology/driver.py:714-716 | Where a document lists a parent of either kind, no edge laid or taken up changes the answer. |
| DriverHistory.RunTells | src/crystal/ontology/driver.py:374-764 | The last lookup of any run over new stores is refused where no store was ever named and the host has none, and else answers what the run's own writes to the store it reads say. |
| DriverRuns.Run | src/crystal/ontology/driver.py:374-533 | Under any interleaving of writes, lookups, bindings and invalidations over any number of stores, the answers are those of the same run with no cache. |
| Lexicon.LoadIndex | src/crystal/ontology/driver.py:874-951 | Each surface and part of speech lists its synsets by (proper, rank, name). |
| WordSenses.SensesExactly | src/crystal/ontology/driver.py:874-951 | The senses of a word are exactly those its documents list, common before proper by the case of the written form last filed, then by rank, unranked last, then by name. |
| WordSenses.HasSenses | src/crystal/ontology/driver.py:874-951 | A word has senses in a part of speech if and only if some document lists it there. |
| Lexicon.LayEdges | src/crystal/ontology/seed_lattice.py:514-541 | Documents of another language are passed by, and the entries of the others are laid in order under the store's own deduplication. |
| Lexicon.LaidOnce | src/crystal/ontology/seed_lattice.py:514-541 | The edges laid are exactly the entries of a lemma that is not empty which no earlier entry shares surface and synset with, and no two share them. |
| Lexicon.ForeignExactly | src/crystal/ontology/seed_lattice.py:516-525 | A surface and part of speech stand for the same synsets in the documents of one language as in all of them, which the in-memory index reads, if and only if no document of another language lists that surface there. |
| Lexicon.ReadEntries | src/crystal/ontology/driver.py:770-795 | The keyed read answers as specified, refusing when no rank is stored. |
| Lexicon.KeyedRefinesIndex | src/crystal/ontology/driver.py:770-795 | Rows in any order, sorted by (part of speech, proper, rank, name), give exactly the concatenated in-memory lists; the read is refused exactly when there are rows and none is ranked. |
| Morphology.LoadExceptions | src/crystal/ontology/driver.py:882-884 | The in-memory irregulars keep the first base filed for a form and part of speech. |
| Morphology.BuildExceptions | src/crystal/ontology/seed_lattice.py:514-541 | The stored irregulars keep the last base filed under a form and part of speech by a document of the language built, others passed by. |
| Morphology.ExceptionsAgree | src/crystal/ontology/driver.py:1055-1088 | With one base a form the two tables of irregulars answer alike for every query under whose look-ups no other irregular is filed, bars in forms and queries included. |
| Morphology.ExceptionsAgreeExactly | src/crystal/ontology/driver.py:1055-1088 | Where no form has a bar in it and no base is empty, the two paths find the same base if and only if no other irregular is filed under the query, or under the query joined to the part of speech. |
| Morphology.BarMisleads | src/crystal/ontology/driver.py:1062-1066 | With "went" filed under "go", the query "went|v" is "go" on the keyed path and nothing in memory. |
| Inflections.RulesAreEndings | src/crystal/ontology/driver.py:1038-1045 | The detachment rules are exactly the listed endings of nouns, verbs and adjectives. |
| Inflections.VerbEndings | src/crystal/ontology/driver.py:1038-1045 | A verb's "ed" and "ing" are taken off with an "e" put back before they are taken off alone. |
| Inflections.IrregularsExactly | src/crystal/ontology/driver.py:882-884 | With one base a form, the irregular base found for a form and part of speech is exactly the one some document of that part of speech files it under. |
| Inflections.MorphyExactly | src/crystal/ontology/driver.py:1048-1088 | `morphy` answers a known candidate (the word, its irregular base, or what its ending detaches to), answers nothing if and only if none is known, and fails only where asking for one failed. |
| Inflections.MorphyPrefers | src/crystal/ontology/driver.py:1048-1088 | A known word is its own base, and an unknown one with a known irregular base goes by that whatever its ending. |
| Inflections.PartsTried | src/crystal/ontology/driver.py:1055-1055 | The parts of speech tried are the one asked for, else those of the order that have rules. |
| Morphology.MorphyAgrees | src/crystal/ontology/driver.py:1048-1088 | `morphy` gives the same base form on both paths, over documents of one language, for every word under whose look-ups no other irregular is filed. |
| Inflections.SynsetsFind | src/crystal/ontology/driver.py:1003-1035 | In one part of speech a listed word answers its own senses; any other answers the senses of a base that some document lists, and nothing if and only if none does. |
| Inflections.SynsetsFindAny | src/crystal/ontology/driver.py:1003-1035 | With no part of speech named, a listed word answers its senses part by part in order; any other those of a listed base, and nothing if and only if there is none. |
| Inflections.PluralFound | src/crystal/ontology/driver.py:1003-1035 | A regular plural no document lists and no irregular claims answers the senses of its singular. |
| Morphology.SynsetsAgree | src/crystal/ontology/driver.py:1003-1035 | `synsets` gives the same names in the same order on both paths, inflected forms included, over documents of one language, for every word under whose look-ups no other irregular is filed. |
| RelayProtocol.InvKept | src/crystal/relay_manager.py:94-228 | Every step keeps the two indexes exact inverses with no empty set, pending requests on live sessions only, and every future and outcome tied to a call on a session of its user. |
| RelayProtocol.Safety | src/crystal/relay_manager.py:142-228 | After any run a returned response was sent by the session the request began on, under that request's id, and that session was connected by the requesting user. |
| RelayProtocol.RunSettles | src/crystal/relay_manager.py:142-228 | Over any run a finished call keeps its one outcome and a settled future never changes. |
| RelayProtocol.DisconnectFails | src/crystal/relay_manager.py:107-122 | A disconnect settles every request still waiting on that session, and its caller then reports the disconnection. |
| RelayProtocol.RespondExactly | src/crystal/relay_manager.py:207-228 | A response settles the request it names if and only if that request awaits an answer from the live session it came on; no other future is touched, and no other envelope touches any. |
| RelayProtocol.CallerIsTold | src/crystal/relay_manager.py:185-205 | A waiting caller can always go on: by a timeout while nothing has come, else with the body, the desktop's error, the disconnect or the timeout its future came to. |
| RelayProtocol.EndsClean | src/crystal/relay_manager.py:185-195 | However a call ends it has its own outcome, and its request is pending on no session. |
| RelayProtocol.AnswerIsFinal | src/crystal/relay_manager.py:185-228 | Once a waiting request is answered, whatever happens short of its caller going away, the caller is told that answer and no other. |
| RelayProtocol.RoundTrip | src/crystal/relay_manager.py:142-228 | From any state a fresh request can be forwarded on any live session of its user and answered, and the caller gets the body sent or the desktop's error. |
| RelayProtocol.NoSessionExactly | src/crystal/relay_manager.py:127-133 | A user has no active session if and only if no live session is theirs. |
| RelayManagement.RelayManager.Connect | src/crystal/relay_manager.py:94-105 | Registering is the protocol's connect step on both indexes. |
| RelayManagement.RelayManager.Disconnect | src/crystal/relay_manager.py:107-122 | The loop over pending futures and the index clean-up amount to the protocol's disconnect step. |
| RelayManagement.RelayManager.ActiveSession | src/crystal/relay_manager.py:127-133 | The search returns a live session of the user, or nothing exactly when there is none. |
| RelayManagement.RelayManager.Begin | src/crystal/relay_manager.py:142-176 | Up to its first await a forward takes the protocol's begin step. |
| RelayManagement.RelayManager.HandleResponse | src/crystal/relay_manager.py:207-228 | An inbound envelope takes the protocol's respond step, which settles at most the one request waiting on that session. |
| RelayManagement.RelayManager.Resume | src/crystal/relay_manager.py:186-205 | A settled wait takes the protocol's resume step and its outcome follows from the future. |
| TypeLineage.NormalizeIsPlain | src/crystal/type_registry.py:29-33 | A normalised content type has no parameter, no upper case and no padding. |
| TypeHistory.NormalizeFinds | src/crystal/type_registry.py:29-33 | A plain name is found whatever its case and padding. |
| TypeHistory.ParametersIgnored | src/crystal/type_registry.py:29-33 | And whatever follows its first semicolon, with blanks before it or none. |
| TypeLineage.LineageShape | src/crystal/type_registry.py:166-200 | The lineage lists each declared type met once, starts with the type itself if declared, and contains the root if declared. |
| RootEnds.OneLineEndsAtRoot | src/crystal/type_registry.py:166-200 | Where each type has one declared parent and the root inherits nothing declared, as shipped, every lineage ends at the root, of declared types or not, however early the root is named. |
| RootEnds.LineageEnds | src/crystal/type_registry.py:166-200 | With any number of parents, where nothing above the type or the root is above itself and no path over eight links leaves either, the lineage ends at the root if and only if the graph satisfies a condition read off what inherits what. |
| TypeHistory.UndeclaredLineage | src/crystal/type_registry.py:190-200 | A type nothing declares goes by its category first, if that is declared and it is no data type; else by the root and what that inherits alone. |
| TypeHistory.DataTypes | src/crystal/type_registry.py:193-196 | A data type is an application type under `vnd.agience.` or one that ends in `+json`, and no other. |
| TypeHistory.InheritsAsResolved | src/crystal/type_registry.py:177-187 | A type inherits what the definition it resolves to lists, each name normalised. |
| TypeLineage.RootPlace | src/crystal/type_registry.py:195-200 | The walk from the root adds nothing if an ancestor named the root; else it adds the root, and nothing after it if and only if all the root inherits is listed already. |
| TypeLineage.LineageSound | src/crystal/type_registry.py:166-200 | Only ancestors of the type, of the root, or for an undeclared type of its category are listed. |
| TypeLineage.ShortChainsComplete | src/crystal/type_registry.py:119-200 | When no chain of distinct types from a type has more than eight links its lineage is complete, on any graph, cycles included. |
| DepthLimit.ListedIsNear | src/crystal/type_registry.py:177-187 | Everything listed for a declared type is at most eight links above it or above the root. |
| DepthLimit.CompleteIsNear | src/crystal/type_registry.py:177-187 | So a lineage that holds every declared ancestor has them all at most eight links above the type or the root. |
| DepthLimit.ListedExactly | src/crystal/type_registry.py:177-200 | Where each type has one declared parent, a type is listed if and only if it is at most eight links above the type, or above the root by a path that keeps clear of those. |
| DepthLimit.CompleteExactly | src/crystal/type_registry.py:177-200 | There a lineage holds every declared ancestor if and only if each is that near. |
| DepthLimit.CompleteUnderPlainRoot | src/crystal/type_registry.py:177-200 | And under a root that inherits nothing declared, if and only if every ancestor but the root is at most eight links up. |
| DepthLimit.DepthLimitHidesParents | src/crystal/type_registry.py:177-187 | In any registry with a ladder of nine types above a type that lists its first rung before its eighth, and nothing else that leads to the last rung, the last rung is missing from the lineage though it is two links away. |
| DepthLimit.BuildTrap | src/crystal/type_registry.py:127-187 | Such a registry is built by registering ten types under a root that inherits nothing. |
| TypeAnswers.OperationsOf | src/crystal/type_registry.py:202-207 | For every operation name, the table laid over from the farthest ancestor answers as the first match over the lineage. |
| TypeHistory.OperationResolves | src/crystal/type_registry.py:209-214 | An operation resolves to what the first type of the lineage that declares it declares, as `resolve` finds that type, and to nothing if and only if none does. |
| TypeHistory.LatestAnswers | src/crystal/type_registry.py:162-214 | After any history the latest surviving registration of a type answers for each operation it declares, whatever is built in under the same name, and the builtin where none survives. |
| TypeHistory.RegisteredAnswers | src/crystal/type_registry.py:62-214 | A definition just registered answers at once, under any spelling of its type, with the kind, target and grant it gives. |
| TypeAnswers.OperationIsInherited | src/crystal/type_registry.py:105-121 | Where nothing above the type or the root is above itself and no path over eight links leaves either, whatever the rest of the registry, an operation resolves to the type's own, else to that of the first of its parents, depth first, that has one, else to the root's. |
| TypeRegistration.ParseTypeDef | src/crystal/type_registry.py:62-105 | Refused exactly when no content type is named; else filed under the normalised type with each operation's kind, target and grant as given, an absent kind the default and an absent target the operation's name. |
| TypeRegistration.ResolveIsLatest | src/crystal/type_registry.py:162-164 | After any history, resolve gives the one registration nothing has ended, else the builtin, else nothing. |
| TypeRegistration.StaysCurrent | src/crystal/type_registry.py:127-133 | Registering, removing a server and invalidating each keep the cache equal to the surviving registrations. |
| TypeRegistration.TypeRegistry.Register | src/crystal/type_registry.py:127-133 | A well-formed definition becomes the latest registration; a malformed one changes nothing. |
| TypeRegistration.TypeRegistry.RemoveServer | src/crystal/type_registry.py:226-231 | Ends every registration of the server, counts those it held, and touches no builtin. |
| TypeRegistration.TypeRegistry.Invalidate | src/crystal/type_registry.py:233-237 | Ends the registration of one type, or all. |
| TypeRegistration.TypeRegistry.LoadBuiltin | src/crystal/type_registry.py:135-160 | A builtin is filed apart and never touches a registration. |
| TypeRegistration.TypeRegistry.ResolveType | src/crystal/type_registry.py:162-164 | After any history of registering, removing and invalidating, the answer is the one registration nothing has ended, else the builtin, else nothing. |
| PersonaMaps.PersonaMap.SlugForUuid | src/crystal/gateway_middleware.py:87-105 | The answer is always what the map then holds; a known id costs no call, a miss at most one and none within the interval or the backoff. |
| PersonaMaps.PersonaMap.Refresh | src/crystal/gateway_middleware.py:53-85 | At most one call, none inside the backoff, loaded or not; the maps are replaced only by a fetch that brought personas. |
| PersonaMaps.BothWays | src/crystal/gateway_middleware.py:72-78 | Each map holds for its key what the last complete entry naming it says. |
| PersonaMaps.PersonaMap.Miss | src/crystal/gateway_middleware.py:97-105 | A miss asks Mantle again unless the last such miss is less than thirty seconds old or a failed fetch is, and replaces the maps only by a fetch that brought personas. |
| PersonaMaps.PersonaMap.CallRate | src/crystal/gateway_middleware.py:53-105 | From any moment on, however it is asked and whatever fails, Mantle is called at most floor(T/30) + 2 times over the T seconds since. |
| PersonaMaps.PersonaMap.Run | src/crystal/gateway_middleware.py:53-105 | Over any sequence of lookups and loads on a non-decreasing clock, begun at any point of the life of the map, the calls made in it keep that bound, and so do all the calls since the map was created. |
| PersonaMaps.Busiest | src/crystal/gateway_middleware.py:87-105 | The bound is reached for every whole number of intervals. |
| OperatorGates.Fold | src/crystal/operator_gate.py:45-50 | A tool is cleared exactly when some operator running it is granted, and is named after the last of them. |
| OperatorGates.FoldsOnce | src/crystal/operator_gate.py:45-50 | Two tables that both fold a list of operators are the same table: the fold leaves nothing open. |
| OperatorGates.FiledFaithful | src/crystal/operator_gate.py:51-53 | Pruning and filing leave every token answered by its latest answer, or by none once that is too old. |
| OperatorGates.IdNames | src/crystal/operator_gate.py:23-23 | A name passes as an id if and only if it is 32 to 36 hexadecimal digits and hyphens, a closing line end aside. |
| OperatorGates.OperatorGate.Begin | src/crystal/operator_gate.py:34-40 | The cache answers exactly when the latest answer for the token, over all history and whatever was pruned, is younger than the limit. |
| OperatorGates.OperatorGate.Complete | src/crystal/operator_gate.py:41-53 | Whatever happened since the question was put, an answer becomes the latest and an error files nothing. |
| OperatorGates.OperatorGate.Check | src/crystal/operator_gate.py:55-62 | A tool is refused exactly when some operator runs it and none is granted in an answer for that token younger than the limit; without an answer the gate fails closed. |
| Describers.Describer.DescribeRecently | src/crystal/dispatcher.py:154-168 | True exactly when the artifact fired within the window, whatever was pruned, and firings for one artifact stay at least the window apart. |
| Describers.FireKeeps | src/crystal/dispatcher.py:154-168 | Firing when nothing fired within the window keeps the table faithful and the firings spaced. |
| Evidence.OperatorStore.Register | src/crystal/evolution.py:94-140 | Re-registration stores the definition with what it inherits, and the whole store stays true to its history. |
| Evidence.RegisteredTracked | src/crystal/evolution.py:94-140 | Evidence carries over exactly an unchanged behaviour; the last person named stays the creator and the last citation and provenance given stay. |
| Evidence.EvidenceGoesWithBehaviour | src/crystal/evolution.py:94-140 | Registered again with the same kind and spec an operator keeps every counter it has; with another it keeps none, and the change is recorded with both behaviours and what was discarded. |
| Evidence.RegistrationReplaces | src/crystal/evolution.py:94-140 | Beside its evidence a registration replaces all but a citation or provenance it does not give, and a creator it does not name or names only as a process. |
| Evidence.BelievedExactly | src/crystal/evolution.py:94-140 | The stored evidence is what the behaviour had earned if and only if the incoming definition brings no positive counter the behaviour lacks. |
| Evidence.FirstClaimBelieved | src/crystal/evolution.py:94-140 | A first registration that claims successes is stored with them. |
| Evidence.OperatorStore.RecordInvocation | src/crystal/evolution.py:143-154 | One invocation, and its outcome if it has one, is credited to the operator, and nothing else changes. |
| Evidence.OperatorStore.RecordUse | src/crystal/evolution.py:157-170 | One use is credited to the artifact, then one to the operator that produced it if the store holds it, and nothing else changes. |
| Evidence.OperatorStore.EvidenceConserved | src/crystal/evolution.py:94-170 | After any run in which definitions bring no counters, every stored counter equals what was recorded since the behaviour last changed, and outcomes do not exceed invocations. |
| Retirement.FitnessInRange | src/crystal/evolution.py:185-195 | Fitness lies in [0, 1]. |
| Retirement.EvidenceMovesFitness | src/crystal/evolution.py:185-195 | A success never lowers fitness and a refutation never raises it. |
| Retirement.VerifiedIsNeverUnfit | src/crystal/evolution.py:273-297 | At a level of one half or below, an operator verified at least as often as refuted is never unfit. |
| Retirement.FewRefutationsSpare | src/crystal/evolution.py:273-297 | At the default level no record with fewer than three refutations condemns. |
| Retirement.ThirdRefutationCondemns | src/crystal/evolution.py:273-297 | At the default level, with no success and no output use, an operator is unfit if and only if it was refuted at least three times. |
| Retirement.UseMovesFitness | src/crystal/evolution.py:185-196 | Another use of its output raises an operator's fitness before rounding, and an invocation without one lowers it where there was any use. |
| Retirement.UsesDecide | src/crystal/evolution.py:273-297 | With no success, at the default level: below three refutations no record condemns, from three to seven an exact number of uses (at most ten for each invocation and ten more) spares the operator, and from eight on none does. |
| Retirement.AllOperators | src/crystal/evolution.py:238-252 | Whatever the indexed fetch serves, and with none at all, every operator is listed: a page is taken only when it is all of them. |
| Retirement.Retire | src/crystal/evolution.py:300-309 | Archives the operator exactly when it exists and is unfit, and leaves its evidence true to its history. |
| Retirement.SweepRetire | src/crystal/evolution.py:312-322 | Retires exactly the live unfit operators, in listing order, changes no other artifact, and leaves all evidence true to its history. |
| Retirement.DoomedExactly | src/crystal/evolution.py:312-322 | An id is retired if and only if it is that of a live unfit operator listed. |
| Retirement.SweepSettles | src/crystal/evolution.py:312-322 | After a sweep no live operator is unfit and a second sweep returns nothing. |
| PushClient.Client.List | src/crystal/push.py:108-148 | Against a node that pages truthfully in pages of any size, the scan ends with every row once and in order. |
| PushClient.Client.EnsureCatalog | src/crystal/push.py:174-186 | The catalog is the one there is; one is created only if there is none. |
| PushClient.Client.Index | src/crystal/push.py:188-198 | The index knows every operator artifact under its id, and no other. |
| PushClient.Client.PutArtifact | src/crystal/push.py:200-222 | One artifact an operator and one catalog are kept, others are untouched, and a client meeting an operator first writes if and only if the definition has no content or is not already held. |
| Push.RowIsOp | src/crystal/push.py:200-222 | A new operator is filed in the catalog under its id, its content type and its whole definition, its content apart. |
| Push.UpsertOneEach | src/crystal/push.py:200-222 | An upsert never leaves a second artifact for an operator. |
| Push.UpsertHolds | src/crystal/push.py:200-222 | The artifact then holds the definition's spec if and only if the definition has content, or the client did not write the operator before, or the put writes, or the artifact's content was empty. |
| Push.ForgottenContent | src/crystal/push.py:200-222 | One client pushing an operator with content and then by reference alone leaves the old content in place. |
| Push.OwnWrites | src/crystal/push.py:200-222 | A client puts a definition without content over an operator it wrote itself if and only if the other fields are new. |
| Push.WritesExactly | src/crystal/push.py:200-222 | A client that has not written the operator writes if and only if the definition has no content or is not held. |
| PushClient.PushManifests | src/crystal/push.py:233-246 | A push, even one cut short between two definitions or with only the catalog ensured for the next, keeps one catalog and one artifact an operator, leaves each operator named with the last definition's fields and exactly the content described, so says for each whether the definition is held, touches no other operator, and for distinct ids writes nothing if and only if all it reached is already there, held with content. |
| PushClient.PushTwice | src/crystal/push.py:233-246 | The same distinct-id manifest pushed again by a fresh client writes nothing if and only if every definition carries content. |
| PushClient.TextIsOwn | src/crystal/push.py:200-222 | The content left is the definition's own whenever it has content or the ids of the manifest are distinct. |
| PushClient.PushMany | src/crystal/push.py:233-246 | After any number of pushes, each beginning where the one before it ended and any of them cut short, there is one catalog and one artifact an operator, and every operator is as the last push that named it left it: holding the definition pushed whenever that had content or the ids were distinct. |
| SeedLattice.CrossedExactly | src/crystal/ontology/seed_lattice.py:74-87 | The cadence fires if and only if the interval just covered contains a multiple of it. |
| SeedLattice.PersistIc | src/crystal/ontology/seed_lattice.py:90-149 | Writes the rows that disagree in batches with a checkpoint at each crossing, then the leftover, a checkpoint, the basis and a last checkpoint. |
| SeedLattice.ExpectedRows | src/crystal/ontology/seed_lattice.py:90-149 | Whatever the batches and checkpoints, the rows written are those that disagree, once and in order. |
| SeedLattice.OnlyTheDisagreeing | src/crystal/ontology/seed_lattice.py:57-71 | A row is written if and only if it was measured and holds another value, and only its content changes. |
| SeedLattice.WritesPersist | src/crystal/ontology/seed_lattice.py:90-149 | The rows a run writes, put in order over the store by id, give exactly the corpus with every disagreeing row replaced. |
| SeedLattice.PersistIsIdempotent | src/crystal/ontology/seed_lattice.py:90-149 | A second run over the same measurement, reading what the first one left in the store, writes no row, and every measured row then holds its measurement. |

## Left out

- Geometry: the refusal of absurd stored values (`AbsurdIC`), dense hashing, centring, fingerprints, `jc_tree_se` and
  text signals, which have no exact claim over the reals.
- Driver: installed test indexes, replacing the host's provider, the freshness of the language spec artifact, failing
  reads of a reachable store, and parents resolved lazily by `hypernyms()`.
- Driver: a synset's parents are a set, so the order in which the source lists them is not modelled.
- Lexicon: lower-casing covers ASCII only, and a synset whose part of speech is absent does not take it from its name.
- Inflections.SynsetsFind: where no document lists an empty lemma; it answers names, before each is looked up.
- Morphology.SynsetsAgree: over documents of one language, which is all the build reads; what documents of another do to
  the in-memory index is in `Lexicon.ForeignExactly`, for the words themselves and not for irregular forms.
- Seed lattice: anchoring, relation vertices and the log of `build`; a checkpoint is an event without an effect.
- Relay: the sending, timing out and cancelling of a wait are steps of the protocol; only the stretches the manager
  itself runs are methods. The WebSocket, the envelope's transport and the default text of an error are not modelled.
- TypeHistory.NormalizeFinds: a blank is a space, tab, line feed or carriage return, and lower-casing covers ASCII only.
- Type registry: describers and the reference forms of an operation beyond its kind, target and grant; reading builtin
  definitions from files; `definitions_from`.
- Type registry: the walk is over content types with each parent normalised beforehand, which is what normalising it
  on arrival gives; definitions are looked up by those names.
- TypeAnswers.OperationIsInherited: for declared types only; an undeclared type's category wildcard is covered by the
  lineage lemmas instead. A cycle, or a path of more than eight links, above the type or the root is not covered.
- PersonaMaps.PersonaMap.CallRate: one caller at a time; calls racing on threads are not modelled.
- Operator gate: the wording of refusals, and the HTTP status they travel under.
- Dispatcher: everything but the describer's deduplication.
- Evidence: `put_operator`'s moving of bodies into the content tier, and selection and ranking of operators.
- Push: authentication, HTTP errors other than as a push cut short, and a node that pages untruthfully.
- Push: operator ids start with `op.`, as validation demands before a definition reaches the client.
- Push.UpsertHolds: fields outside the spec (state, content type, author) travel with a write but never cause one, as
  in the source.
- Web assembly, configuration, identity, network clients and persona packages are not part of this model.
