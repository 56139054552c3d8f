# Verified models of INET algorithms and state machines

INET is a framework of protocol models for the OMNeT++ simulator. Most of its files connect modules to the simulation
kernel; a handful hold self-contained algorithms and state machines whose correctness the rest takes for granted. This
project models eight of them in Dafny and proves what they promise. `dafny verify dfyconfig.toml` checks everything.

| Component | Files | Main results |
|---|---|---|
| Graph and shortest paths (`Topology`) | `Topology.dfy`, `TopologyGraph.dfy`, `LinkLists.dfy`, `ShortestPaths.dfy`, `ExtendedReals.dfy` | both searches give shortest path trees; editing keeps the link and node lists consistent |
| Hierarchical state machine (`Macho`) | `Macho.dfy`, `MachoRuns.dfy`, `MachoStates.dfy` | everything that handlers, init actions and histories ask for is done next, over whole runs; stack discipline of entry and exit, boxes, histories, end of init chains |
| Glob patterns (`PatternMatcher`) | `PatternMatcher.dfy`, `Globs.dfy`, `GlobSyntax.dfy`, `GlobProperties.dfy`, `GlobErrors.dfy`, `GlobPrinting.dfy`, `GlobMeanings.dfy` | backtracking with shortcuts agrees with a declarative match; what each form of pattern matches; writing and reading patterns; escaping; which patterns cannot be read |
| 128-bit numbers (`Uint128`) | `Uint128.dfy`, `WideWords.dfy`, `Words.dfy`, `Numerals.dfy` | arithmetic modulo 2^128, division, printing and parsing |
| Fragment reassembly (`ReassemblyBuffer`) | `ReassemblyBuffer.dfy` | completion exactly when fragments form a chain, in every order and in some order; for a partition, when all pieces have arrived |
| Lifecycle operations (`LifecycleController`, `LifecycleOperation`, `NodeStatus`) | `LifecycleController.dfy`, `Lifecycle.dfy`, `LifecycleTree.dfy`, `NodeStatus.dfy` | stages as barriers for all modules of a tree, callbacks, status of a node under interleaved operations |
| DHCP client (`DHCPClient`) | `DHCPClient.dfy`, `DHCPFigure.dfy`, `DHCPProtocol.dfy` | the arrows of figure 5 of RFC 2131; armed timers as a function of the state, over whole runs, for the object's own methods |
| Byte queue (`ByteArrayBuffer`, `ByteArray`) | `ByteArrayBuffer.dfy`, `ByteArrays.dfy` | refinement of a byte sequence, conservation of bytes |

`Wrappers.dfy` holds the type of values that may be missing.

Each component with mutable state is a class whose methods follow the source's statements; their contracts tie the new
state to a function of the old one, or to a graph, log or byte sequence that stands for it, and lemmas prove what the
source promises about those.

How the source's terms appear in the model:

- Pointers between objects are handles, and the objects are records in tables of one class: nodes and links of a
  `Topology`, state instances of a `Macho` machine, operations and callbacks of a `LifecycleController`. Creating an
  object adds a record, deleting it removes the record; that no list refers to a deleted record is part of what is proved.
- `double` and `simtime_t` are reals, with a separate infinity where the code uses `INFINITY`.
- What comes from outside is a parameter: whether a module finishes a stage at once, what init actions and event
  handlers of a state machine ask for, transaction ids, times and messages.
- A C++ exception or failed assertion is a result value where a caller can provoke it. Assertions that cannot fail are
  proved.
- C strings are sequences of characters; the end of the sequence plays the part of the terminating NUL.

## What the proofs found

The model follows the code. These are the places where it differs from what documentation or comments say, or from what
one would expect. Where a property fails, a lemma shows it at a concrete input and another one says exactly when it holds.

- `PatternMatcher`: the documentation says that a backslash takes away the special meaning of the next character
  (PatternMatcher.h:44). An escaped '[' that is followed by "n..m]" still starts a numeric range: the pattern "\[1..2]"
  does not match "[1..2]" (`GlobErrors.EscapedRangeExample`). Escaping works for exactly the texts that contain no
  "[n..m]" (`GlobProperties.EscapeIsExactWithoutRanges`). The parser runs past the end of a pattern if and only if it
  ends in an odd number of backslashes and has no open brace, which is an error of its own (`GlobErrors.ReadingFailsIff`,
  `GlobErrors.BackslashExamples`).
- `ReassemblyBuffer`: the code relies on fragments not overlapping. An overlapping fragment is dropped as a duplicate,
  so the buffer may stay incomplete although all bytes arrived (`Reassembly.OverlapIsDropped`). When nothing arrives in
  two lengths, it completes if and only if some of the fragments form a chain from offset 0 to a last one, each beginning
  where the one before ends (`Reassembly.CompleteIffChain`). When fragments of different lengths begin at the same
  offset, the order of arrival may decide (`Reassembly.ShortFirst`, `Reassembly.LongFirst`): they complete the buffer in
  every order if and only if every chain from 0 that no fragment continues contains a last one
  (`Reassembly.CompleteInEveryOrderIff`), and in some order if and only if some such chain does
  (`Reassembly.CompleteInSomeOrderIff`).
- `DHCPClient`: an offer without an address is said to leave the client in SELECTING; the client moves on to REQUESTING,
  and has a null lease if it never had one (`DHCPProtocol.OfferWithoutAddress`,
  `DHCPProtocol.OfferWithoutAddressExample`). The error about T2 in a wrong state can be reached exactly when an ACK
  carries T2 < T1 and T2 at most the lease time (`DHCPProtocol.T2ErrorIff`, `DHCPProtocol.ImproperLease`). An
  association of the interface before START_DHCP is an error exactly when the socket has no output gate yet
  (`DHCPProtocol.StartingStep`, `DHCPProtocol.EarlyAssociation`). A client whose renewal is not answered should stay in
  RENEWING until T2 (section 4.4.5 of RFC 2131); it gives up its address after 60 seconds, unless T2 is due by then
  (`DHCPFigure.UnansweredRenewal`).
- `NodeOperations.h`: a crash is documented as having one stage; its `getNumStages` returns two, and the status is DOWN
  only after the second (`NodeStatuses.CrashHasTwoStages`).
- `Uint128::set` takes '8' as an octal digit, 'a' as a decimal and 'g' as a hexadecimal one (`Numerals.ExcessDigits`,
  `Numerals.DecimalExcess`, `Numerals.OctalExcess`, `Numerals.HexadecimalExcess`). Exactly when it gives the value of the
  proper digits is `Numerals.SetReadsProperDigitsIff`, and `Numerals.SetReadsProperDigitsIffSmall` for values that do not
  wrap. The surplus that such a character adds can also be a multiple of 2^128 and vanish (`Numerals.WrappedExcess`).
- `Topology`: the two assertions of the weighted search say less than that all weights are positive. They hold if and only
  if the nodes that reach the target and the usable links into them are weighted as the assertions demand
  (`Topologies.Topology.CalculateWeightedSingleShortestPathsTo`).

## Model

| member | source | states |
|---|---|---|
| Topologies.Topology.CalculateWeightedSingleShortestPathsTo | inet/src/base/Topology.cc:409-467 | a null target is refused; the two assertions of the loop hold throughout if and only if the weights are admissible: no node that reaches the target has a negative weight, and every usable link into such a node has a positive one; the labels are then a shortest path tree: each `dist` is the least cost of any route over enabled links and nodes, and the `outPath` chain is a route of that cost; the graph is unchanged in every case |
| Topologies.Topology.CalculateUnweightedSingleShortestPathsTo | inet/src/base/Topology.cc:365-407 | the labels are a shortest path tree of the same graph with link weights 1 and node weights 0 |
| ShortestPaths.FinishedSearch | inet/src/base/Topology.cc:428-466 | when the queue is empty the search invariant makes the labels a shortest path tree |
| ShortestPaths.FinishedMeansAdmissible | inet/src/base/Topology.cc:428-446 | when the queue is empty and no assertion failed, the weights are admissible, because every node that reaches the target was taken out |
| ShortestPaths.NoCheaperRoute | inet/src/base/Topology.cc:448-451 | no route from a node costs less than its label, by induction over all routes |
| ShortestPaths.OutLinksAttain | inet/src/base/Topology.cc:455-456 | the chain of `outPath` links reaches the target, first at its end, at exactly the labelled cost |
| ShortestPaths.InfiniteIffUnreachable | inet/src/base/Topology.cc:418-451 | a label is INFINITY exactly when every route has infinite cost or there is none |
| ShortestPaths.DistancesAreUnique | inet/src/base/Topology.cc:409-467 | any two shortest path trees agree on all distances, so the result does not depend on the order of links |
| ShortestPaths.StartInv | inet/src/base/Topology.cc:415-426 | the cleared labels with the target queued satisfy the search invariant |
| ShortestPaths.PopInv | inet/src/base/Topology.cc:428-431 | taking out the front node keeps the invariant: settled and queued nodes form one duplicate-free list sorted by distance |
| ShortestPaths.SettledIsFinal | inet/src/base/Topology.cc:448-451 | no link into the node just taken out improves a settled node |
| ShortestPaths.SkipInv | inet/src/base/Topology.cc:438-451 | links that are disabled, have a disabled source or bring no improvement need no action |
| ShortestPaths.ImproveInv | inet/src/base/Topology.cc:451-464 | an improved node with a finite label is in the queue, which the code relies on silently, and re-inserting it keeps the invariant |
| ShortestPaths.InsertedKeepsOrder | inet/src/base/Topology.cc:458-463 | inserting before the first larger distance keeps the list sorted and free of duplicates |
| TopologyGraph.NewlySettled | inet/src/base/Topology.cc:428-431 | a node is taken out of the queue at most once |
| ShortestPaths.SettledReaches | inet/src/base/Topology.cc:428-446 | what is taken out of the queue reaches the target by a route of finite cost, so the weight assertions look at such nodes and the links into them only |
| TopologyGraph.FrontIsTargetOrEnabled | inet/src/base/Topology.cc:433-443 | what is taken out of the queue is the target or an enabled node, so the weight assertion only looks at such nodes |
| ShortestPaths.JoinedCost | inet/src/base/Topology.cc:446-451 | a route costs the weights of its links and of the nodes between them |
| ShortestPaths.UnitCostIsHopCount | inet/src/base/Topology.cc:399-404 | with unit weights the cost of a route is its number of links |
| ShortestPaths.PopOneLevel | inet/src/base/Topology.cc:384-387 | waiting nodes are at most one hop beyond the last settled one |
| ShortestPaths.SeenNeedsNoLabel | inet/src/base/Topology.cc:399 | a node that has a hop count cannot be improved: testing for INFINITY is enough |
| ShortestPaths.AppendKeepsOneLevel | inet/src/base/Topology.cc:399-404 | appending to the queue is an insertion in order of distance |
| ShortestPaths.HopCountsAreMinimal | inet/src/base/Topology.cc:365-407 | a breadth-first label is the least number of links on any usable route, and is attained by the `outPath` chain |
| ShortestPaths.SearchesAgreeOnUnitWeights | inet/src/base/Topology.cc:365-467 | with link weights 1 and node weights 0 the two searches give every node the same `dist` |
| Topologies.Topology.VisitHops | inet/src/base/Topology.cc:389-405 | one round of the breadth-first search over all incoming links keeps the invariant |
| Topologies.Topology.RelaxAll | inet/src/base/Topology.cc:435-465 | one round of the weighted search over all incoming links keeps the invariant, or the assertion about link weights fails and the weights are not admissible |
| Topologies.Topology.Insert | inet/src/base/Topology.cc:451-464 | an improvement gives exactly the label and the queue order that the invariant speaks of |
| Topologies.Topology.RemoveAll | inet/src/base/Topology.cc:453-454 | `list::remove` takes out every occurrence and keeps the order |
| Topologies.Topology.FindPlace | inet/src/base/Topology.cc:458-462 | the place found is after all nodes at most as far and before the first farther one |
| Topologies.Topology.ClearPathInfo | inet/src/base/Topology.cc:415-426 | clearing leaves 0 at the target and INFINITY elsewhere, no paths, and the graph as it is |
| Topologies.Topology.LowerBound | inet/src/base/Topology.h:337-339 | the binary search finds the boundary between smaller and not smaller IDs, compared as unsigned |
| Topologies.Topology.GetNodeFor | inet/src/base/Topology.cc:356-363 | finds a node with the ID exactly when one is in the graph |
| Topologies.Topology.AddNode | inet/src/base/Topology.cc:240-255 | inserts the node before the first with an ID that is not smaller, at the end if it has none, keeps the order and adds exactly its vertex |
| Topologies.Topology.AddLink | inet/src/base/Topology.cc:283-300 | new or reconnected: the link is once in the list at each of its two new ends and nowhere else; a gate ID survives only at an end that stays |
| Topologies.Topology.DeleteLink | inet/src/base/Topology.cc:325-330 | removes exactly the arc of the link |
| Topologies.Topology.DeleteNode | inet/src/base/Topology.cc:257-281 | removes the node and exactly the links that touch it, self-loops included |
| Topologies.Topology.UnlinkFromSourceNode | inet/src/base/Topology.cc:332-338 | erases the link from the out list of its source and nothing else |
| Topologies.Topology.UnlinkFromDestNode | inet/src/base/Topology.cc:340-346 | erases the link from the in list of its destination and nothing else |
| Topologies.Topology.DeleteOutLinks | inet/src/base/Topology.cc:259-265 | the first loop of deleteNode removes exactly the links that start at the node although its own list stays as it is until the end |
| Topologies.Topology.DeleteInLinks | inet/src/base/Topology.cc:267-273 | the second loop removes exactly the links that end at the node |
| Topologies.Topology.SetNodeWeight | inet/src/base/Topology.h:113 | changes the weight of one vertex and nothing else |
| Topologies.Topology.SetNodeEnabled | inet/src/base/Topology.h:125-131 | enables or disables one vertex and nothing else |
| Topologies.Topology.SetLinkWeight | inet/src/base/Topology.h:214 | changes the weight of one arc and nothing else |
| Topologies.Topology.SetLinkEnabled | inet/src/base/Topology.h:226-232 | enables or disables one arc and nothing else |
| TopologyGraph.AddNodeConsistent | inet/src/base/Topology.cc:240-255 | inserting where the neighbours' IDs allow keeps the graph consistent |
| TopologyGraph.AddLinkConsistent | inet/src/base/Topology.cc:291-299 | appending to the lists at both ends keeps the graph consistent and adds exactly one arc |
| TopologyGraph.DeleteLinkConsistent | inet/src/base/Topology.cc:325-346 | erasing from both lists keeps the graph consistent and removes exactly one arc |
| TopologyGraph.DropNodeConsistent | inet/src/base/Topology.cc:275-280 | a node without links can be taken out of the list |
| TopologyGraph.NodeListMeans | inet/src/base/Topology.h:337-339 | the recursive order invariant means: sorted by unsigned ID, without duplicates |
| TopologyGraph.ViewIsClosed | inet/src/base/Topology.cc:240-346 | all link ends of a consistent graph are nodes of the graph |
| LinkLists.Unlist | inet/src/base/Topology.cc:332-346 | taking a link out of all lists keeps every other link where it is, once |
| MachoStates.IsChildIsPrefix | inet/src/util/Macho.h:798-802 | the recursive substate test is the prefix order on paths from Root |
| MachoStates.PivotMeans | inet/src/util/Macho.cc:139-175 | the state at which exit and entry stop is where the two chains part |
| MachoStates.TransitionIsExact | inet/src/util/Macho.cc:139-175 | a transition exits exactly the states on the way to the old one that are not proper superstates of the new one, and enters exactly the new one and the states on its way that are not on the way to the old one |
| MachoStates.ReplayTransition | inet/src/util/Macho.cc:369-387 | the exits, innermost first, and entries, outermost first, turn the stack of the old state into the stack of the new one |
| MachoStates.RememberedIsSubstate | inet/src/util/Macho.h:274-296 | a recorded history is a proper substate of its owner, on the way to the state last left inside it |
| MachoStates.RememberedIsDeclared | inet/src/util/Macho.h:274-296 | a recorded history is a declared state |
| MachoStates.RecordedAt | inet/src/util/Macho.h:692-748 | bubbling up records the child for a shallow and the left state for a deep history, in every superstate with a history, past those without one |
| MachoStates.LeavingRecords | inet/src/util/Macho.cc:372-374 | storing history on leaving a state brings the table of histories up to date with the log |
| MachoStates.TransitionRecords | inet/src/util/Macho.cc:369-387 | over a whole transition the histories change by what is stored on leaving, and by nothing else |
| MachoStates.DroppingRecords | inet/src/util/Macho.cc:177-191 | an init or a clearing drops exactly the history of its state |
| Macho.Machine.Entry | inet/src/util/Macho.cc:139-155 | enters exactly the missing states, outermost first, each with its box |
| Macho.Machine.Exit | inet/src/util/Macho.cc:157-175 | exits exactly the states to be left, innermost first, and releases their boxes |
| Macho.Machine.CreateBox | inet/src/util/Macho.h:922-928 | a state that is entered gets its box: a new one, unless a persistent one is there |
| Macho.Machine.ReleaseBox | inet/src/util/Macho.cc:169-171 | a state that is exited loses its box and keeps the memory, unless the box is persistent: such boxes survive every transition |
| Macho.Machine.DeleteBox | inet/src/util/Macho.h:408-417 | the box and place assertions hold whenever a box is deleted |
| Macho.Machine.SetHistorySuper | inet/src/util/Macho.h:742-748 | bubbling stores exactly what the strategies of the superstates say |
| Macho.Machine.NothingToRecord | inet/src/util/Macho.h:277-279 | above a superstate chain without history, bubbling stores nothing, as the source comments |
| Macho.Machine.Init | inet/src/util/Macho.cc:177-191 | init takes the history when it is asked for and there is one, and the init action otherwise; it asks for a proper substate if for anything, and uses the history up |
| Macho.Machine.Move | inet/src/util/Macho.cc:369-387 | exit, history and entry bring the machine from one state to another with stack, boxes and histories in agreement |
| Macho.Machine.Transition | inet/src/util/Macho.cc:359-410 | one round of the inner loop is exactly one step of the machine seen as a function, keeps the invariant, and the assertion about proper substates holds |
| Macho.Machine.Settle | inet/src/util/Macho.cc:358-410 | the inner loop is a sequence of such steps and ends, because each goes strictly deeper, inside the state first asked for |
| Macho.Machine.RattleOn | inet/src/util/Macho.cc:352-422 | the loop is a sequence of steps, transitions before events; it keeps the invariant for any number of rounds and stops only where nothing is pending; a pending event is the next one handled, in the state that the entries and exits have led to |
| Macho.Machine.Round | inet/src/util/Macho.cc:354-420 | one round: the transitions, none of them with an event in between, and then the event that was pending |
| MachoRuns.TransitionObeys | inet/src/util/Macho.cc:358-410 | a transition keeps this: what every entry of the log asked for is what happened next, and what the last one asked for is pending |
| MachoRuns.ReactionObeys | inet/src/util/Macho.cc:412-418 | so does the handling of an event |
| MachoRuns.RunObeys | inet/src/util/Macho.cc:352-422 | over a whole run, of any length: the transition that a handler, an init action or a history asks for is carried out next, with exits, entries and init at its target; the next event handled is the one that the last handler asked for, in the state then current; when nothing is pending at the end, nothing more was asked for |
| MachoRuns.FirstStep | inet/src/util/Macho.cc:358-410 | a pending transition is carried out first, and at its target the history is resumed if and only if it is asked for and there is one |
| MachoRuns.DispatchObeys | inet/src/util/Macho.h:1948-1960 | the same for an event given to a machine at rest: its handler gets it first |
| MachoStates.HandlingKeeps | inet/src/util/Macho.cc:412-418 | the handling of an event leaves stack and histories as they are |
| Macho.Machine.React | inet/src/util/Macho.cc:412-418 | the handler of the current state gets the event, which is recorded, and may ask for a transition and another event |
| Macho.Machine.Start | inet/src/util/Macho.cc:258-266 | start leads from Root to the given state first, exactly the current state and its superstates are entered afterwards, and everything asked for on the way was done next |
| Macho.Machine.Dispatch | inet/src/util/Macho.h:1948-1960 | the given event is handled by the current state; the transition that the handler asks for is carried out next, then the event that it asks for is handled; if it asks for nothing, state, boxes and histories stay as they are; the invariant is kept |
| Macho.Machine.Shutdown | inet/src/util/Macho.cc:278-288 | shutdown carries out a transition to Root: nothing is entered afterwards and only persistent and empty boxes are left |
| Macho.Machine.ClearHistory | inet/src/util/Macho.h:2153-2159 | clears the history of one state |
| Macho.Machine.ClearHistoryDeep | inet/src/util/Macho.cc:309-318 | clears the histories of a state and of exactly its substates |
| PatternMatching.PatternMatcher.SetPattern | inet/src/util/PatternMatcher.cc:50-96 | reads the pattern into exactly the elements of its syntax, completed for a full or substring match, or reports the unmatched brace or the overrun |
| PatternMatching.PatternMatcher.DoMatch | inet/src/util/PatternMatcher.cc:223-314 | backtracking from an element and a position agrees with the declarative match from there; it ends |
| PatternMatching.PatternMatcher.TryAnySeq | inet/src/util/PatternMatcher.cc:277-293 | "**" with both shortcuts agrees with trying all continuations |
| PatternMatching.PatternMatcher.TryCommonSeq | inet/src/util/PatternMatcher.cc:295-304 | "*" tries exactly the continuations before the next dot |
| PatternMatching.PatternMatcher.Advance | inet/src/util/PatternMatcher.cc:230-276 | every other element has at most one piece to consume, and it is found |
| PatternMatching.PatternMatcher.Matches | inet/src/util/PatternMatcher.cc:316-342 | in case-sensitive mode a text matches exactly when it can be cut into pieces that the elements consume, despite the test of the last two characters |
| PatternMatching.AnySeqAtEnd | inet/src/util/PatternMatcher.cc:278-282 | a pattern that ends in "**" matches whatever is left |
| PatternMatching.AnySeqLiteralAtEnd | inet/src/util/PatternMatcher.cc:283-284 | a pattern that ends in "**" and a literal matches what ends in the literal |
| PatternMatching.LastTwoAgree | inet/src/util/PatternMatcher.cc:325-338 | a matching text ends in the last two characters of a final literal |
| PatternMatching.RangeEnd | inet/src/util/PatternMatcher.cc:268-275 | a numeric range consumes the maximal run of digits, and nothing else |
| PatternMatching.IsInSet | inet/src/util/PatternMatcher.cc:209-221 | a character is in a set exactly when some pair of its ends encloses it, compared as signed |
| PatternMatching.ParseNumRange | inet/src/util/PatternMatcher.cc:156-183 | reads "n..m" up to the closing character, or leaves the position alone |
| PatternMatching.ParseLiteralString | inet/src/util/PatternMatcher.cc:139-154 | reads the literal of the syntax, or runs past the end of the pattern |
| PatternMatching.ParseSet | inet/src/util/PatternMatcher.cc:98-137 | reads the set of the syntax, or finds its brace unmatched |
| PatternMatching.PatternMatcher.ParseElements | inet/src/util/PatternMatcher.cc:50-76 | the token loop ends for every pattern, although the literal parser may stop without consuming anything |
| PatternMatching.PatternMatcher.Complete | inet/src/util/PatternMatcher.cc:78-95 | adds "**" at the ends for a substring match, and the end marker |
| Globs.MatchesIsMatchFrom | inet/src/util/PatternMatcher.cc:223-314 | cutting the text into pieces is the same as matching element by element |
| Globs.SpanConcat | inet/src/util/PatternMatcher.cc:223-314 | the elements of two patterns in a row match what can be cut in two |
| GlobProperties.CompletedMatches | inet/src/util/PatternMatcher.cc:78-90 | a full-string pattern matches whole texts; a substring pattern matches the texts that contain a match |
| GlobProperties.NoWildcardsIsEquality | inet/src/util/PatternMatcher.cc:370-375 | if `containsWildcards` says no, the full-string pattern matches exactly itself |
| GlobProperties.EscapeAllIsExact | inet/src/util/PatternMatcher.h:44 | a text with a backslash before every character, as a pattern, matches exactly itself |
| GlobProperties.EscapeIsExactWithoutRanges | inet/src/util/PatternMatcher.cc:139-154 | a text with its special characters escaped matches exactly itself if and only if it contains no "[n..m]": the escape of such a bracket has no effect |
| GlobProperties.NotItsOwnMatch | inet/src/util/PatternMatcher.cc:139-154 | a text with an "[n..m]" does not match its own escaped form |
| GlobErrors.EscapedRangeExample | inet/src/util/PatternMatcher.cc:139-154 | the pattern "\[1..2]" does not match the text "[1..2]" |
| GlobErrors.ReadingFailsIff | inet/src/util/PatternMatcher.cc:50-154 | for every pattern: the brace error if and only if some unescaped '{' is not closed behind its first character; else running past the end if and only if the pattern ends in an odd number of backslashes; else success |
| GlobErrors.BackslashExamples | inet/src/util/PatternMatcher.cc:139-154 | a lone backslash is read past its end; behind an open brace it is not reached |
| GlobPrinting.PatternRoundTrip | inet/src/util/PatternMatcher.cc:50-183 | writing any printable pattern elements as text and reading the text gives the elements back: literals escaped, sets as ranges, numbers in decimal |
| GlobPrinting.SetRead | inet/src/util/PatternMatcher.cc:108-136 | a set written as ranges is read as the same pairs |
| GlobPrinting.RangeRead | inet/src/util/PatternMatcher.cc:156-183 | a numeric range written in decimal is read with the same bounds, missing ones included |
| GlobMeanings.QuestionMark | inet/src/util/PatternMatcher.h:37-54 | "?" matches one character, in dottedpath mode any but a dot |
| GlobMeanings.Star | inet/src/util/PatternMatcher.h:38-54 | "*" matches every text, in dottedpath mode those without a dot |
| GlobMeanings.DoubleStar | inet/src/util/PatternMatcher.h:39 | "**" matches every text |
| GlobMeanings.SetMatches | inet/src/util/PatternMatcher.cc:98-137 | for every text between braces that is no numeric range: the pattern matches exactly the single characters that stand alone in it or lie in one of its ranges, compared as signed, where each position of the text has its role from left to right |
| GlobMeanings.NegatedSetMatches | inet/src/util/PatternMatcher.cc:98-137 | with a "^" first, exactly the other single characters |
| GlobMeanings.ItemsRead | inet/src/util/PatternMatcher.cc:108-133 | from the beginning of any item on, the parser finds the characters that stand alone and the ranges of the rest of the set |
| GlobMeanings.SetExample | inet/src/util/PatternMatcher.h:61-62 | the documented "{xyzc-f}" is the set of x, y, z, c, d, e and f |
| GlobMeanings.BraceHoldsRange | inet/src/util/PatternMatcher.cc:156-183 | braces hold a numeric range only if their text is digits, two dots and digits |
| GlobMeanings.RangeMatches | inet/src/util/PatternMatcher.h:72-75 | "{x..y}" matches exactly the numbers from x to y, and a missing end does not bound them |
| GlobMeanings.BracketRangeMatches | inet/src/util/PatternMatcher.h:43 | "node[x..y]" matches exactly "node[n]" for the numbers n from x to y |
| Uint128s.Uint128.AddAssign | inet/src/util/uint128.cc:204-214 | addition modulo 2^128; the operand may be the object itself |
| Uint128s.Uint128.Negated | inet/src/util/uint128.cc:157-163 | negation modulo 2^128 |
| Uint128s.Uint128.SubAssign | inet/src/util/uint128.h:148-151 | subtraction modulo 2^128 |
| Uint128s.Uint128.ShrAssign | inet/src/util/uint128.cc:315-346 | floor division by 2^n, for every n |
| Uint128s.Uint128.ShlAssign | inet/src/util/uint128.cc:348-379 | multiplication by 2^n modulo 2^128, for every n |
| Uint128s.Uint128.MulAssign | inet/src/util/uint128.cc:216-238 | the 128 shift-add steps multiply modulo 2^128; the operand may be the object itself |
| Uint128s.Uint128.Div | inet/src/util/uint128.cc:241-286 | for every non-zero divisor, also above 2^127, the quotient and remainder of floor division; the remainder may be the object itself or the divisor |
| Uint128s.Uint128.LeadingBits | inet/src/util/uint128.cc:259-266 | the first loop stops with the counter in range, although it may wrap past 0 on the way |
| Uint128s.Uint128.RemainingBits | inet/src/util/uint128.cc:268-282 | the second loop completes the division |
| Uint128s.Uint128.ShiftIn | inet/src/util/uint128.cc:262-275 | the shift of the remainder loses no bit when twice its value fits |
| Uint128s.TakeInBit | inet/src/util/uint128.cc:260-275 | taking in the next bit of the dividend never overflows the remainder |
| Uint128s.DivideSubtract | inet/src/util/uint128.cc:278-282 | the quotient bit that is set was clear, and the division equation is kept |
| Uint128s.Uint128.DivAssign | inet/src/util/uint128.h:152-157 | floor division in place |
| Uint128s.Uint128.ModAssign | inet/src/util/uint128.h:158-162 | the remainder in place, where the object is the remainder argument of its own division |
| Uint128s.Uint128.Bit | inet/src/util/uint128.cc:288-295 | tests bit n of the number; false from 128 on |
| Uint128s.Uint128.SetBit | inet/src/util/uint128.cc:297-312 | changes bit n and no other; nothing from 128 on |
| Uint128s.Uint128.Less | inet/src/util/uint128.h:220-223 | the comparison of halves is the order of the numbers |
| Uint128s.Uint128.ToString | inet/src/util/uint128.cc:28-49 | prints the digits of the number in the radix; "0" for zero, an error text for a radix outside 2 to 37 |
| Uint128s.Uint128.PrintInto | inet/src/util/uint128.cc:39-48 | the digits fill the buffer from the back and always fit |
| Uint128s.Uint128.Set | inet/src/util/uint128.cc:51-103 | gives the number that the text stands for: sign, prefix, digits up to the first other character |
| Numerals.DigitsRead | inet/src/util/uint128.cc:80-97 | reading the printed digits in the same radix gives the number back, for every valid radix |
| Numerals.DecimalRoundTrip | inet/src/util/uint128.cc:28-103 | `set(toString(10))` restores every number, and with a '-' before it gives its negation |
| Numerals.PrefixedRoundTrip | inet/src/util/uint128.cc:28-103 | `set` of "0x" and `toString(16)`, and of "0" and `toString(8)`, restore every number |
| Numerals.ExcessDigits | inet/src/util/uint128.cc:83-94 | in radix 8, 10 and 16 the characters taken as digits although they stand for the radix itself are '8', 'a' and 'A', 'g' and 'G', and no other digit is that large |
| Numerals.ReadsMoreIffExcess | inet/src/util/uint128.cc:80-97 | more than the proper digits is read exactly when such a character follows them, and the value is larger then |
| Numerals.ParsedIsReadValue | inet/src/util/uint128.cc:51-103 | for every text, `set` gives the value of all that is read, with its sign, modulo 2^128 |
| Numerals.SetReadsProperDigitsIff | inet/src/util/uint128.cc:51-103 | for every text: the result is the value of the proper digits modulo 2^128 if and only if no such character follows them or the surplus is a multiple of 2^128 |
| Numerals.SetReadsProperDigitsIffSmall | inet/src/util/uint128.cc:51-103 | for every text whose value does not wrap: if and only if no such character follows them |
| Numerals.DecimalExcess | inet/src/util/uint128.cc:89-92 | "1a" is read as 20 |
| Numerals.OctalExcess | inet/src/util/uint128.cc:83-88 | "08" is read as 8 |
| Numerals.HexadecimalExcess | inet/src/util/uint128.cc:89-92 | "0xg" is read as 16 |
| Numerals.WrappedExcess | inet/src/util/uint128.cc:51-103 | the surplus can be a multiple of 2^128: "264664063160729916027069139113597497798a" is read as the number without the "a" |
| Numerals.NoLeadingZero | inet/src/util/uint128.cc:69-78 | a printed number other than 0 does not start with a character that would be read as a sign or prefix |
| Numerals.DigitTable | inet/src/util/uint128.cc:45 | the characters printed for the digits 0 to 36 |
| Numerals.ReadTable | inet/src/util/uint128.cc:82-94 | in radix 8, 10 and 16, exactly which characters are read as each digit below the radix, in lower and in upper case |
| Numerals.LowerCaseRoundTrip | inet/src/util/uint128.cc:89-92 | a number printed in hexadecimal and turned into lower case is read back |
| Numerals.MinusNegates | inet/src/util/uint128.cc:63-67 | a minus sign in front negates, with or without a prefix |
| Numerals.FirstDigitCounts | inet/src/util/uint128.cc:95-96 | a digit counts for its value times the power of the radix of its place |
| WideWords.ShrHalves | inet/src/util/uint128.cc:330-343 | shifting the halves right with a mask is shifting the number |
| WideWords.ShlHalves | inet/src/util/uint128.cc:363-376 | shifting the halves left with a mask is shifting the number modulo 2^128 |
| WideWords.AddHalves | inet/src/util/uint128.cc:206-211 | the comparison after the addition detects the carry |
| Words.AndHighMask | inet/src/util/uint128.cc:369-372 | the complement of a low mask keeps exactly the high bits |
| Words.OrDisjoint | inet/src/util/uint128.cc:338-339 | or-ing numbers without common bits is adding them |
| Reassembly.PartitionIsReassembled | inet/src/base/ReassemblyBuffer.cc:39-128 | for any partition of a datagram into non-empty pieces, in any order and with any repetitions: the assembled range is the longest prefix of arrived pieces; it is complete exactly when all have arrived; its length is then that of the datagram |
| Reassembly.CompletionIsPermanent | inet/src/base/ReassemblyBuffer.cc:39-45 | once it has returned true for a partition, addFragment returns true for every further piece, with the same length |
| Reassembly.ClaimsOnlyWhatArrived | inet/src/base/ReassemblyBuffer.cc:39-128 | for any non-empty fragments, overlapping or not: every byte of the assembled range arrived, and completion needs a last fragment |
| Reassembly.CompleteIffChain | inet/src/base/ReassemblyBuffer.cc:39-128 | for all non-empty fragments none of which arrived in two lengths, in any order: the buffer completes if and only if some of them form a chain from offset 0 that contains a last one |
| Reassembly.RangeIsChain | inet/src/base/ReassemblyBuffer.cc:47-128 | for any non-empty fragments, overlapping or not: the assembled range is a chain of fragments, each beginning where the one before ends, that no arrived fragment continues |
| Reassembly.CompleteInEveryOrderIff | inet/src/base/ReassemblyBuffer.cc:47-128 | for all non-empty fragments, of any lengths: they complete the buffer in every order of arrival if and only if every chain from offset 0 that no fragment continues contains a last one |
| Reassembly.CompleteInSomeOrderIff | inet/src/base/ReassemblyBuffer.cc:47-128 | they complete it in some order if and only if some such chain contains a last one |
| Reassembly.OrderForChain | inet/src/base/ReassemblyBuffer.cc:47-128 | for every such chain there is an order in which exactly it is assembled: the chain first, the others after it |
| Reassembly.ShortFirst | inet/src/base/ReassemblyBuffer.cc:47-128 | of [0, 4), [0, 8) and a last [4, 16), all three complete the buffer when [0, 4) comes first |
| Reassembly.LongFirst | inet/src/base/ReassemblyBuffer.cc:47-128 | and do not when [0, 8) comes first |
| Reassembly.OverlapIsDropped | inet/src/base/ReassemblyBuffer.cc:76-80 | two overlapping fragments that hold the whole datagram but form no chain: the second is dropped and the buffer stays incomplete |
| Reassembly.AddPiece | inet/src/base/ReassemblyBuffer.cc:47-81 | adding any piece of a partition, new or not, keeps the invariant of the buffer |
| Reassembly.MergedKeeps | inet/src/base/ReassemblyBuffer.cc:83-128 | after merging, the first missing piece is not in the list |
| Reassembly.StuckMeans | inet/src/base/ReassemblyBuffer.cc:88-127 | when a pass deletes nothing, no stored region borders on the range or lies in it |
| Reassembly.ReassemblyBuffer.AddFragment | inet/src/base/ReassemblyBuffer.cc:39-45 | merges the fragment and tells whether the range starts at 0 and has its end |
| Reassembly.ReassemblyBuffer.Merge | inet/src/base/ReassemblyBuffer.cc:47-81 | extends, puts aside or ignores the fragment |
| Reassembly.ReassemblyBuffer.MergeFragments | inet/src/base/ReassemblyBuffer.cc:83-128 | the merge loop ends and repeats passes until one takes in nothing |
| Reassembly.ReassemblyBuffer.Sweep | inet/src/base/ReassemblyBuffer.cc:91-125 | one pass with deletion in place takes in exactly what a pass over the list does, in order |
| LifecycleControl.LifecycleController.InitiateOperation | inet/src/base/LifecycleController.cc:85-92 | returns true exactly when the operation ended within the call, and then no completion callback was invoked; every module in the tree that takes part, at any depth, was called for every stage so far, and no other module; other operations are untouched |
| LifecycleControl.LifecycleController.ResumeOperation | inet/src/base/LifecycleController.cc:94-112 | performs whole stages in order until a module is not done or all are over; on completion the callback is invoked once unless still inside the initiating call |
| LifecycleControl.LifecycleController.Complete | inet/src/base/LifecycleController.cc:108-110 | after the last stage the completion callback is invoked once, unless there is none or this is the initiating call |
| LifecycleControl.LifecycleController.DoOneStage | inet/src/base/LifecycleController.cc:114-136 | calls exactly the participating modules below a module, in order, for the current stage |
| LifecycleControl.LifecycleController.CallModule | inet/src/base/LifecycleController.cc:116-129 | the call gets the spare callback or a new one; it is handed out exactly to a module that was not done and kept as the spare one otherwise, so no callback object is lost |
| LifecycleControl.LifecycleController.InvokeCallback | inet/src/base/LifecycleController.cc:34-39 | invoking the callback of a module that was done is a usage error; any other finishes its module |
| LifecycleControl.LifecycleController.ModuleOperationStageCompleted | inet/src/base/LifecycleController.cc:138-156 | if others are busy nothing else happens; otherwise the operation moves on to a later stage or is over, and then its completion callback was invoked once |
| LifecycleControl.LifecycleController.NewOperation | inet/src/base/LifecycleOperation.h:51-62 | a new operation has not been initiated and waits for nobody |
| Lifecycle.FinishedBefore | inet/src/base/LifecycleController.cc:96-106 | between the call of a module that was not done and any call for another stage, that module has finished |
| Lifecycle.EachStageOnce | inet/src/base/LifecycleController.cc:94-112 | a participating module sees the stages 0, 1, 2 and so on, each once and in this order |
| Lifecycle.NoStageSeen | inet/src/base/LifecycleController.cc:114-136 | a module that does not take part sees no stage |
| Lifecycle.AllCallsAt | inet/src/base/LifecycleController.cc:114-136 | the i-th call of stage s goes to the i-th participant |
| LifecycleTree.ParticipantsInPreorder | inet/src/base/LifecycleController.cc:114-136 | the participants are the modules that take part at all places of the tree, below modules that do not take part as well, each place once, in preorder |
| LifecycleTree.ParticipantIff | inet/src/base/LifecycleController.cc:116-117 | a module takes part if and only if some path of child indices leads to it and it is one of those that may |
| LifecycleTree.PrecedesIsStrict | inet/src/base/LifecycleController.cc:131-135 | preorder is a strict total order of places, so no place is visited twice |
| LifecycleTree.PerformedMeans | inet/src/base/LifecycleController.cc:94-136 | after n stages exactly the modules that take part were called, for exactly the stages 0 to n - 1 |
| LifecycleTree.CallsInPreorder | inet/src/base/LifecycleController.cc:94-136 | the calls come stage by stage, and for each stage in preorder |
| LifecycleTree.SeesEveryStage | inet/src/base/LifecycleController.cc:94-136 | when an operation is over, a module with an ID of its own, at any depth, has seen every stage once and in order |
| Lifecycle.SpareIsNotPending | inet/src/base/LifecycleController.cc:119-128 | the spare callback is in no pending list |
| Lifecycle.HandOut | inet/src/base/LifecycleController.cc:121-126 | putting a callback into a pending list keeps all callbacks accounted for |
| Lifecycle.Release | inet/src/base/LifecycleController.cc:43-50 | deleting an invoked callback keeps all other callbacks accounted for |
| Lifecycle.StageOver | inet/src/base/LifecycleController.cc:102-103 | with nobody waiting, the next stage starts with no module still busy |
| NodeStatuses.NodeStatus.HandleOperationStage | inet/src/status/NodeStatus.cc:54-101 | for starts, shutdowns and crashes: which status stage 0 accepts and sets, what the last stage sets, and when an operation is rejected or an assertion fails |
| NodeStatuses.NoAssertFails | inet/src/status/NodeStatus.cc:54-101 | for every interleaving of operations whose stages come in order, and every initial status, no assertion fails and at most one operation is underway, with the status it set |
| NodeStatuses.InterleavingIsInOrder | inet/src/base/LifecycleController.cc:94-136 | when the stages of each operation come in order, so do all interleavings of the operations |
| NodeStatuses.ControlledStatusIsSafe | inet/src/status/NodeStatus.cc:54-101 | whatever the sound operations of a controller give to a status module, in any interleaving, comes in stage order, so no assertion fails |
| NodeStatuses.CourseIsCompleted | inet/src/status/NodeStatus.cc:58-99 | an operation that begins on a fitting status shows its intermediate status until its last stage and then its end status |
| NodeStatuses.CrashHasTwoStages | inet/src/base/NodeOperations.h:120-130 | a crash, documented as one stage, is down only after its second |
| NodeStatuses.StartHasEightStages | inet/src/base/NodeOperations.h:45-56 | a start is rejected unless the node is DOWN; it is GOING_UP from stage 0 and UP after stage 7 |
| NodeStatuses.ShutdownHasEightStages | inet/src/base/NodeOperations.h:68-80 | a shutdown is rejected unless the node is UP; it is GOING_DOWN from stage 0 and DOWN after stage 7 |
| NodeStatuses.StatusIsOfLastCompleted | inet/src/status/NodeStatus.cc:54-101 | over any interleaving without an error: at rest the node is UP if and only if the last operation that completed was a start, and as in the beginning if none did; while one is underway it is GOING_UP or GOING_DOWN accordingly |
| DHCPProtocol.RunsAreSound | inet/src/applications/dhcp/DHCPClient.cc:206-293 | over every run the armed timers are a function of the client state; the errors about T2 in a wrong state, an invalid or unknown client state, a second bind or a start timer already scheduled do not occur |
| DHCPProtocol.RunningStep | inet/src/applications/dhcp/DHCPClient.cc:232-537 | every event keeps a running client running until the node stops, and the remaining errors occur exactly in the listed cases |
| DHCPProtocol.NeverStuck | inet/src/applications/dhcp/DHCPClient.cc:232-293 | a running client always has a timer that expires next, and survives it |
| DHCPProtocol.StartingStep | inet/src/applications/dhcp/DHCPClient.cc:232-249 | START_DHCP brings a waiting client into a state with fitting timers, with or without a lease; an association before it fails if and only if the socket has no output gate yet |
| DHCPProtocol.DownStep | inet/src/applications/dhcp/DHCPClient.cc:733-778 | a stopped client has no timers and ignores events |
| DHCPProtocol.BoundRuns | inet/src/applications/dhcp/DHCPClient.cc:679-708 | T2 is due before T1 and the lease exactly when the times of the ACK are improper |
| DHCPProtocol.T2ErrorIff | inet/src/applications/dhcp/DHCPClient.cc:279-283 | the T2 error is reachable as the next event after an ACK if and only if T2 is less than T1 and at most the lease time |
| DHCPProtocol.ImproperLease | inet/src/applications/dhcp/DHCPClient.cc:279-283 | a run of a new client from its start to the T2 error: an offer, an ACK with T1 = 10, T2 = 5 and a lease of 20, and T2 |
| DHCPProtocol.OfferWithoutAddress | inet/src/applications/dhcp/DHCPClient.cc:295-313 | an offer without an address moves the client to REQUESTING, or ends in a null lease, where its message says it stays in SELECTING |
| DHCPFigure.TimersFollowFigure | inet/src/applications/dhcp/DHCPClient.cc:232-293 | for every timer, the state, the timers, the lease and the message sent after it ends, as in figure 5 of RFC 2131, and exactly when it is an error instead |
| DHCPFigure.MessagesFollowFigure | inet/src/applications/dhcp/DHCPClient.cc:423-537 | for every message in every state, the state, the timers, the lease and the message sent after it, and exactly when it is an error instead |
| DHCPFigure.UnansweredRenewal | inet/src/applications/dhcp/DHCPClient.cc:260-265 | a bound client whose renewal is not answered gets to REBINDING if and only if T2 is due within the 60 seconds of the request; otherwise it gives up its address before T2 |
| DHCPProtocol.OfferWithoutAddressExample | inet/src/applications/dhcp/DHCPClient.cc:447-453 | a concrete run: the first offer of a new client has no address and ends in the null lease |
| DHCPProtocol.EarlyAssociation | inet/src/applications/dhcp/DHCPClient.cc:544-557 | a concrete run: an association before the first START_DHCP ends in the error about the missing output gate |
| DHCPClients.DHCPClient.constructor | inet/src/applications/dhcp/DHCPClient.cc:31-42 | a new client is down, idle and without timers |
| DHCPClients.DHCPClient.Initialize | inet/src/applications/dhcp/DHCPClient.cc:53-106 | on a node that is up the client waits for START_DHCP, or fails if it finds no free interface; on a node that is down it has no timers |
| DHCPClients.DHCPClient.HandleTimer | inet/src/applications/dhcp/DHCPClient.cc:232-293 | each timer has exactly its effect on state, timers, transaction and messages sent |
| DHCPClients.DHCPClient.HandleDHCPMessage | inet/src/applications/dhcp/DHCPClient.cc:423-537 | each message has exactly its effect in each state |
| DHCPClients.DHCPClient.HandleDHCPACK | inet/src/applications/dhcp/DHCPClient.cc:679-686 | an ACK arms T1, T2 and the lease timer, in this order, and ends the wait |
| DHCPClients.DHCPClient.InitClient | inet/src/applications/dhcp/DHCPClient.cc:402-414 | discovery restarts with the offer timeout as the only timer |
| DHCPClients.DHCPClient.InitRebootedClient | inet/src/applications/dhcp/DHCPClient.cc:416-421 | rebooting requests the old lease and waits for an ACK |
| DHCPClients.DHCPClient.SendRequest | inet/src/applications/dhcp/DHCPClient.cc:566-624 | a request needs one of four states, a lease and an output gate |
| DHCPClients.DHCPClient.OpenSocket | inet/src/applications/dhcp/DHCPClient.cc:718-724 | sets the output gate and binds the port, unless it is bound already |
| DHCPClients.DHCPClient.TimerExpires | inet/src/applications/dhcp/DHCPClient.cc:206-293 | a timer that expires leads along its arrow of the figure: T1 from BOUND to RENEWING with T2 and lease kept, T2 to REBINDING, the end of the lease and the timeouts to SELECTING, START_DHCP to REBOOTING or SELECTING; a sound client stays sound |
| DHCPClients.DHCPClient.MessageArrives | inet/src/applications/dhcp/DHCPClient.cc:206-226 | a message leads along its arrow of the figure: an offer to REQUESTING, an ACK to BOUND with its three times armed, a NAK to SELECTING, and one of another transaction nowhere; messages are dropped while the node is down; a sound client stays sound |
| DHCPClients.DHCPClient.InterfaceAssociated | inet/src/applications/dhcp/DHCPClient.cc:544-558 | association of the own interface restarts discovery, or fails without an output gate; a sound client stays sound |
| DHCPClients.DHCPClient.InterfaceIsDeleted | inet/src/applications/dhcp/DHCPClient.cc:559-563 | deleting an interface is an error while the node is up; a sound client stays sound |
| DHCPClients.DHCPClient.StartApp | inet/src/applications/dhcp/DHCPClient.cc:726-756 | starting schedules START_DHCP at the start time, or at once if that has passed, unless no free interface is found; a sound client stays sound |
| DHCPClients.DHCPClient.StopApp | inet/src/applications/dhcp/DHCPClient.cc:733-774 | stopping cancels every timer and leaves the port; state and lease stay |
| ByteArrayBuffers.ByteArrayBuffer.Push | inet/src/base/ByteArrayBuffer.cc:37-41 | appends the bytes to the contents and keeps the count |
| ByteArrayBuffers.ByteArrayBuffer.PushBuffer | inet/src/base/ByteArrayBuffer.cc:43-49 | appends the bytes of a raw buffer |
| ByteArrayBuffers.ByteArrayBuffer.GetBytesToBuffer | inet/src/base/ByteArrayBuffer.cc:51-71 | copies exactly the slice of the contents at the offset, across chunk borders and empty chunks, and leaves the rest of the target alone |
| ByteArrayBuffers.ByteArrayBuffer.PopBytesToBuffer | inet/src/base/ByteArrayBuffer.cc:73-76 | moves the first bytes out: old contents are the bytes moved followed by the new contents |
| ByteArrayBuffers.ByteArrayBuffer.Drop | inet/src/base/ByteArrayBuffer.cc:78-103 | removes exactly the first bytes and ends on empty chunks; over any run, the bytes pushed are the bytes removed followed by those left |
| ByteArrayBuffers.ByteArrayBuffer.DropFromFirst | inet/src/base/ByteArrayBuffer.cc:94-97 | truncating the first chunk shortens the contents by as much |
| ByteArrayBuffers.ByteArrayBuffer.Clear | inet/src/base/ByteArrayBuffer.cc:105-113 | empties the buffer and counts its bytes as removed |
| ByteArrays.ByteArray.CopyDataToBuffer | inet/src/base/ByteArray.cc:52-61 | writes exactly the slice that exists and returns its length |
| ByteArrays.ByteArray.TruncateData | inet/src/base/ByteArray.cc:70-87 | cuts bytes off both ends |
| ByteArrays.ByteArray.AddDataFromBuffer | inet/src/base/ByteArray.cc:37-50 | appends bytes |
| ByteArrays.ByteArray.SetDataFromBuffer | inet/src/base/ByteArray.cc:19-29 | replaces the bytes |
| ByteArrays.GatherPiece | inet/src/base/ByteArrayBuffer.cc:56-69 | copying the slice of one chunk and adjusting the offset keeps what is wanted split between target and remaining chunks |
| ByteArrays.SliceAcross | inet/src/base/ByteArrayBuffer.cc:56-69 | a slice of two pieces in a row is a slice of the first followed by one of the second |
| ByteArrays.SliceHolds | inet/src/base/ByteArrayBuffer.cc:56-69 | a slice holds as many bytes as there are, up to the length asked for, in their order |

## Left out

Assumptions:

- DHCPProtocol.RunsAreSound: assumes that only nodes that are down are started, and that ACKs which the client acts on carry T1 <= T2 or a lease time below T2 (`DHCPProtocol.T2ErrorIff` says what happens otherwise). DHCP messages are sent to port 68, so they reach the client only while its socket is bound to it; that UDP drops all sockets when the node goes down is part of the model.
- LifecycleControl.LifecycleController.DoOneStage: assumes that `handleOperationStage` does not call back into the controller, because the spare callback is shared during that call.
- LifecycleControl.LifecycleController.InvokeCallback: a callback that was invoked before is freed memory, so only live callbacks may be invoked; a new callback may get the address of a freed one.
- Macho.Machine.RattleOn: the outer loop over events need not end, so it is cut after a given number of rounds; every number is covered.
- Topologies.Topology.CalculateWeightedSingleShortestPathsTo: weights are reals without rounding; that a failed assertion ends the simulation with labels half done is not described further.
- NodeStatuses.NoAssertFails: an operation that is rejected raises an error that ends the simulation, so a run stops there.
- ByteArrays.ByteArray.CopyDataToBuffer: offsets and lengths are unbounded numbers; the sum of offset and length is assumed to fit 32 bits.
- Uint128s.Uint128.Div: division by zero traps in the source and is excluded.
- Uint128s.Uint128.ToString: the static buffer is new in each call; that a later call overwrites an earlier result is not modelled. `set` of a null pointer gives 0 like the empty text.

Not modelled:

- The simulation kernel: module lookup, gates, signals, display strings, logging, XML configuration, the transport below sockets, and reading a topology from the network (`extractFromNetwork`).
- Object identity and memory: handles and tables stand for pointers, so aliasing of records and freeing of memory are not modelled. The log line of `moduleOperationStageCompleted` reads the callback after it was freed; the model has no such line.
- `Topology`: the overload of `addLink` for gates, which throws after unlinking, and `outPath` pointers to nodes deleted after a search.
- `Macho`: snapshots, deprecated boxes, the box given to a machine's constructor, aliases, initialisers with parameters, and the template layer that builds the tree of states.
- `PatternMatcher`: `patternPrefixMatches`, case-insensitive mode and `debugStr`.
- `Uint128`: conversions from and to floating point and signed numbers, increments, and the bitwise assignments on whole numbers.
- `Int128`: its comparison of negative numbers is not the order of the integers.
- `DHCPClient`: routes, the address of the interface, of the messages that are sent all but kind, transaction id and address, and of the socket all but its output gate and its port; `DHCPServer`, which handles only DISCOVER in this copy.
- `DijkstraKshortest` and `WirelessNumHops`: their comparators are not strict weak orders; `Topology` gives the shortest path result.
- `ByteArray`: `assignBuffer` and `setDataFromByteArray`, which add nothing to the other methods.
- GlobPrinting.PatternRoundTrip: a set with a range that ends in '}', or with '^' as its first character, has no written form of this kind.
- Queues, meters, traffic generators, HTTP tools and capture files: plumbing or easy members.
