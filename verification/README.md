# Verified models of the chat and game server

This project models the parts of the server, its rule interpreter and its copy of Google Mock whose
correctness is not plain from any one function, and proves what they are meant to guarantee.  Run
`dafny verify dfyconfig.toml` to check it.

Each part has the same shape.  Values and pure functions say what an operation does; lemmas about them
say what that is worth, over every input, run or interleaving; and classes in the source's own form
(fields, loops, updates in place) are verified against those functions.

* **Bipartite matching** (`BipartiteMatching`, `MatchMatrix`, `MaxBipartiteMatchState`,
  `UnorderedElements`).  The depth-first search of `MaxBipartiteMatchState` updates `left`, `right` and
  `seen` in place and tries each left node once.  The nodes a failed search has marked form a *dead end*
  that later successful searches never touch; with the left nodes matched outside it, it covers all
  edges, one per pair, so no matching is larger.  `FindPairing` is thereby exact, and `NextGraph`, as
  binary counting, visits every graph once.  `seen` is a field here, lent by `Compute` to the search.
* **Rule interpreter** (`Tokenizer`, `Expressions`, `RuleSemantics`, `CopiedTop`, `RuleMachine`).  The loop
  of `GameInstance::updateState` over a stack of rule states, for any chains of nested `ForEach` and `Add`
  rules.  The source copies the record on top before the visit
  (module/game_manager/include/GameInstance.h:61) and so sees the flags the visitors set one pass late;
  the comment at module/game_manager/src/DSLInterpreter.cpp:526-529 states the protocol that was meant.
  Both readings are modelled.  `UpdateState` is the loop as coded and `UpdateStateByReference` the loop as
  meant; each is proved to end in the state its own recursive semantics ends in, after exactly as many
  visits as the rules take.  The two semantics differ: as coded every `Add` is carried out twice, and a
  loop runs its nested chain for all elements but the first and once more with its variable erased.
  `AddAsMeantIff` and `SumLoopAsMeantIff` say exactly when that makes no difference, and
  `FreshVariableThrows` is an input on which it does.
* **Socket writes** (`SocketWrites`).  A queue and a buffer under a mutex and one atomic flag, as a state
  machine over the atomic steps of any number of senders and the completion handler.  The weak
  compare-exchange may fail spuriously: `SpuriousFailureStrands` is a run in which that leaves a message
  behind, and `QuietMeansDelivered` says when none is.  Popping the queue is a step that needs a message:
  `LateClaimFindsNothing` is a run in which the program pops an empty queue, and `WinsOverNothingIff` and
  `ClaimKeepsQueue` say exactly when that happens.
* **Rooms** (`RoomCaches`, `RoomRules`, `Room`).  The four ordered caches and the counter of a room are
  determined by its members, and every operation keeps them so; the operations are then stated on the
  members alone, and every run of them keeps the limits, the counts and the owner right.
* **Simon** (`SimonRules`, `Simon`).  The game on top of a room.  Wherever the program follows a pointer
  the model takes a value out of an option, so that one is found is verified.  `RoundSurvivors` says what
  a round is for: those who remain are Simon and whoever repeated what Simon said.
* **Expectations** (`PrerequisiteGraphs`, `Expectations`).  The worklists over the prerequisites of mock
  expectations, two of which keep no visited set; an expectation weighs more than all its prerequisites
  together, which bounds the search.  Sequences and calls keep what those worklists rely on.
* **Channels** (`Channels`).  Broadcasts, consumer creation, removal and receives in any interleaving.

Clocks, the answers of callbacks and the choice of interleaving are parameters.  `UserId` stands for the
id of a user and for pointers to them.

## Model

| member | source | states |
|---|---|---|
| BipartiteMatching.LinkedPairsAreAMatching | test/lib/googlemock/src/gmock-matchers.cc:208-221 | Mutually referent `left` and `right` vectors stand for a matching. |
| BipartiteMatching.DeadEndCertifiesMaximum | test/lib/googlemock/src/gmock-matchers.cc:131-161 | If every unmatched left node sees only a dead end, no matching of the graph has more pairs: the duality argument behind trying each left node once. |
| BipartiteMatching.MaximumFillsLeft | test/lib/googlemock/src/gmock-matchers.cc:436-446 | A maximum matching has a pair for each element if and only if elements inject into matchers along edges. |
| BipartiteMatching.MaximumFillsRight | test/lib/googlemock/src/gmock-matchers.cc:424-435 | A maximum matching has a pair for each matcher if and only if matchers inject into elements along edges. |
| AugmentingPaths.LinkToFreeNode | test/lib/googlemock/src/gmock-matchers.cc:198-203 | Linking to an unmatched right node augments the matching and touches no dead end; a node that has this edge sees more than any dead end. |
| AugmentingPaths.LinkThroughPartner | test/lib/googlemock/src/gmock-matchers.cc:195-203 | Linking to a right node whose former partner found another place augments the matching, repairs the one link the recursion left stale, and touches no dead end. |
| AugmentingPaths.ExhaustedAfterDeadBranch | test/lib/googlemock/src/gmock-matchers.cc:188-204 | After a branch that failed, the marked right nodes are matched and closed under residual reachability. |
| AugmentingPaths.ExhaustedExtendsDeadEnd | test/lib/googlemock/src/gmock-matchers.cc:133-144 | What a failed search has marked extends every earlier dead end to one that also holds all neighbours of the node it started from. |
| AugmentingPaths.DeadEndKept | test/lib/googlemock/src/gmock-matchers.cc:133-144 | Later augmentations leave a dead end dead, so a left node that failed once need not be tried again. |
| MaxBipartiteMatchStates.MaxBipartiteMatchState.TryAugment | test/lib/googlemock/src/gmock-matchers.cc:166-206 | Terminates; on failure changes neither vector and leaves the newly marked nodes closed under residual reachability; on success links the start node, leaves every other left node matched or unmatched as it was, unmatches no right node, and leaves the vectors mutually referent except at the entry its caller is about to relink; nodes inside a dead end never succeed. |
| MaxBipartiteMatchStates.MaxBipartiteMatchState.Compute | test/lib/googlemock/src/gmock-matchers.cc:129-161 | The pairs returned are a matching, each listed once, and no matching of the graph is larger. |
| MaxBipartiteMatchStates.MaxBipartiteMatchState.CollectPairs | test/lib/googlemock/src/gmock-matchers.cc:154-160 | Lists exactly the pairs of the `left` vector, none twice. |
| MaxBipartiteMatchStates.FindMaxBipartiteMatching | test/lib/googlemock/src/gmock-matchers.cc:228-230 | Returns a maximum matching of any graph. |
| MatchMatrices.MatchMatrix.constructor | test/lib/googlemock/include/gmock/gmock-matchers.h:2839-2843 | A new matrix describes the graph without edges. |
| MatchMatrices.MatchMatrix.SpaceIndexInjective | test/lib/googlemock/include/gmock/gmock-matchers.h:2864-2866 | Different coordinates have different cells of the flattened matrix. |
| MatchMatrices.MatchMatrix.HasEdge | test/lib/googlemock/include/gmock/gmock-matchers.h:2847-2849 | True exactly for the edges of the graph the cells describe. |
| MatchMatrices.MatchMatrix.SetEdge | test/lib/googlemock/include/gmock/gmock-matchers.h:2850-2852 | Adds or removes that edge and no other. |
| MatchMatrices.MatchMatrix.NextGraph | test/lib/googlemock/src/gmock-matchers.cc:247-259 | Adds one to the matrix read in row-major order, first cell least significant; false exactly on the all-ones matrix, which becomes all zeros. |
| BinaryCounting.IncrementAddsOne | test/lib/googlemock/include/gmock/gmock-matchers.h:2854-2857 | Clearing the leading ones and setting the first zero adds one to the number the bits stand for, wrapping only from the largest. |
| MatchMatrices.MatchMatrix.AllGraphs | test/lib/googlemock/test/gmock-matchers_test.cc:6055-6091 | Driving `NextGraph` from the empty matrix until it returns false terminates, each matrix the successor of the one before, up to all ones. |
| BinaryCounting.EnumerationIsExact | test/lib/googlemock/include/gmock/gmock-matchers.h:2833-2836 | Such an enumeration lists every matrix exactly once, in as many steps as there are matrices. |
| UnorderedElements.UnorderedElementsAreMatcherImplBase.VerifyMatchMatrix | test/lib/googlemock/src/gmock-matchers.cc:365-418 | For a superset, true exactly if every matcher matches some element; for a subset, if every element matches some matcher; for an exact match, both. |
| UnorderedElements.UnorderedElementsAreMatcherImplBase.FindPairing | test/lib/googlemock/src/gmock-matchers.cc:420-459 | For a superset, true exactly if matchers inject into elements along edges; for a subset, if elements inject into matchers; for an exact match, if a permutation of the elements matches all matchers.  Then the first check holds as well. |
| UnorderedElements.PairableByFlag | test/lib/googlemock/src/gmock-matchers.cc:424-446 | What FindPairing decides, flag by flag. |
| UnorderedElements.CoveredByFlag | test/lib/googlemock/src/gmock-matchers.cc:385-416 | What VerifyMatchMatrix decides, flag by flag. |
| UnorderedElements.HasAnEdge | test/lib/googlemock/src/gmock-matchers.cc:377-383 | A matcher or an element counts as matched exactly if some edge ends there. |
| UnorderedElements.PairableImpliesCovered | test/lib/googlemock/src/gmock-matchers.cc:365-367 | The first check rejects nothing that could be paired. |
| UnorderedElements.ExactMatchIsPermutation | test/lib/googlemock/src/gmock-matchers.cc:425-446 | With both flags, pairing succeeds exactly if some permutation of the elements matches all matchers. |
| Tokenizer.CountUnclosedParenthesis | module/game_manager/src/DSLInterpreter.cpp:13-21 | The opening parentheses of the text less the closing ones. |
| Tokenizer.TokenizeDotNotation | module/game_manager/src/DSLInterpreter.cpp:23-47 | The reader with its pending buffer returns the tokens as defined by cutting at the dots outside parentheses. |
| Tokenizer.JoinTokens | module/game_manager/src/DSLInterpreter.cpp:23-47 | Joining the tokens with dots gives the text back, except that balanced text loses a final dot and unbalanced text without one gains it. |
| Tokenizer.JoinTokensIff | module/game_manager/src/DSLInterpreter.cpp:23-47 | So it gives the text back if and only if the text is empty, or balanced without a final dot, or unbalanced with one. |
| Tokenizer.SeparatorsAreCuts | module/game_manager/src/DSLInterpreter.cpp:23-47 | Any text is separated at exactly the dots before which parentheses balance, but for one at the very end. |
| Tokenizer.TokensOfJoin | module/game_manager/src/DSLInterpreter.cpp:23-47 | Tokenizing a join of well-formed names, the last not empty, returns those names. |
| Expressions.ExpressionPtr.GetPtr | module/game_spec/src/ExpressionPtr.cpp:30-55 | Finds what the path names through nested maps, and nothing when a key is missing, leads to no map, or the path is empty. |
| Expressions.ExpressionPtr.Store | module/game_spec/src/ExpressionPtr.cpp:57-65 | Replaces what the path names and fails exactly if it names nothing. |
| Expressions.ResolveByWalk | module/game_spec/src/ExpressionPtr.cpp:30-55 | A path names a value if and only if it leads to it key by key through nested maps. |
| Expressions.StoreThenGet | module/game_spec/src/ExpressionPtr.cpp:57-65 | A stored value is read back by the same path. |
| Expressions.StoreReadBack | module/game_spec/src/ExpressionPtr.cpp:57-65 | Storing what was read changes nothing. |
| Expressions.StoreTwice | module/game_spec/src/ExpressionPtr.cpp:57-65 | A second store to a path undoes the first. |
| Expressions.StoreElsewhere | module/game_spec/src/ExpressionPtr.cpp:30-65 | A path that diverges from the stored one resolves as before, at any depth. |
| Expressions.StoreAbove | module/game_spec/src/ExpressionPtr.cpp:30-65 | A longer path is resolved inside the stored value. |
| Expressions.StoreBelow | module/game_spec/src/ExpressionPtr.cpp:30-65 | A shorter path names the map in which the store was carried out. |
| RuleMachines.GameInstance.LookupLocalScope | module/game_manager/src/DSLInterpreter.cpp:320-332 | Searches the contexts from the innermost outwards for one that resolves the path. |
| RuleSemantics.LookupLocalIsInnermost | module/game_manager/src/DSLInterpreter.cpp:320-332 | The result is that of the innermost context that resolves the whole path, and there is one exactly if some context does. |
| RuleMachines.GameInstance.LookupWithIndices | module/game_manager/src/DSLInterpreter.cpp:334-352 | Contexts first, then variables, then constants. |
| RuleSemantics.LookupFallsBack | module/game_manager/src/DSLInterpreter.cpp:334-352 | If no context resolves the path the result is that of the variables, or if they do not resolve it either, that of the constants. |
| RuleSemantics.LookupInContext | module/game_manager/src/DSLInterpreter.cpp:345-352 | If some context resolves it, the result is that of the innermost. |
| RuleMachines.GameInstance.EvaluateExpression | module/game_manager/src/DSLInterpreter.cpp:396-426 | A literal is returned as it is; a string evaluates as the two laws that follow say. |
| RuleSemantics.LiteralsEvaluateToThemselves | module/game_manager/src/DSLInterpreter.cpp:396-401 | A literal is its own value. |
| RuleSemantics.StringsEvaluateByChain | module/game_manager/src/DSLInterpreter.cpp:402-425 | A string has a value if and only if its names before the first attribute name something from which the attributes lead on, each from one value to the next; the value is the last of these. |
| RuleSemantics.AttributesAreWords | module/game_manager/src/DSLInterpreter.cpp:49-60 | A token is an attribute exactly if one of five words occurs anywhere in it. |
| RuleSemantics.BindScope | module/game_manager/src/DSLInterpreter.cpp:552-553 | Binding the variable of a loop changes what its name resolves to in the innermost context and nothing else. |
| RuleSemantics.UnbindScope | module/game_manager/src/DSLInterpreter.cpp:543-545 | Erasing it leaves paths that begin with its name unresolved there, and changes nothing else. |
| RuleMachines.GameInstance.constructor | module/game_manager/include/GameInstance.h:44-52 | An instance works on the stack of the state it is given, with nothing added to it. |
| RuleMachines.GameInstance.VisitForEach | module/game_manager/src/DSLInterpreter.cpp:524-556 | One visit: binds the next element and asks for the nested rules, or finishes and erases the variable; touches only the top record, the innermost context and nothing below. |
| RuleMachines.GameInstance.VisitAdd | module/game_manager/src/DSLInterpreter.cpp:558-580 | One visit, with or without a scope: stores the sum and finishes, or throws and changes nothing. |
| RuleMachines.GameInstance.UpdateState | module/game_manager/include/GameInstance.h:54-82 | The loop as coded, testing a copy made before the visit: for every stack of records it terminates in the state execution by copy ends in, thrown or not; a run that does not throw empties the stack after exactly the number of visits computed from the rules. |
| RuleMachines.GameInstance.UpdateStateByReference | module/game_manager/src/DSLInterpreter.cpp:526-529 | The loop as meant, testing the record the visitor has written: the same for the recursive execution of the rules. |
| RuleStacks.UnwindStarted | module/game_manager/include/GameInstance.h:66-72 | For a stack freshly made from a chain, that is the execution of the chain, by copy or as meant. |
| RuleStacks.VisitKeepsMeaning | module/game_manager/include/GameInstance.h:59-81 | Under either reading, a visit and the branch taken after it keep what resuming the stack recursively would do, and use up exactly one of the visits the stack takes. |
| RuleStacks.ThrowEndsRun | module/game_manager/include/GameInstance.h:59-81 | Under either reading, a visit that throws ends in the state recursive execution throws in. |
| RuleStacks.UnnoticedVisit | module/game_manager/include/GameInstance.h:61-81 | As coded, a first visit leads to no branch: the loop comes around to the record the visitor has changed. |
| CopiedTop.CopyAddsTwice | module/game_manager/include/GameInstance.h:61-76 | As coded, an `Add` of any value is carried out twice, the second time with what the value has come to be, before whatever rules follow; as meant, once. |
| CopiedTop.AddOfLiteral | module/game_manager/src/DSLInterpreter.cpp:560-580 | An `Add` of a literal n takes a total t to t + n as meant and to t + 2n as coded, whatever rules follow. |
| CopiedTop.AddToNothingThrows | module/game_manager/src/DSLInterpreter.cpp:565-573 | An `Add` to anything but a path that names a number throws and changes nothing. |
| CopiedTop.AddAsMeantIff | module/game_manager/include/GameInstance.h:61-76 | An `Add` alone does as meant if and only if it throws, or its value is zero when it is evaluated again. |
| CopiedTop.CopyRunsRestThenUnbound | module/game_manager/include/GameInstance.h:61-76 | As coded, the rounds of a loop run its nested chain for every element after the first, in order and bound, and once more unbound. |
| CopiedTop.CopiedSumLoop | module/game_manager/include/GameInstance.h:61-76 | As coded, a loop that adds its variable to a total adds every element but the first twice, and then carries out its rule once more with the variable erased. |
| CopiedTop.SumLoopAsMeantIff | module/game_manager/include/GameInstance.h:61-76 | Such a loop does as meant if and only if its list is empty, or its variable, once erased, names a number outside, there and again after adding it, and with both that makes up the sum of the list. |
| CopiedTop.OutsideIsSteady | module/game_manager/include/GameInstance.h:61-76 | If the total goes by another name, what the variable then names is what it names before the loop, both times. |
| CopiedTop.UnknownOutsideThrows | module/game_manager/include/GameInstance.h:61-76 | If that is no number, the loop throws where it should add, unless its list is empty, when it does as meant. |
| CopiedTop.FreshVariableThrows | module/game_manager/include/GameInstance.h:61-76 | A loop over one element whose variable is a fresh name: as meant it adds, as coded it throws. |
| RuleSemantics.ForEachRunsOncePerElement | module/game_manager/src/DSLInterpreter.cpp:524-556 | As meant, a loop runs its nested chain once per element, in order, with the variable bound to it, and leaves the variable unbound. |
| RuleSemantics.SumLoopAddsTheSum | module/game_manager/src/DSLInterpreter.cpp:524-580 | As meant, a loop that adds its variable to a total adds the sum of the list to it and changes nothing else. |
| BeastSockets.BeastSocket.PushMessage | module/networking_websocket/src/BeastSocket.cpp:151-155 | The locked push is one step of the protocol. |
| BeastSockets.BeastSocket.ClaimWrite | module/networking_websocket/src/BeastSocket.cpp:157-160 | The compare-exchange is one step, the spurious failure of a weak one included; it wins exactly if the flag was set and it did not fail spuriously. |
| BeastSockets.BeastSocket.FillWriteBuffer | module/networking_websocket/src/BeastSocket.cpp:60-74 | The locked move of the oldest message into the buffer is one step. |
| BeastSockets.BeastSocket.StartAsyncWrite | module/networking_websocket/src/BeastSocket.cpp:76-78 | Handing over the buffer is one step. |
| BeastSockets.BeastSocket.OnAsyncWrite | module/networking_websocket/src/BeastSocket.cpp:99-102 | Completion is one step, after which an error ends all writing. |
| BeastSockets.BeastSocket.InspectQueue | module/networking_websocket/src/BeastSocket.cpp:104-118 | The locked inspection is one step: another write exactly if messages wait, otherwise the flag is set. |
| SocketProtocol.RunKeepsInv | module/networking_websocket/src/BeastSocket.cpp:60-161 | Every interleaving, spurious failures included, keeps the invariant: who may write, order of messages, stable buffer, and somebody to write what waits unless an exchange was missed. |
| SocketProtocol.AtMostOneWrite | module/networking_websocket/src/BeastSocket.cpp:60-161 | In every reachable state at most one thread is in the write path, and never while a write is in flight or the flag is set. |
| SocketProtocol.BufferUntouchedInFlight | module/networking_websocket/src/BeastSocket.cpp:68-78 | No step changes the buffer between hand-over and completion, and no write starts while one is in flight. |
| SocketProtocol.HistoryIsTheRun | module/networking_websocket/src/BeastSocket.cpp:60-161 | In every run the messages recorded as pushed are those of the sends, in order, those recorded as written are the contents of the buffer at each hand-over, and writing has failed exactly if some completion reported an error. |
| SocketProtocol.MessagesInOrder | module/networking_websocket/src/BeastSocket.cpp:60-161 | In every run, the messages handed to the socket, then at most one in the buffer, then the queue are all messages sent, in the order they were sent. |
| SocketProtocol.QuietMeansDelivered | module/networking_websocket/src/BeastSocket.cpp:99-161 | In every run without a failed write, once all threads have returned and no write is in flight, some of the messages sent are left over if and only if a compare-exchange failed spuriously while the flag was set and messages waited, and none followed. |
| SocketProtocol.FlagSetMeansSenderComing | module/networking_websocket/src/BeastSocket.cpp:157-160 | In every run, if the flag is set and messages wait, some sender is between its push and its compare-exchange, or one has failed spuriously and none has followed. |
| SocketProtocol.MissedIffLeftBehind | module/networking_websocket/src/BeastSocket.cpp:157-160 | The history knows of a missed exchange exactly if the run contains one with no exchange after it. |
| SocketProtocol.NobodyIsStuck | module/networking_websocket/src/BeastSocket.cpp:60-161 | In every reachable state every thread can take its next step, except over an empty queue. |
| SocketProtocol.StrongExchangeMissesNothing | module/networking_websocket/src/BeastSocket.cpp:157-160 | In a run without spurious failures no exchange is missed, so the two results above hold without exception. |
| SocketProtocol.SpuriousFailureStrands | module/networking_websocket/src/BeastSocket.cpp:157-160 | A run in which the only sender fails spuriously and its message stays in the queue with the flag set. |
| SocketProtocol.LateClaimFindsNothing | module/networking_websocket/src/BeastSocket.cpp:60-73 | A run in which a sender whose message others have drained wins the right to write over an empty queue. |
| SocketProtocol.WinsOverNothingIff | module/networking_websocket/src/BeastSocket.cpp:157-160 | In every run, a sender that wins does so over an empty queue if and only if all messages sent have been handed over. |
| SocketProtocol.ClaimKeepsQueue | module/networking_websocket/src/BeastSocket.cpp:60-73 | Until a thread that has claimed fills the buffer, the queue is what it claimed over plus what was pushed since, so it stays empty until something is pushed. |
| OrderedCaches.InsertFacts | module/chat/src/Room.cpp:89-104 | Inserting keeps a cache ordered by join time and adds that member. |
| OrderedCaches.EraseFacts | module/chat/src/Room.cpp:72-87 | Erasing keeps the order and removes exactly the entry with that join time. |
| OrderedCaches.CachesByStatus | module/chat/src/Room.cpp:72-104 | Which members are in which cache: all users in two, players who are not disqualified in one, everybody else in the fourth; the counter is the number of disqualified. |
| OrderedCaches.AgreementIsUnique | module/chat/include/Room.hpp:108-126 | The members determine all four caches, order included, and the counter. |
| OrderedCaches.RemovedAgrees | module/chat/src/Room.cpp:72-87 | Taking a member out leaves caches and counter that agree with the members without it. |
| OrderedCaches.AddedAgrees | module/chat/src/Room.cpp:89-104 | Putting a member in leaves caches and counter that agree with the members with it. |
| OrderedCaches.GuardedChangeAgrees | module/chat/src/Room.cpp:19-27 | A guarded change of a member restores the agreement the guard broke. |
| Rooms.Room.CachedRemove | module/chat/src/Room.cpp:72-87 | Given the member as the caches know it, leaves them agreeing with the members without it. |
| Rooms.Room.CachedAdd | module/chat/src/Room.cpp:89-104 | Given a new member and caches that agree with the others, leaves them agreeing with all members. |
| Rooms.Room.ChangeGuarded | module/chat/src/Room.cpp:19-27 | Changes one member and nothing else, and the caches agree before and after. |
| Rooms.CountsFromCaches | module/chat/src/Room.cpp:147-165 | The counts computed from the caches are those of the members; the subtraction never underflows. |
| Rooms.Room.PlayerCount | module/chat/src/Room.cpp:147-149 | Active and disqualified players together. |
| Rooms.Room.SpectatorCount | module/chat/src/Room.cpp:159-161 | Spectators and waitlisted, a number that is never negative. |
| Rooms.Room.ActivePlayerCount | module/chat/src/Room.cpp:151-153 | The number of players who are not disqualified. |
| Rooms.Room.FindPlayer | module/chat/src/Room.cpp:356-362 | Finds a member exactly if it is an active player. |
| Rooms.Room.Admit | module/chat/src/Room.cpp:203-240 | A player is admitted exactly if there is a free place and no game runs; one willing to wait as a player if there is a free place, else as a spectator if there is room for one; a spectator exactly if there is. |
| RoomRules.JoinByMethod | module/chat/src/Room.cpp:203-262 | A player gets in exactly if there is a free place and no game runs; one willing to wait becomes a player if there is a free place, else a spectator if there is room for one; a spectator gets in exactly if there is.  Nobody else changes. |
| RoomRules.RefusalByMethod | module/chat/src/Room.cpp:208-240 | A refusal is about the game exactly if a player was refused in spite of a free place, and otherwise about the room being full. |
| Rooms.Room.Enter | module/chat/src/Room.cpp:248-256 | A new member joined last, is not disqualified, and owns the room if nobody does. |
| Rooms.Room.AddUser | module/chat/src/Room.cpp:203-262 | An error exactly if the user does not become a member, and then nothing changes: NotAllowedDuringGame exactly for a player with a free place during a game, RoomFull otherwise. |
| RoomRules.JoinKeepsInv | module/chat/src/Room.cpp:203-262 | Joins keep limits, counts, order and owner; a refused join leaves the room as it was. |
| Rooms.Room.FlushWaitlist | module/chat/src/Room.cpp:264-286 | Collecting and promoting one by one does what promoting the first to join does, caches kept. |
| RoomRules.FlushFillsUp | module/chat/src/Room.cpp:264-286 | Outside a game a flush ends with an empty waitlist or a full player list. |
| RoomRules.FlushPromotesEarliest | module/chat/src/Room.cpp:264-286 | A waitlisted member is promoted exactly if no game runs and the players and those who waited longer leave a free place; everybody promoted joined before everybody left waiting, and nobody else changes. |
| Rooms.Room.SetPlayerLimit | module/chat/src/Room.cpp:302-317 | Refuses a limit below one; otherwise demotes the overflow, caches kept. |
| RoomRules.LimitKeepsInv | module/chat/src/Room.cpp:302-317 | A limit below the number of players leaves exactly that many, or the disqualified ones if they are more; any other changes nothing. |
| RoomRules.LimitWaitlistsEarliest | module/chat/src/Room.cpp:302-317 | Those waitlisted are the active players who joined first; nobody else changes. |
| Rooms.Room.DisqualifyPlayer | module/chat/src/Room.cpp:560-569 | Flags a player, and nobody who is not one; caches kept. |
| Rooms.Room.ResetPlayers | module/chat/src/Room.cpp:571-579 | Lifts every disqualification, caches kept. |
| Rooms.Room.EndGame | module/chat/src/Room.cpp:533-536 | Lifts every disqualification and ends the game. |
| Rooms.Room.LoadGame | module/chat/src/Room.cpp:509-516 | Ends a running game first. |
| Rooms.Room.StartGame | module/chat/src/Room.cpp:518-531 | Refuses without a game; otherwise lifts disqualifications and marks the game as started. |
| Rooms.Room.RemoveUser | module/chat/src/Room.cpp:167-201 | A leave with everything it sets off (the controller's answer, the flush, a new owner), caches kept; for somebody who is not a member, nothing. |
| RoomRules.LeaveKeepsInv | module/chat/src/Room.cpp:167-201 | A leave removes one member and the owner is again the member who joined first, or null. |
| RoomRules.LeaveChanges | module/chat/src/Room.cpp:184-190 | After a leave the game is over exactly if the controller ended it on hearing of somebody who took part; while it goes on nobody else changes, and afterwards some who waited may play. |
| RoomRules.LoadEndsGame | module/chat/src/Room.cpp:509-516 | Loading a game leaves none running and nobody disqualified by one that was. |
| RoomRules.StartsIfLoaded | module/chat/src/Room.cpp:518-531 | A game starts only where one is loaded, with nobody disqualified. |
| RoomRules.EveryRun | module/chat/src/Room.cpp:143-317 | After every run: whoever is disqualified is a player, players do not exceed eight, players, waitlisted and spectators add up to all users, a running game is loaded, and the owner is the earliest member, or null exactly if there is none. |
| SimonRules.SpacesAreForgiven | module/server_daemon/src/EXAMPLE_Simon.cpp:92-99 | Spaces before or after do not change what a message is compared as. |
| SimonRules.TrimDivides | module/server_daemon/src/EXAMPLE_Simon.cpp:92-99 | Trimming takes away nothing but spaces before and after, and leaves none there. |
| SimonRules.TrimIsUnique | module/server_daemon/src/EXAMPLE_Simon.cpp:92-99 | That determines what it leaves. |
| SimonRules.SameUpToSpacesIff | module/server_daemon/src/EXAMPLE_Simon.cpp:99-99 | Two messages are taken for the same exactly if they are the same text with spaces before and after it. |
| SimonRules.ActiveArePlaying | module/chat/src/Room.cpp:127-129 | Who counts as active: players who are not disqualified. |
| Simons.EXAMPLE_Simon.CheckWin | module/server_daemon/src/EXAMPLE_Simon.cpp:28-40 | Ends the game exactly if one active player is left; with two, names the one who is not Simon and ends nothing; every pointer followed is found. |
| Simons.EXAMPLE_Simon.EndRound | module/server_daemon/src/EXAMPLE_Simon.cpp:42-51 | Disqualifying the incomplete one by one, each of them found, is disqualifying all of them. |
| SimonRules.RoundLosesIncomplete | module/server_daemon/src/EXAMPLE_Simon.cpp:28-51 | The game goes on exactly if somebody besides Simon completed the round, and then with exactly the active players who did. |
| SimonRules.WinnerKeepsPlaying | module/server_daemon/src/EXAMPLE_Simon.cpp:32-39 | With two players left a winner is announced but the game goes on with both. |
| SimonRules.RoundChanges | module/server_daemon/src/EXAMPLE_Simon.cpp:42-51 | The end of a round disqualifies those who did not complete it and changes nobody else, or ends the game and lifts every disqualification. |
| Simons.EXAMPLE_Simon.NextRound | module/server_daemon/src/EXAMPLE_Simon.cpp:53-63 | Everybody active but Simon has to answer. |
| Simons.EXAMPLE_Simon.InterceptPlayerMessage | module/server_daemon/src/EXAMPLE_Simon.cpp:86-112 | Simon ends a round and begins the next; a first answer is judged; anything else changes nothing. |
| Simons.EXAMPLE_Simon.ProcessMessage | module/chat/src/Room.cpp:481-497 | Messages reach the game only from active players during a game; the invariant is kept. |
| SimonRules.IdleTalk | module/server_daemon/src/EXAMPLE_Simon.cpp:97-111 | Nothing comes of what is said outside a game, by somebody who does not play, or by a player who has answered. |
| SimonRules.SayKeepsInv | module/server_daemon/src/EXAMPLE_Simon.cpp:86-112 | No message breaks the invariant: Simon is active and whoever has to answer is another active player. |
| Simons.EXAMPLE_Simon.RemoveUser | module/server_daemon/src/EXAMPLE_Simon.cpp:126-133 | A quit of Simon ends the game of the room; any other leaves it running. |
| SimonRules.QuitEndsGame | module/server_daemon/src/EXAMPLE_Simon.cpp:126-133 | A quit ends the game exactly if it is that of Simon. |
| SimonRules.QuitKeepsInvIff | module/server_daemon/src/EXAMPLE_Simon.cpp:126-133 | A quit keeps the invariant if and only if it is not that of a player who still has to answer in a running game. |
| SimonRules.UnansweredQuit | module/server_daemon/src/EXAMPLE_Simon.cpp:44-47 | A game that after such a quit will look for a player who is gone. |
| Simons.EXAMPLE_Simon.OnOptionChange | module/server_daemon/src/EXAMPLE_Simon.cpp:135-157 | The option "simon" makes an active player Simon, and nobody else; any other option is accepted without effect. |
| SimonRules.ChooseKeepsInvIff | module/server_daemon/src/EXAMPLE_Simon.cpp:135-157 | Choosing a new Simon keeps the invariant if and only if it is not a player who still has to answer in a running game. |
| SimonRules.UnansweredSimon | module/server_daemon/src/EXAMPLE_Simon.cpp:135-157 | A game in which the new Simon is disqualified by the end of the round. |
| SimonRules.LimitKeepsSimonIff | module/chat/src/Room.cpp:302-317 | A lower player limit keeps the invariant if and only if it demotes neither Simon nor a player who still has to answer in a running game. |
| Simons.EXAMPLE_Simon.Start | module/server_daemon/src/EXAMPLE_Simon.cpp:167-185 | Fails with fewer than three players or without Simon, and in the latter case passes the part to the owner; otherwise begins with nobody to answer. |
| SimonRules.StartFacts | module/chat/src/Room.cpp:518-531 | A successful start establishes the invariant with at least three players; a failing one has marked the game as started. |
| SimonRules.StartOutcome | module/server_daemon/src/EXAMPLE_Simon.cpp:167-180 | A start succeeds exactly if there are three players and Simon is one; then nobody has to answer.  If Simon is none the part goes to the owner.  Either way every player plays. |
| SimonRules.StartKeepsInvIff | module/server_daemon/src/EXAMPLE_Simon.cpp:167-185 | A start leaves the invariant in place if and only if it succeeds, or whoever is Simon then, and everybody the last game left with an answer to give, has player status. |
| SimonRules.GameKeepsInv | module/server_daemon/src/EXAMPLE_Simon.cpp:28-185 | At every point of every game, with joins, limit changes and failing starts, as long as nobody who still has to answer quits, becomes Simon or is demoted and Simon is not demoted: Simon is active and whoever has to answer is another active player. |
| SimonRules.OverOnceAllFailed | module/server_daemon/src/EXAMPLE_Simon.cpp:97-107 | A game that ends before Simon speaks again has heard a wrong first answer from everybody. |
| SimonRules.RoundSurvivors | module/server_daemon/src/EXAMPLE_Simon.cpp:28-112 | From one thing Simon says to the next, whatever is said by whom: the game still runs if and only if somebody first answered with the same text up to spaces around it, and those left are Simon and exactly those. |
| PrerequisiteGraphs.WeightOfPrerequisites | test/lib/googlemock/src/gmock-spec-builders.cc:131-178 | In an acyclic graph an expectation weighs more than all its immediate prerequisites together: why the searches without a visited set end. |
| PrerequisiteGraphs.ReachByPath | test/lib/googlemock/src/gmock-spec-builders.cc:131-147 | An expectation is an immediate or indirect prerequisite exactly if a path of prerequisites leads to it. |
| Expectations.SatisfiedByCalls | test/lib/googlemock/src/gmock-cardinalities.cc:76-78 | Satisfied are the expectations with a number of calls within their bounds. |
| Expectations.ExpectationBase.AllPrerequisitesAreSatisfied | test/lib/googlemock/src/gmock-spec-builders.cc:129-148 | Terminates on every acyclic graph, true exactly if every immediate or indirect prerequisite has had no fewer calls than its lower bound and no more than its upper. |
| Expectations.ExpectationBase.FindUnsatisfiedPrerequisites | test/lib/googlemock/src/gmock-spec-builders.cc:150-178 | Terminates and adds exactly the unsatisfied prerequisites reached through satisfied expectations that were not called. |
| Expectations.MissingByCalls | test/lib/googlemock/src/gmock-spec-builders.cc:164-175 | What it adds: the expectations with a number of calls out of bounds to which a path of prerequisites leads on which all others need no calls and had none. |
| Expectations.ExplanationIsComplete | test/lib/googlemock/src/gmock-spec-builders.cc:164-175 | As long as only calls that were due have been handled, it adds nothing exactly if every prerequisite is satisfied. |
| VisiblePrerequisites.VisibleSuffices | test/lib/googlemock/src/gmock-spec-builders.cc:164-175 | Not looking beyond called expectations misses nothing if the prerequisites of those are satisfied. |
| Expectations.ExpectationBase.RetireAllPreRequisites | test/lib/googlemock/src/gmock-spec-builders.cc:103-127 | If nothing is retired before its prerequisites, retires exactly the immediate and indirect prerequisites, and keeps it so; the shortcut for a retired expectation loses nothing. |
| RetirementFrontiers.FrontierEnd | test/lib/googlemock/src/gmock-spec-builders.cc:112-126 | A walk that skips what is already retired has retired all prerequisites when it ends. |
| Expectations.ExpectationBase.ShouldHandleArguments | test/lib/googlemock/include/gmock/gmock-spec-builders.h:1095-1106 | True exactly for matching calls to an expectation that is not retired and all of whose prerequisites have had a number of calls within their bounds. |
| Expectations.ExpectationBase.IncrementCallCount | test/lib/googlemock/include/gmock/gmock-spec-builders.h:1198-1208 | Counts one call and changes nothing about other expectations. |
| Expectations.ExpectationBase.GetActionForArguments | test/lib/googlemock/include/gmock/gmock-spec-builders.h:1192-1218 | A call that is due retires the prerequisites, and the expectation itself if it is to retire on saturation; an excessive one retires nothing; both keep expectations consistent. |
| CallConsistency.CallKeepsConsistent | test/lib/googlemock/include/gmock/gmock-spec-builders.h:1208-1213 | After a call that was due: no cycle, nothing retired before its prerequisites or while unsatisfied, and whatever was called and is satisfied has had its prerequisites retired. |
| CallConsistency.ExcessKeepsConsistent | test/lib/googlemock/include/gmock/gmock-spec-builders.h:1198-1206 | The same after an excessive call. |
| Expectations.FreshIsConsistent | test/lib/googlemock/src/gmock-spec-builders.cc:77-91 | The same before any call. |
| Expectations.Sequence.AddExpectation | test/lib/googlemock/src/gmock-spec-builders.cc:851-860 | Makes the last expectation a prerequisite of the new one, which becomes the last, unless it is the last already; expectations stay consistent if and only if the new one was not already a prerequisite of the last, and had neither retired nor been called enough before it. |
| Expectations.NobodyRequiresFresh | test/lib/googlemock/src/gmock-spec-builders.cc:851-860 | An expectation that nobody requires yet, as a new one is, is no prerequisite of the last. |
| PrerequisiteGraphs.NewEdgeKeepsAcyclicIff | test/lib/googlemock/src/gmock-spec-builders.cc:851-860 | A new prerequisite closes a cycle exactly if it is the expectation itself or requires it, directly or not. |
| Channels.ChannelSingleQueue.IsRejected | module/common_communication/include/ChannelSingleQueue.hpp:45-51 | True exactly if there is a filter and it turns the message down, so that the queue would take it from no stream of messages. |
| BroadcastProtocol.TakenAreAccepted | module/common_communication/include/ChannelSingleQueue.hpp:103-111 | From every stream a queue takes exactly the messages that pass its filter, or all if it has none. |
| BroadcastProtocol.AcceptedConcat | module/common_communication/include/ChannelSingleQueue.hpp:103-111 | What a queue takes of two streams, one after the other, is what it takes of the first and then what it takes of the second. |
| BroadcastProtocol.AcceptedOne | module/common_communication/include/ChannelSingleQueue.hpp:103-111 | Of a single message it takes all or nothing. |
| Channels.ChannelSingleQueue.Send | module/common_communication/include/ChannelSingleQueue.hpp:103-111 | Appends the message if there is no filter or it passes, and otherwise changes nothing. |
| Channels.ChannelSingleQueue.Receive | module/common_communication/include/ChannelSingleQueue.hpp:113-127 | Takes the oldest message, or reports that there is none. |
| Channels.ChannelMultiQueue.CreateConsumer | module/common_communication/include/ChannelMultiQueue.hpp:63-65 | A new empty queue with that filter joins the others. |
| Channels.ChannelMultiQueue.Send | module/common_communication/include/ChannelMultiQueue.hpp:79-90 | Every queue gets the message exactly once, if it accepts it. |
| BroadcastProtocol.StepKeepsInv | module/common_communication/include/ChannelMultiQueue.hpp:63-90 | Every step of any thread keeps each consumer complete up to the message that is on its way to it. |
| BroadcastProtocol.SentAreBroadcasts | module/common_communication/include/ChannelMultiQueue.hpp:85-90 | In every run the messages counted as sent are those of the broadcasts, in the order they took the lock. |
| BroadcastProtocol.ConsumerStaysItself | module/common_communication/include/ChannelMultiQueue.hpp:63-65 | A consumer keeps the filter it was created with, and begins empty with the broadcasts after its creation. |
| BroadcastProtocol.WhatStepsDo | module/common_communication/include/ChannelSingleQueue.hpp:119-127 | A receive takes the oldest message if there is one; only creation and removal change which consumers there are. |
| BroadcastProtocol.NobodyIsStuck | module/common_communication/include/ChannelMultiQueue.hpp:85-90 | A broadcast under way can always go on, and a receive never waits. |
| BroadcastProtocol.EveryConsumerIsComplete | module/common_communication/include/ChannelMultiQueue.hpp:63-90 | Over every interleaving, what a live consumer has received followed by what it holds is what it accepts of the messages broadcast since it was created, short of one still on its way to it. |
| BroadcastProtocol.SharedOrder | module/common_communication/include/ChannelMultiQueue.hpp:85-90 | Two consumers have what both accept in one order: what the later one got of it is a final part of what the earlier one got. |

## Left out

- RuleMachines.GameInstance.constructor: the first rule it is passed goes to a stack that nothing reads, so it is no parameter; a run needs a state whose own stack was filled.
- RuleMachines.GameInstance.EvaluateExpression: applying an attribute (`upfrom`, `size`, `elements`, `contains`, `collect`) is a parameter, because those are unfinished in the source.
- RuleMachines.GameInstance.VisitForEach: needs a context to bind the variable in; the source takes the last of none without asking, which is undefined.
- RuleMachines.GameInstance.VisitAdd: sums are unbounded, so the overflow of a machine integer is not modelled.
- Expressions.ExpressionPtr.GetPtr: pointers into a map are modelled by the value they lead to, and `Store` rebuilds the maps on the path; the assertion that the path is not empty becomes an empty result.
- SocketProtocol.RunKeepsInv: a pop of an empty queue, undefined in the source, is a step that cannot be taken.
- BeastSockets.BeastSocket.FillWriteBuffer: needs a message to pop, for the same reason; when there is none is in `WinsOverNothingIff` and `ClaimKeepsQueue`.
- Rooms.Room.SetPlayerLimit: needs a limit of at least the number of disqualified players, below which the source would advance an iterator past the end of the active players; the limit itself is not stored, as in the source.
- Rooms.Room.AddUser: is called for users who are not members; adding a member again, for which the source counts players as spectators, is not modelled.
- Rooms.Room.Admit: leaves out the correction of the counts for a user who is a member already, for the same reason.
- RoomRules.JoinKeepsInv: is about users who are not members, for the same reason.
- Rooms.Room.RemoveUser: the status of the member is read before it is erased, where the source reads it after, and the owner is compared by id.
- Rooms.Room.StartGame: stops where the room hands over to its controller; the statistics it increments are not modelled.
- Rooms.Room.FindPlayer: looks for an id; the search by name, which finds the first player of that name, is not modelled.
- Simons.EXAMPLE_Simon.OnOptionChange: takes the id of a user where the source parses a name and looks it up.
- Join times come from a clock that advances with every join, because the caches compare nothing else; `_game_started`, which the source leaves uninitialised, starts false.
- `set_spectator_limit`, which selects players where its documentation says spectators, and the public `set_owner`.
- Cardinalities other than a range of call counts, the text that explains match results, `Randomize`, actions and their clauses.
- The lifetime of consumers in a weak vector beyond their removal from it; sending to a single queue directly while it is part of a broadcast is not a step of the protocol.
- Interpreter rules other than `ForEach` and `Add`, and requests for input.
- Message text, broadcasts to users, signals, commands, nicknames, statistics; reading, accepting and closing connections; serialization, storage, logging and user interfaces.
