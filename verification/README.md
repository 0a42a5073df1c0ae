# ObjectHandler and QuantLib core: a Dafny model

ObjectHandler keeps financial objects in a repository under case-insensitive IDs. Each object is
held by a wrapper that observes the wrappers of its precedents; overwriting an object marks
everything that depends on it dirty, and a dirty object is rebuilt from its saved properties when it
is next retrieved. On Excel a second index records in which worksheet cell each object resides, and
objects whose cell has gone are collected. This project models that machinery, and the
self-contained algorithms around it, and proves what they are for. To verify it, use
`dafny verify dfyconfig.toml`.

What is proved, by theme:

- **Lazy equals eager** (`ObjectRepository.dfy`, `RepositoryRuns.dfy`, over `Rebuilding.dfy` and
  `Graphs.dfy`). Every run of construct-and-store, overwrite, retrieve and delete commands returns
  what it returns when nothing is cached and every value is rebuilt from scratch, provided no
  overwrite closes a cycle and no delete takes away a precedent. A store leaves the repository
  consistent if and only if the object was built from its current, clean precedents and none of them
  depends on it; a delete does if and only if the object is nobody's precedent. The code checks
  neither. Once a cycle has been closed, exactly the notifications that reach it never return. After a
  precedent has been deleted, retrieval is still right if and only if no clean object depends on it
  directly.
- **The observer protocol** (`Observing.dfy`, `ObserverRuns.dfy`). Any run of registration, copying,
  assignment and destruction leaves the two pointer sets in step, and a notification marks exactly
  the transitive observers.
- **The Excel layer** (`CallingRanges.dfy`, `Residency.dfy`, `RepositoryXL.dfy`,
  `RepositoryXLRuns.dfy`, `RangeReferences.dfy`). The object map and the residents of the cells stay
  in step; garbage collection then leaves exactly the objects it should, never loses its place while
  it iterates, and never fails. Three provisos are needed, each exact and each violated by a run that
  the code accepts. No observed object is deleted explicitly: its wrapper lives on, and its cell keeps
  an entry for an object that is no longer there (`DeleteLeavesEntry`). No store notifies around a
  cycle of observers: four stores are enough for a notification that never ends (`FourStores`). No
  store from a cell that had gone reuses an ID of which an observer has kept the old wrapper alive:
  its destructor would later take the new object out of the residents (`RestoredCellClashes`). An
  object stored without an ID stays in its cell, and such a store is never refused
  (`AnonymousIsEntered`). IDs survive decoration and stripping; error messages are found for exactly the selections that a
  recorded range covers.
- **Saving and loading** (`Serialization.dfy`), **case-insensitive maps** (`Ids.dfy`).
- **QuantLib algorithms**: time grids (`TimeGrids.dfy`, `Sequences.dfy`), chained exchange rates
  (`ExchangeRates.dfy`), historical fixings (`Fixings.dfy`), closeness (`Comparison.dfy`).
- **Smaller pieces**: timestamps (`CalendarTime.dfy`), the include scan (`IncludeWalk.dfy`), the
  temporary-memory allocator (`TempMemory.dfy`).

Modelling choices that a reader should know:

- A creator is an arbitrary partial function of an object's properties and the values of its
  precedents, which it retrieves through the repository and without which it fails.
- Precedent IDs in `ObjectRepository` are held folded, as the repository looks them up.
- Whether a cell still exists, whether Excel accepts a name and how an address is parsed are inputs.
  Named cells may be deleted and come back, and a call may come from any named cell.
- Wrappers of the Excel layer are records named by handles, so that a wrapper that outlives its
  entry in the object map, because an observer shares its ownership, is modelled as such; it is
  destroyed with its last owner, and that may cascade.
- Numbers are reals in `TimeGrids`, `ExchangeRates` and `Fixings`; timestamps are whole milliseconds.
- The year tables of `utilities.cpp` are given in closed form.

Where the code and what is said about it disagree, the model follows the code:

- `initializeID` says that an ID may not start with "obj", but refuses "obj" at any of the first
  three positions (`AcceptedAsDocumented`; `RefusedThoughNotPrefixed` is an instance).
- `formatTime` rejects every 31 December, and every day from 31 December 2198 on, although the table
  reaches 2200 (`RejectedStamps`; `LastOf2000Rejected`).
- `storeObject` writes the entry before it looks up the precedents, so that a call that fails has
  still changed the repository (`StoreObject`; `StoreNamesMissing`).
- `chain` accepts two rates whose outer currencies coincide, and the result then applies to the
  currency in between (`AppliesExactlyIffProper`; `SelfChainAcceptsMiddle`).
- A range written as a single cell does not contain the same cell written with both corners
  (`ContainsIffCovers`; `SingleCellWrittenTwice`).
- Neither layer rejects an overwrite that closes a cycle (`StoreKeepsAcyclic`;
  `OverwriteMayCloseCycle`, `FourStores`).
- An object can be deleted while others are built from it (`DeleteObject`; `StaleAfterDelete`).

## Model

| member | source | states |
|---|---|---|
| Ids.Iless | ObjectHandler/oh/iless.hpp:50-72 | the comparison loop decides lexicographic order of the upper-cased strings |
| Ids.UpperAgrees | ObjectHandler/oh/iless.hpp:50-72 | characters agree ignoring case if and only if they are equal or the two cases of one letter |
| Ids.StrictWeakOrder | ObjectHandler/oh/iless.hpp:50-72 | the order is irreflexive, asymmetric and transitive, and incomparable strings are those with equal folds |
| IdMaps.IdMap.Find | ObjectHandler/oh/repository.hpp:68-76 | lookup in the ordered map is lookup by folded ID, and gives the spelling first stored |
| IdMaps.IdMap.Assign | ObjectHandler/oh/repository.hpp:68-76 | assignment is map update on the folded ID and keeps the first spelling |
| IdMaps.IdMap.Erase | ObjectHandler/oh/repository.hpp:166 | erasure removes exactly the folded ID |
| Graphs.TerminatesIffNoReachableCycle | ObjectHandler/oh/observable.hpp:118-140 | following edges recursively from a node ends if and only if no cycle is reachable from it |
| Graphs.TerminatesWithin | ObjectHandler/oh/observable.hpp:118-140 | if the recursion ends at all, it ends within one more nested call than there are nodes |
| Graphs.AcyclicUpdate | ObjectHandler/oh/repository.cpp:70-79 | replacing the successors of a node keeps a graph acyclic if and only if no new successor leads back to it |
| Observing.ObjectWrapper.RegisterWith | ObjectHandler/oh/observable.hpp:164-171 | both pointer sets gain the link, a null observable changes nothing, and the sets stay in step |
| Observing.ObjectWrapper.UnregisterWith | ObjectHandler/oh/observable.hpp:173-178 | both pointer sets lose the link, and the result counts what was erased |
| Observing.ObjectWrapper.UnregisterWithAll | ObjectHandler/oh/observable.hpp:180-184 | all links of the observer go, on both sides, and no others |
| Observing.ObjectWrapper.Copy | ObjectHandler/oh/observable.hpp:143-147 | the copy observes what the original observes and is observed by nobody |
| Observing.ObjectWrapper.AssignObserver | ObjectHandler/oh/observable.hpp:149-157 | afterwards the observer observes exactly what the other one did, self-assignment included |
| Observing.ObjectWrapper.Destroy | ObjectHandler/oh/observable.hpp:159-162 | destruction of a wrapper without owners leaves nothing pointing at it |
| Observing.ObjectWrapper.NotifyObservers | ObjectHandler/oh/observable.hpp:118-140 | terminates on an acyclic graph and adds exactly the proper transitive observers to the dirty set |
| Observing.ObjectWrapper.Update | ObjectHandler/oh/objectwrapper.hpp:126-129 | adds the wrapper and its transitive observers to the dirty set, however often shared ones are visited |
| Observing.ObjectWrapper.Reset | ObjectHandler/oh/objectwrapper.hpp:131-136 | the dirty set becomes the old one plus the transitive observers, minus the wrapper itself |
| ObserverRuns.RunsLinkOnlyTheLiving | ObjectHandler/oh/observable.hpp:88-184 | over every run, only live wrappers observe or are observed |
| ObserverRuns.Run | ObjectHandler/oh/observable.hpp:88-184 | every run of commands leaves both pointer sets of every wrapper equal to the relation the commands describe |
| Rebuilding.SolutionUnique | ObjectHandler/oh/serializationfactory.cpp:100-108 | on an acyclic store the recreation equations have one solution, the values rebuilt from scratch |
| Rebuilding.ConstructedExactly | ObjectHandler/oh/serializationfactory.cpp:100-108 | the result of recreation is what the creator of the class makes of the properties and the rebuilt values of the precedents, and none if there is no creator or a precedent has no value |
| Rebuilding.RebuildMeaning | ObjectHandler/oh/serializationfactory.cpp:100-108 | the rebuilt value of a stored object is that result for its own properties; an ID that is not stored has none |
| Rebuilding.RebuildFrame | ObjectHandler/oh/objectwrapper.hpp:115-124 | changing one entry leaves the value of everything that does not depend on it |
| ObjectRepository.StoreKeepsAcyclic | ObjectHandler/oh/repository.cpp:62-81 | a store keeps the precedents acyclic if and only if no precedent of the object depends on it |
| ObjectRepository.StoreKeepsCoherent | ObjectHandler/oh/repository.cpp:62-81 | with the dependents of the stored object dirty, every clean object holds its rebuilt value again |
| ObjectRepository.CoherentOnlyIfStorable | ObjectHandler/oh/repository.cpp:62-81 | and only if the object has the value its precedents give, they are all clean, and no cycle is closed |
| ObjectRepository.RefreshKeepsCoherent | ObjectHandler/oh/objectwrapper.hpp:115-124 | a recreated object may be marked clean without notifying its observers |
| ObjectRepository.DeleteKeepsCoherent | ObjectHandler/oh/repository.cpp:125-131 | after a delete every clean object holds its rebuilt value if and only if no clean object has the deleted one as a precedent |
| ObjectRepository.Repository.RetrieveObject | ObjectHandler/oh/repository.cpp:88-98 | where the cache is right, returns the value that rebuilding everything from the stored properties gives: what the creator makes of the properties and the values of the precedents; or fails when that fails; an object that is not dirty is returned as it is in any case |
| ObjectRepository.Repository.RecreateObject | ObjectHandler/oh/serializationfactory.cpp:100-108 | recreation against the cache gives what the creator makes of the properties and the rebuilt values of the precedents, and leaves the precedents clean |
| ObjectRepository.Repository.RegisterObserver | ObjectHandler/oh/repository.cpp:111-123 | the wrapper observes exactly its precedents, or, when one is unknown, known ones among them; no other link changes |
| ObjectRepository.Repository.StoreObject | ObjectHandler/oh/repository.cpp:62-81 | the outcome for a duplicate ID, an unknown precedent and a success; on success exactly the dependents become dirty, and the repository is consistent if and only if the object fits its precedents; an unknown precedent leaves an inconsistent entry |
| ObjectRepository.RestoreOutcomeMeaning | ObjectHandler/oh/serializationfactory.cpp:110-122 | restoring fails if and only if nothing can be constructed, is refused if and only if something can but the ID is in use and may not be overwritten, and succeeds otherwise |
| ObjectRepository.Repository.RestoreObject | ObjectHandler/oh/serializationfactory.cpp:110-122 | constructs from current precedents and stores; every outcome is decided by the stored properties alone, and the repository stays consistent if and only if no cycle is closed |
| ObjectRepository.Repository.DeleteObject | ObjectHandler/oh/repository.cpp:125-131 | removes the entry; the repository stays consistent if and only if no stored object has it as a precedent, and the cache stays right if and only if no clean one has; such a clean one is still returned though it cannot be rebuilt |
| RepositoryRuns.NextIsSane | ObjectHandler/oh/repository.cpp:62-131 | the stored properties stay closed and acyclic if and only if the command is safe or refused |
| RepositoryRuns.Execute | ObjectHandler/oh/repository.cpp:62-131 | lazy equals eager: every safe run returns what the run without a cache returns |
| RepositoryRuns.RightAfterDelete | ObjectHandler/oh/repository.cpp:88-131 | if no clean object has the deleted one as a precedent, any number of retrieves after the delete return the rebuilt values |
| RepositoryRuns.WrongAfterDelete | ObjectHandler/oh/repository.cpp:88-131 | a clean object that has the deleted one as a precedent is retrieved although rebuilding it fails |
| RepositoryRuns.StaleAfterDelete | ObjectHandler/oh/repository.cpp:88-131 | two objects for which that happens |
| RepositoryRuns.StoreNamesMissing | ObjectHandler/oh/repository.cpp:70-79 | a store that fails on a missing precedent and leaves its entry behind |
| RepositoryRuns.OverwriteMayCloseCycle | ObjectHandler/oh/repository.cpp:62-81 | a concrete overwrite that is accepted, closes a cycle, and makes notification diverge |
| Serialization.SaveObjects | ObjectHandler/oh/serializationfactory.cpp:124-151 | keeps exactly the first occurrence of each ID, in order |
| Serialization.LoadObjects | ObjectHandler/oh/serializationfactory.cpp:337-372 | into any repository, restores up to the first element that cannot be created or stored; what was restored stays and is consistent, with nothing dirty if nothing was and the IDs are new |
| Serialization.LoadFresh | ObjectHandler/oh/serializationfactory.cpp:337-372 | for distinct IDs and an empty repository, an element is restored if and only if it can be created from those before it |
| Serialization.LoadableIffOrdered | ObjectHandler/oh/serializationfactory.cpp:337-372 | with creators that do not throw, the whole list loads if and only if every precedent occurs earlier in it |
| Serialization.SaveLoadRoundTrip | ObjectHandler/oh/serializationfactory.cpp:110-151 | a consistent repository saved with precedents first is loaded back completely if and only if all its objects can be rebuilt |
| Serialization.SaveAndLoad | ObjectHandler/oh/serializationfactory.cpp:124-151 | saving a repository's objects, each after its precedents, and loading the result gives a consistent repository with nothing dirty, and with the same objects if and only if all of them can be rebuilt |
| Serialization.LoadOrderExists | ObjectHandler/oh/serializationfactory.cpp:142-146 | every consistent repository has an order of saving that loads |
| RangeIds.KeysDistinct | ObjectHandler/ohxl/callingrange.cpp:61-69 | keys of cells have six characters and are pairwise distinct, ignoring case, up to the maximum |
| RangeIds.AnonymousIdsApart | ObjectHandler/ohxl/callingrange.cpp:174-194 | without an ID each cell gets one of its own, which no other cell gets and no user may give, ignoring case; elsewhere an ID must be given |
| RangeIds.FirstCells | ObjectHandler/ohxl/callingrange.cpp:61-69 | keys are written as an underscore and five hexadecimal digits in lower case, and anonymous IDs as "obj" and the key |
| RangeIds.AcceptedAsDocumented | ObjectHandler/ohxl/callingrange.cpp:187-191 | the check agrees with its message exactly when the prefix does not occur first at offset one or two |
| RangeIds.RefusedThoughNotPrefixed | ObjectHandler/ohxl/callingrange.cpp:189-191 | an ID that does not start with the prefix and is refused |
| RangeIds.StubOfFull | ObjectHandler/ohxl/callingrange.cpp:196-209 | stripping undoes decoration for every ID and every number of updates, through wrap-around |
| RangeIds.StubOfInitialized | ObjectHandler/ohxl/callingrange.cpp:203-209 | stripping leaves every ID that `initializeID` returns |
| RangeIds.ShownIdMeaning | ObjectHandler/ohxl/callingrange.cpp:196-201 | in a cell an ID is shown with a hash sign and four digits, which read as the number of updates before, modulo 10000; elsewhere as it is |
| CallingRanges.CallingRange.UpdateCount | ObjectHandler/ohxl/callingrange.cpp:136-141 | the nth call issues n - 1 modulo 10000 as four digits |
| CallingRanges.CallingRange.GetUpdateCount | ObjectHandler/ohxl/callingrange.cpp:143-151 | returns the counter last issued |
| CallingRanges.CallingRange.UpdateId | ObjectHandler/ohxl/callingrange.cpp:196-201 | decorates the ID in a cell and leaves it elsewhere; stripping gives it back |
| RepositoryXL.Repository.GetCallingRange | ObjectHandler/ohxl/repositoryxl.cpp:205-230 | the range of the caller, new ones under a fresh key, and the two ways to fail |
| RepositoryXL.Repository.ResetCaller | ObjectHandler/ohxl/objectwrapperxl.cpp:61-64 | moves the object from its range to the new one, in both indexes |
| RepositoryXL.Repository.NotifyObservers | ObjectHandler/oh/observable.hpp:118-140 | returns when the observers it reaches form no cycle, and marks exactly these dirty |
| Residency.NotifiedMeaning | ObjectHandler/oh/observable.hpp:118-140 | these are the wrappers that observe it directly or not, and notification ends if and only if neither it nor any of them observes itself directly or not |
| RepositoryXL.Repository.Reset | ObjectHandler/ohxl/objectwrapperxl.cpp:48-51 | the wrapper keeps its ID, which is shown with the next counter of its range, and exactly the wrappers its notification reaches become dirty |
| RepositoryXL.Repository.RegisterObserver | ObjectHandler/oh/repository.cpp:111-123 | the wrapper observes its precedents up to the first unknown one; leftovers nobody observes any more are destroyed |
| Residency.KnownAsShown | ObjectHandler/ohxl/repositoryxl.cpp:335-338 | a precedent may be named with or without its counter |
| RepositoryXL.Repository.StoreObject | ObjectHandler/ohxl/repositoryxl.cpp:77-110 | keeps the indexes in step; for each outcome, when it occurs and what becomes of the objects, the links, the flags and the counter, also when the store fails; requires that the notification of an overwritten object ends and that no leftover wrapper has the same ID and range |
| Residency.StoreSpecMeaning | ObjectHandler/ohxl/repositoryxl.cpp:77-110 | what a store does to the objects, case by case: IDs that are refused, objects of other ranges, and everything else |
| RepositoryXL.Repository.Destroy | ObjectHandler/ohxl/objectwrapperxl.cpp:35-37 | the destructor and its cascade leave no unowned wrapper and change neither objects nor residents in use |
| RepositoryXL.Repository.ClashesOnlyIfLost | ObjectHandler/ohxl/objectwrapperxl.cpp:35-37 | the latter can only happen to a store from a cell that has been deleted at some time |
| Residency.ApartExactly | ObjectHandler/ohxl/objectwrapperxl.cpp:35-37 | the destructor of a leftover wrapper takes away no resident if and only if no object with its ID is in its range |
| Residency.InsertApartIff | ObjectHandler/ohxl/repositoryxl.cpp:90-94 | entering a new object leaves all leftover wrappers harmless in this sense if and only if none has its ID and its range |
| Residency.UpdateApartIff | ObjectHandler/ohxl/repositoryxl.cpp:95-106 | the same for an object that moves to another range |
| RepositoryXL.Repository.DeleteObject | ObjectHandler/oh/repository.cpp:125-131 | removes the object; the indexes stay in step if and only if nobody observes it; otherwise its wrapper lives on and its range keeps an entry for it |
| RepositoryXL.Repository.NoStaleEntry | ObjectHandler/ohxl/callingrange.cpp:77-94 | while the indexes are in step, no range has an entry for an object that is not in the map |
| RepositoryXL.Repository.ClearResidentObjects | ObjectHandler/ohxl/callingrange.cpp:71-96 | removes exactly the objects of the range, or those not permanent, and keeps the indexes in step |
| RepositoryXL.Repository.ResidentsCover | ObjectHandler/ohxl/callingrange.cpp:77-94 | entries not yet reached are never erased by a destructor, so the iteration goes on safely |
| RepositoryXL.Repository.CollectGarbage | ObjectHandler/ohxl/repositoryxl.cpp:188-203 | leaves exactly the objects whose cell exists and, unless deleted too, the permanent ones; and the ranges that exist or hold an object; objects and wrappers that stay are as they were |
| RepositoryXL.Repository.ResidentExactlyOnce | ObjectHandler/ohxl/callingrange.cpp:98-104 | an ID is in the object map if and only if it is resident in one range in use, that of its wrapper |
| RepositoryXLRuns.Run | ObjectHandler/ohxl/repositoryxl.cpp:77-230 | every run, cells coming and going, keeps the indexes in step and the objects those of a plain account, up to the first delete of an observed object, notification that does not end, or clash with a leftover wrapper |
| RepositoryXLRuns.OnlyOverwriteMoves | ObjectHandler/ohxl/repositoryxl.cpp:95-106 | an object changes its range only by a store that may overwrite, under its ID and from the range it moves to |
| RepositoryXLRuns.AnonymousIsEntered | ObjectHandler/ohxl/callingrange.cpp:174-194 | after every run, a store without an ID is entered in its cell, never refused, and leaves the objects of other cells alone |
| RepositoryXLRuns.TwoAnonymous | ObjectHandler/ohxl/repositoryxl.cpp:77-110 | two cells that store objects without an ID have one each |
| RepositoryXLRuns.DivergesExactly | ObjectHandler/ohxl/objectwrapperxl.cpp:48-51 | a store notifies without end if and only if it resets a wrapper from which a cycle of observers can be reached |
| RepositoryXLRuns.FourStores | ObjectHandler/ohxl/repositoryxl.cpp:95-108 | after three stores from VBA that close a cycle, the fourth notifies without end |
| RepositoryXLRuns.FourStoresPossible | ObjectHandler/ohxl/repositoryxl.cpp:77-110 | nothing forbids these four stores |
| RepositoryXLRuns.DeleteLeavesEntry | ObjectHandler/oh/repository.cpp:125-131 | two stores and a delete after which a cell has an entry for an object that is not in the map |
| RepositoryXLRuns.CollectAndRestore | ObjectHandler/ohxl/repositoryxl.cpp:188-230 | a deleted cell with a permanent object and a transient one observed from elsewhere: once it has been collected and has come back, every store from it under the ID of the transient one clashes |
| RepositoryXLRuns.RestoredCellClashes | ObjectHandler/ohxl/repositoryxl.cpp:77-230 | a run that reaches such a store |
| RangeReferences.ContainsIffCovers | ObjectHandler/ohxl/rangereference.cpp:107-134 | containment is inclusion of cells in the same sheet, except for a single cell written with both corners |
| RangeReferences.SingleCellWrittenTwice | ObjectHandler/ohxl/rangereference.cpp:128-133 | one cell written in the two ways, of which only the one contains the other |
| RangeReferences.ContainsIsInclusion | ObjectHandler/ohxl/rangereference.cpp:107-134 | it is inclusion when ranges with two corners span several cells |
| RangeReferences.ContainsTransitive | ObjectHandler/ohxl/rangereference.cpp:107-149 | containment is transitive |
| RangeReferences.ErrorMessages.SetError | ObjectHandler/ohxl/repositoryxl.cpp:112-129 | sets or replaces the message of the upper-cased address; fails on an invalid one |
| RangeReferences.ErrorMessages.RetrieveError | ObjectHandler/ohxl/repositoryxl.cpp:161-181 | the message of the very address, else of the first containing range, else none |
| RangeReferences.ErrorMessages.ClearError | ObjectHandler/ohxl/repositoryxl.cpp:183-186 | removes exactly the message of the address |
| RangeReferences.AnsweredIffCovered | ObjectHandler/ohxl/repositoryxl.cpp:174-180 | a message is found if and only if a stored range covers the selection |
| TimeGrids.KeptMeaning | QuantLib/ql/timegrid.hpp:84-94 | the kept times are given ones, strictly ascending, and neighbours are not close; every given time is close to the last kept one that is not after it; a negative one is noticed |
| TimeGrids.Mandatory | QuantLib/ql/timegrid.hpp:57-77 | the grid of the mandatory times alone, and when it fails |
| TimeGrids.WithZeroShape | QuantLib/ql/timegrid.hpp:70-74 | that grid starts at zero, is strictly ascending, and holds zero and the kept times only |
| TimeGrids.Stepped | QuantLib/ql/timegrid.hpp:85-133 | the three loops compute the points of all periods, and fail exactly on a negative time |
| TimeGrids.SteppedShape | QuantLib/ql/timegrid.hpp:111-129 | the grid starts at zero, is strictly ascending, ends at the last mandatory time and contains all of them |
| TimeGrids.MinGapMeaning | QuantLib/ql/timegrid.hpp:100-107 | the minimum taken is one of the gaps before nonzero mandatory times, and none is smaller |
| TimeGrids.UnitIsAimedAt | QuantLib/ql/timegrid.hpp:100-110 | the length aimed at is the smallest gap, or the length of the grid divided by the number of steps |
| TimeGrids.StepsBelow | QuantLib/ql/timegrid.hpp:120-127 | every step is below one and a half times that length |
| TimeGrids.StepsAreShares | QuantLib/ql/timegrid.hpp:111-129 | every step is an equal share of a gap, which is divided into as many steps as that length goes into it, rounded to the nearest and at least one |
| TimeGrids.StepsAbove | QuantLib/ql/timegrid.hpp:100-107 | with no number of steps given, every step is at least three quarters of the smallest gap |
| TimeGrids.StepsCounted | QuantLib/ql/timegrid.hpp:108-127 | with k periods the steps exceed the number asked for by less than k and fall short by less than k / 2 |
| TimeGrids.StepLengths | QuantLib/ql/timegrid.hpp:131-132 | differences taken from the second time on are the lengths of all steps |
| TimeGrids.SteppedGrid | QuantLib/ql/timegrid.hpp:85-133 | all of this for the closeness in use: the shape, the times covered, and every difference an equal share of a gap |
| TimeGrids.Regular | QuantLib/ql/timegrid.cpp:26-41 | the regular grid has equal positive steps from zero to the end, and fails exactly on an end that is not positive |
| TimeGrids.ClosestIndex | QuantLib/ql/timegrid.cpp:78-95 | a nearest node, the earlier one on a tie |
| TimeGrids.Index | QuantLib/ql/timegrid.cpp:43-76 | the nearest node if it is close; otherwise the failure, with indices in range that strictly bracket the time |
| Comparison.CloseRelations | QuantLib/ql/math/comparison.hpp:63-93 | both closeness relations are reflexive and symmetric, and one refines the other |
| Comparison.CloseMeaning | QuantLib/ql/math/comparison.hpp:63-93 | nonzero numbers are close when they differ by at most 42 epsilons of the smaller, and close enough when of the larger; a number is close to zero below the square of that |
| ExchangeRates.ExchangeMeaning | QuantLib/ql/exchangerate.cpp:25-48 | a rate of any depth accepts exactly its two currencies, multiplying one way and dividing the other |
| ExchangeRates.ExchangeAmounts | QuantLib/ql/exchangerate.cpp:25-48 | in figures: the amount times the rate, or divided by it, or a refusal |
| ExchangeRates.ChainMeaning | QuantLib/ql/exchangerate.cpp:50-77 | the same for each of the four orientations of a chain |
| ExchangeRates.ChainDefined | QuantLib/ql/exchangerate.cpp:50-77 | rates can be chained if and only if they share a currency |
| ExchangeRates.ChainEnds | QuantLib/ql/exchangerate.cpp:50-77 | a chain leads from the currency the first does not share to the one the second does not share |
| ExchangeRates.ThereAndBack | QuantLib/ql/exchangerate.cpp:25-48 | exchanging there and back is the identity |
| ExchangeRates.AppliesExactlyIffProper | QuantLib/ql/exchangerate.cpp:50-77 | a chain accepts exactly its own currencies if and only if they differ |
| ExchangeRates.SelfChainAcceptsMiddle | QuantLib/ql/exchangerate.cpp:57-60 | a rate chained with itself that accepts the currency in between |
| Fixings.Index.AddFixings | QuantLib/ql/index.hpp:89-133 | the loop commits the merge, also when it reports an error; it reports the last fixing on an invalid date, else the last one not close to what was there before it, else success |
| Fixings.LastWins | QuantLib/ql/index.hpp:105-108 | with overwriting, the last fixing for a valid date wins |
| Fixings.FirstWins | QuantLib/ql/index.hpp:104-116 | without overwriting, an existing value stays and otherwise the first value given wins |
| Fixings.InvalidDatesKeep | QuantLib/ql/index.hpp:117-121 | an invalid date never gains a value |
| Fixings.MergedDates | QuantLib/ql/timeseries.hpp:95-105 | exactly the given dates gain an entry, possibly a null one |
| Fixings.ReportsOne | QuantLib/ql/index.hpp:124-132 | that fixes the report: no two outcomes meet it |
| Fixings.ConflictMeaning | QuantLib/ql/index.hpp:109-116 | a fixing on a valid date conflicts exactly when overwriting is off and it is not close to the old value, or to the first one given |
| Fixings.CloseQuotesMeaning | QuantLib/ql/index.hpp:109-116 | values are close as numbers are, and never to a null datum |
| CalendarTime.YearOffsetStep | ObjectHandler/oh/utilities.cpp:146-276 | the table of offsets and the table of leap years agree |
| CalendarTime.MonthLengths | ObjectHandler/oh/utilities.cpp:339-349 | the months of the table have the lengths of the calendar |
| CalendarTime.LeapYears | ObjectHandler/oh/utilities.cpp:211-276 | the leap years of the table are those of the calendar, and 1900 |
| CalendarTime.FirstDay | ObjectHandler/oh/utilities.cpp:278-312 | the first day of 1900 is day 1 |
| CalendarTime.EncodeInjective | ObjectHandler/oh/utilities.cpp:278-312 | no two valid stamps have the same encoding |
| CalendarTime.RejectedStamps | ObjectHandler/oh/utilities.cpp:323-358 | among valid stamps exactly those on 31 December and those after 2198 are rejected |
| CalendarTime.LastOf2000Rejected | ObjectHandler/oh/utilities.cpp:326-358 | a valid time that is rejected |
| CalendarTime.FindMonth | ObjectHandler/oh/utilities.cpp:355-367 | starting at a thirtieth of the day never skips the month, and the search never fails |
| CalendarTime.FormatTime | ObjectHandler/oh/utilities.cpp:314-378 | an accepted time decodes to a valid stamp that encodes back to it; the rejected times are exactly the stated ones |
| CalendarTime.RoundTrip | ObjectHandler/oh/utilities.cpp:278-378 | decoding undoes encoding for every stamp that is not rejected |
| IncludeWalk.Scanner.Walk | dev_tools/scan_inclusions.py:61-89 | terminates on any include graph; what it adds to the files, the counters and the total |
| IncludeWalk.ExploredIsReached | dev_tools/scan_inclusions.py:71-84 | a list of reached names closed under includes is the set of reachable names |
| IncludeWalk.FiledLinesPartition | dev_tools/scan_inclusions.py:40-44 | the lines filed under the prefixes add up to the total |
| IncludeWalk.TrackDependencies | dev_tools/scan_inclusions.py:91-106 | each reachable name once; the total is the lines of all found files, and the root's lines plus the counters |
| IncludeWalk.PrefixMeaning | dev_tools/scan_inclusions.py:40-44 | the prefix of a name is the first that is a leading directory of it, or "std" if none is |
| IncludeWalk.Scan | dev_tools/scan_inclusions.py:21-106 | the same for the prefixes in use, and each counter counts exactly the names other than the root whose first leading prefix is its own, with their lines |
| TempMemory.PackedIsDisjoint | ObjectHandler/xlsdk/framewrk.cpp:54-72 | regions handed out between two frees share no byte |
| TempMemory.Memory.GetTempMemory | ObjectHandler/xlsdk/framewrk.cpp:54-72 | a region at an even offset within the block, or nothing exactly when it does not fit; rounding never leaves the block |
| TempMemory.Memory.FreeAll | ObjectHandler/xlsdk/framewrk.cpp:92-95 | the block is empty again |
| TempMemory.Memory.TempStrStl | ObjectHandler/xlsdk/framewrk.cpp:270-286 | writes only the regions of its record and its string, and only the record's when the string does not fit; the string is stored up to its first zero, and up to 255 bytes, with zeros after it; every record and string written since the last free stays as it was |

## Left out

- deleteAllObjects: a loop over the erasures modelled one by one; which permanent objects keep deleted ones alive is not stated.
- Notification errors: `update` as modelled never throws, so the success flag of `notifyObservers` is left out, and so is assignment of observables.
- Collections after an unsafe delete: what a collection does on reaching an entry whose object is not in the map (it throws, unless a destructor has erased the entry before, possibly from under the iterator) is not modelled.
- Runs after an unsafe delete: what holds is stated for the retrieves that follow it; later stores under the deleted ID are not.
- Creation and update times, logging, dumps, listing by regular expression and VBA error text: no state that anything here depends on.
- LoadObjects: a list whose elements close a cycle is excluded, as is what happens in a repository with a cycle; processors other than the default one and the XML archive are not modelled.
- StoreObject: in `RepositoryXL` a store whose notification does not end is excluded, since it does not return, and so is one that clashes with a leftover wrapper; recreation of dirty objects is modelled in `ObjectRepository` only, and flags of destroyed wrappers are not cleared.
- RegisterObserver: the order in which precedents are looked up is left open, so which of the known ones are linked when another is unknown is not fixed.
- SteppedPoints: with no positive time and no number of steps the source takes the minimum of an empty range, so that case is excluded; an empty list of times is excluded for the same reason.
- Regular: a number of steps of zero divides by zero in the source and is excluded.
- Excel calls, conversion of cell contents, parsing of addresses and unnaming of ranges: replaced by inputs.
- Orphaned ranges: the residents of a range that is no longer in the map of ranges are not tracked, as nothing can see them.
- FormatTime: the layout of the text is left out, and leap seconds are not among the valid stamps.
- Floating-point rounding: reals are exact.
- The document tree that the include scan builds, and the search for header files on disk.
- Money operators, handles, term structures and lattices.
