# The package planner of libalpm

A model, in Dafny, of the part of pacman's libalpm that decides what a transaction does and carries it
out on the package cache, of the data structures and orders beneath it, and of the codecs beside it.

- **Orders and structures.** `Version`, `VersionOrder` and `VersionLaws` (segment-wise version comparison, the
  kind of order it is, and what epochs, numbers, words, separators and releases do to it), `ListSpec` and
  `AlpmList` (the doubly linked list and its in-place merge sort), `PkgHash` (the open-addressing table with
  its list), `DepString` (dependencies as text).
- **Planning.** `Deps` and `DepLaws` (satisfaction, the dependency check, and what operators and provisions
  mean on dependencies as they are written), `DepGraph`, `DepOrder` and `SortByDeps` (the graph and the walk
  that orders packages), `RecurseDeps` and `Remove` (which packages a removal takes along), `ResolveDeps`
  (what a target pulls in), `Conflict` and `Sync` (the preparation of an installation).
- **Carrying out.** `RemoveCommit`, `Upgrade` and `Trans`: removing and installing packages one at a time,
  and the states of a transaction. The results of the parts come together in `Trans.TransPrepare` and
  `Trans.TransCommit`: a prepared plan is traced to what was asked, clean and sorted, every point at which
  carrying it out can stop is safe, its end is consistent, and no package changes its install reason unasked.
- **Codecs and streams.** `LocalDb` (the files of the local database), `Base64`, `ArchiveFgets` (lines from
  blocks), `HookFeed` (a bounded buffer to a child process), `DiskSpace` (the peak on each mount point).

A package is a value: its name, version, dependencies, provisions, conflicts, install reason, file name, and
whether it comes from a sync database. Lists that the program keeps in list nodes are sequences outside
`AlpmList` and `PkgHash`. What a user answers, and what the file system, the network, signals and
other threads contribute, is an arbitrary input or choice that the proofs cover in every case. Strings hold no
NUL.

Some properties hold only on a domain, which is stated together with what happens outside it: versions that
can be ordered (`VersionOrder.OrderableIff`), dependencies that print and parse back
(`DepString.ParsePrintedIff`), packages that are written and read back (`LocalDb.DescBackIff`), recursing when
versions are ignored (`Remove.RecursingBreaksWithoutVersions`), removals on a cycle
(`RemoveCommit.PartOfCycleBreaks`), and dependencies that resolving takes for met because of a name
(`ResolveDeps.SettledIsMetIff`, `ResolveDeps.UnmetWhere`).

## Model

| member | source | states |
|---|---|---|
| Version.SplitEvr | pacman/lib/libalpm/version.c:39-75 | epoch, version and release are the parts that the grammar of the comment names: digits before a colon, what follows the last dash; the laws of `VersionLaws` say what each part does to the order |
| Version.CompareSegments | pacman/lib/libalpm/version.c:116-190 | cutting both buffers at the ends of their segments, comparing, and restoring the characters gives the verdict on the segments and leaves the buffers as they were when the verdict is a tie |
| Version.RpmVerCmp | pacman/lib/libalpm/version.c:83-217 | the pointer walk over the two duplicated buffers returns the recursive definition `RpmCmp`, for all NUL-free strings |
| Version.AlpmPkgVerCmp | pacman/lib/libalpm/version.c:219-260 | NULL before everything, then epoch, version and, if both have one, release |
| VersionOrder.VerCmpAntisymmetric | pacman/lib/libalpm/version.c:219-260 | swapping the arguments negates the result, for all strings and for NULL |
| VersionOrder.NumbersCompareByValue | pacman/lib/libalpm/version.c:154-182 | numeric segments compare as the numbers they denote, whatever their length and leading zeros |
| VersionOrder.RpmIsLexicographic | pacman/lib/libalpm/version.c:83-217 | on components that do not end in a separator the comparison is the lexicographic order of (separator length, kind, value) segments, the end of the string ranking between a directly following letter and a directly following digit |
| VersionOrder.VerCmpTransitive | pacman/lib/libalpm/version.c:219-260 | transitive on versions that carry a release and whose components do not end in a separator |
| VersionOrder.TrailingSeparatorCycle | pacman/lib/libalpm/version.c:83-217 | every component that ends in a separator lies on a cycle of three, such as `1..a` < `1.` < `1.1` < `1..a` |
| VersionOrder.OrderableIff | pacman/lib/libalpm/version.c:219-260 | exactly those versions can be ordered: any other one breaks transitivity with two that can |
| VersionLaws.NumbersLead | pacman/lib/libalpm/version.c:155-182 | leading numbers decide by their values, whatever follows and whatever zeros they begin with; equal ones leave the decision to what follows |
| VersionLaws.WordsLead | pacman/lib/libalpm/version.c:176-182 | leading words decide by `strcmp`; equal ones leave the decision to what follows |
| VersionLaws.NumberBeatsWord | pacman/lib/libalpm/version.c:147-153 | a number is newer than a word in its place |
| VersionLaws.SeparatorsLead | pacman/lib/libalpm/version.c:103-114 | of separators before a segment more are newer than fewer, whichever they are; as many leave the decision to what follows |
| VersionLaws.EndRanks | pacman/lib/libalpm/version.c:192-211 | the end of a component is newer than a word that follows directly and older than anything else |
| VersionLaws.TrailingRanks | pacman/lib/libalpm/version.c:103-211 | the end after separators is newer than a word there and older than a number, and two runs of separators tie |
| VersionLaws.SuffixesInOrder | pacman/doc/vercmp.8.asciidoc:25-26 | the chain of suffixes that the manual gives, 1.0a before 1.0 before 1.0.1, is in that order |
| VersionLaws.MissingEpochIsZero | pacman/lib/libalpm/version.c:54-63 | a version without an epoch, or with an empty one, compares with every other as it would with epoch 0 |
| VersionLaws.EpochBeatsNone | pacman/lib/libalpm/version.c:219-260 | a positive epoch is newer than every version without one |
| VersionLaws.GreaterEpochWins | pacman/lib/libalpm/version.c:219-260 | of two epochs the greater wins, whatever follows; equal ones leave the decision to what follows |
| VersionLaws.ReleasesLast | pacman/lib/libalpm/version.c:249-255 | versions decide before releases, and the release is what follows the last dash |
| VersionLaws.ReleaseNeedsRelease | pacman/lib/libalpm/version.c:252-254 | the release counts only when both versions have one |
| VersionLaws.NoneIsLeast | pacman/lib/libalpm/version.c:226-233 | NULL is before every version and ties only with NULL |
| DepString.AlpmDepFromString | pacman/lib/libalpm/deps.c:458-523 | the searches of the parser split the string at the first description and at the first operator in the code's order of preference |
| DepString.PrintParsed | pacman/lib/libalpm/deps.c:458-523 | printing what was parsed gives back every string |
| DepString.ParsePrintedIff | pacman/lib/libalpm/deps.c:865-926 | parsing what was printed is the identity exactly when the parts avoid the delimiters that the parser looks for, and the version is present unless there is no operator |
| AlpmList.Append | pacman/lib/libalpm/alpm_list.c:69-93 | the list with a new last node; the head's `prev` is the tail, links are inverse, the last `next` is NULL |
| AlpmList.Join | pacman/lib/libalpm/alpm_list.c:149-169 | the concatenation of two disjoint lists, relinked |
| AlpmList.RemoveItem | pacman/lib/libalpm/alpm_list.c:257-292 | the list without that node, wherever it stands |
| AlpmList.Mmerge | pacman/lib/libalpm/alpm_list.c:171-230 | the nodes of both lists relinked in merge order, the left one first on ties |
| AlpmList.Msort | pacman/lib/libalpm/alpm_list.c:232-255 | in place, the same nodes relinked into the list `MergeSort` describes, well formed |
| ListSpec.MergeSortPermutes | pacman/lib/libalpm/alpm_list.c:232-255 | sorting keeps the multiset of nodes |
| ListSpec.MergeSortSorts | pacman/lib/libalpm/alpm_list.c:232-255 | sorting with a total preorder sorts |
| ListSpec.MergeSortStable | pacman/lib/libalpm/alpm_list.c:232-255 | elements that tie keep their order |
| AlpmList.DiffSorted | pacman/lib/libalpm/alpm_list.c:510-552 | the merge walk over two sorted lists fills each output that is asked for, without touching the lists: on the left what `OnlyLeft` says, on the right the same with the comparison swapped |
| AlpmList.Diff | pacman/lib/libalpm/alpm_list.c:554-570 | copies, sorts and subtracts: the values of the result are `Difference` |
| ListSpec.DifferenceMembers | pacman/lib/libalpm/alpm_list.c:554-570 | when no two elements of the left list compare equal, the result holds exactly those that equal nothing on the right |
| PkgHash.Create | pacman/lib/libalpm/pkghash.c:61-88 | an empty valid table of the first size in the table of primes that is larger than the wanted load asks for; NULL exactly when no prime is large enough |
| PkgHash.LoadIsBounded | pacman/lib/libalpm/pkghash.c:70-74 | at most 68 of 100 slots are taken |
| Package.HashStep | pacman/lib/libalpm/util.c:1252-1263 | one step of the hash in the form of the sdbm algorithm, two shifts and a subtraction, on 64-bit words |
| PkgHash.GetHashPosition | pacman/lib/libalpm/pkghash.c:90-106 | the probe ends, on a free slot, with every slot on its path taken |
| PkgHash.Rehash | pacman/lib/libalpm/pkghash.c:109-156 | the larger table holds the same list of nodes and is below its limit; NULL, exactly when no prime is large enough, leaves the old one as it was |
| PkgHash.AddPkg | pacman/lib/libalpm/pkghash.c:158-205 | the contents gain the name, the list gains the node at its end or in its sorted place, through a rehash if need be; NULL exactly when the table is at its limit and no prime is large enough to grow |
| PkgHash.MoveOneEntry | pacman/lib/libalpm/pkghash.c:207-232 | a step of the back-shift: the hole moves closer to the end of the run, or every probe path is whole again |
| PkgHash.Remove | pacman/lib/libalpm/pkghash.c:245-309 | the contents lose the name, the removed package is returned, and every other probe still ends where it should |
| PkgHash.Find | pacman/lib/libalpm/pkghash.c:323-351 | the package that the contents map the name to, or none |
| PkgHash.Run | pacman/lib/libalpm/pkghash.c:61-351 | over every run of create, add, sorted add, remove and find the answers are those of a map from names to packages, while the table and the list hold the same nodes; when every addition is sorted the list is in the order of names; a run whose table can be created does not end early within 385079 operations |
| Deps.FindSatisfier | pacman/lib/libalpm/deps.c:86-97 | a satisfier from the list if and only if there is one |
| Deps.FirstSatisfier | pacman/lib/libalpm/deps.c:86-97 | the satisfier found is the first on the list |
| DepLaws.NamesMatch | pacman/lib/libalpm/deps.c:413-421 | a name alone is satisfied by every version of that package, and nothing by a package of another name that provides nothing |
| DepLaws.OwnVersion | pacman/lib/libalpm/deps.c:392-411 | a package satisfies `name>=v`, `name<=v` and `name=v` for its own version `v`, and neither `name>v` nor `name<v` |
| DepLaws.Complements | pacman/lib/libalpm/deps.c:392-411 | `<` holds exactly where `>=` does not, `>` exactly where `<=` does not, and `=` exactly where both bounds do |
| DepLaws.BoundsAreClosed | pacman/lib/libalpm/deps.c:392-411 | on versions that can be ordered, what is newer than something that meets a lower bound meets it, and what is older than something that meets an upper bound meets that |
| DepLaws.ByNumbers | pacman/lib/libalpm/deps.c:392-411 | versions that are numbers meet each of the five bounds exactly when the numbers do |
| DepLaws.TwoIsAtLeastOne | pacman/lib/libalpm/deps.c:392-411 | an instance: version 2 of `lib` satisfies `lib>=1`, version 1 does not satisfy `lib>=2` |
| DepLaws.InexactProvisions | pacman/lib/libalpm/deps.c:428-450 | a provision without a version, or with one that is not exact, satisfies the name alone and no versioned dependency |
| DepLaws.ExactProvision | pacman/lib/libalpm/deps.c:428-450 | a provision `name=v` satisfies what a package of that name and version does |
| DepLaws.AssumptionMeets | pacman/lib/libalpm/deps.c:337-340 | an entry `name=v` of assumeinstalled meets what a package of that name and version would |
| DepLaws.NamesSuffice | pacman/lib/libalpm/deps.c:326-336 | with NODEPVERSION a dependency is met by any target or staying package of its name |
| Deps.CheckDeps | pacman/lib/libalpm/deps.c:300-390 | reports, in order and each as often as it occurs, exactly the dependencies of added packages that nothing meets and those of kept packages that a removed or replaced package satisfied and nothing meets now; what the operators mean is stated in `DepLaws` |
| Deps.ReportInOrder | pacman/lib/libalpm/deps.c:321-382 | the entries of the report stand in the order of the targets and then of the packages that stay, and within each of its dependencies |
| Deps.CleanIff | pacman/lib/libalpm/deps.c:300-390 | nothing is reported if and only if the changes are clean |
| SortByDeps.DepGraphInit | pacman/lib/libalpm/deps.c:104-159 | the lazily built graph has one vertex for each package reached from the targets, with edges to everything the package depends on, and its loop ends |
| SortByDeps.Visit | pacman/lib/libalpm/deps.c:231-251 | one visit advances the iterator past explored children and stops at the first unexplored one, the parents still spelling the path |
| SortByDeps.WalkAll | pacman/lib/libalpm/deps.c:228-263 | the iterative walk finishes every vertex once, dependencies first unless they reach back, and collects the targets in that order |
| SortByDeps.SortByDeps | pacman/lib/libalpm/deps.c:213-279 | each target exactly once, in an order in which one-way dependency walks lead; reversed on request |
| DepOrder.CandidatesByName | pacman/lib/libalpm/deps.c:104-125 | the packages that may enter the graph: installed, and named neither like a target nor like an ignored package |
| DepOrder.DirectDependencyLeads | pacman/lib/libalpm/deps.c:213-279 | a dependency that cannot reach back comes before the package that has it, whatever cycles there are elsewhere |
| DepOrder.NeededLeads | pacman/lib/libalpm/deps.c:213-279 | on an acyclic graph whatever a package needs, also through installed packages, comes before it |
| DepGraph.OneWayPathOrders | pacman/lib/libalpm/deps.c:213-279 | in a depth-first finishing order the end of a one-way walk precedes its start |
| RecurseDeps.SelectReached | pacman/lib/libalpm/deps.c:549-599 | the growing worklist collects exactly the packages reached from the targets through selectable packages |
| RecurseDeps.KeepNeeded | pacman/lib/libalpm/deps.c:600-604 | the shrinking worklist leaves the greatest of these sets on which no staying package depends |
| RecurseDeps.RecurseDeps | pacman/lib/libalpm/deps.c:579-622 | appends exactly the greatest removable set to the targets |
| Remove.Cascade | pacman/lib/libalpm/remove.c:90-126 | ends with the least superset of the targets that breaks nothing, the targets first |
| Remove.KeepWhatIsNeeded | pacman/lib/libalpm/remove.c:128-156 | ends with what is left when round after round takes off every reported cause, a part of the targets that breaks nothing; each target dropped satisfied, when it was dropped, a dependency of an installed package outside the targets of that round that nothing else met |
| Remove.KeptIsNotLargest | pacman/lib/libalpm/remove.c:128-156 | what is left need not be the largest part of the targets that breaks nothing: two targets dropped in one round, where dropping the second alone would do |
| Remove.RecurseAddsNoMissing | pacman/lib/libalpm/deps.c:579-622 | what the check reports after recursing it reported for the targets alone: always without NODEPVERSION, and with it when whatever recursing may add satisfies by version the dependencies of packages that are no targets that it satisfies by name |
| Remove.RecursingBreaksWithoutVersions | pacman/lib/libalpm/deps.c:579-622 | with NODEPVERSION and versions that matter this fails: three packages on which recursing breaks a clean removal |
| Remove.RemovePrepare | pacman/lib/libalpm/remove.c:203-269 | for every combination of flags: recursion before or after the check, and cascade, keep-needed or refusal, with the report, when something breaks |
| Remove.AddsNoExplicit | pacman/lib/libalpm/deps.c:549-565 | unless explicitly installed packages are included, recursing adds none of them |
| Remove.RecursingLeavesNoOrphans | pacman/lib/libalpm/deps.c:579-622 | after recursing, no package that a removed one depends on is left without another that depends on it, unless it was installed explicitly and such packages stay |
| Remove.PreparedIsClean | pacman/lib/libalpm/remove.c:203-269 | a removal prepared with dependency checks breaks nothing, whatever the other flags, unless versions are ignored and matter |
| RemoveCommit.RemovePackages | pacman/lib/libalpm/remove.c:748-782 | the cache lacks exactly the packages before the first step that an interrupt precedes; uninterrupted, all of the list |
| RemoveCommit.LeftMembers | pacman/lib/libalpm/remove.c:748-782 | what is left after some removals are the installed packages not named among them |
| RemoveCommit.StepKeeps | pacman/lib/libalpm/remove.c:748-782 | after every prefix of a clean sorted removal a dependency that `w` satisfied is still met, unless both packages go and are on a cycle |
| RemoveCommit.EveryStepKeeps | pacman/lib/libalpm/remove.c:748-782 | on acyclic dependencies no prefix costs an installed package a dependency that it had |
| RemoveCommit.PartOfCycleBreaks | pacman/lib/libalpm/remove.c:748-782 | on a cycle in which each package is the only one that satisfies a dependency of the one before it, any state with some but not all members gone has lost a dependency |
| RemoveCommit.MutualNeedBreaks | pacman/lib/libalpm/remove.c:748-782 | so the members of such a cycle, of any length from two, cannot be removed in any order without such a loss |
| ResolveDeps.ResolveDep | pacman/lib/libalpm/deps.c:636-749 | the literal match of the first database that has one wins, whether it may be installed or upgraded from; else, without prompting, the first provider that is installed; else the user is asked exactly if there are several providers, and the result is none only when there is none or the user picks none; with prompting the user is asked only about several |
| ResolveDeps.ProvidersInOrder | pacman/lib/libalpm/deps.c:676-715 | the providers come from exactly the places of the usable databases that hold a package of another name that provides the dependency and is neither excluded nor ignored, in the order of the databases and of their packages |
| ResolveDeps.PreferredIsChosen | pacman/lib/libalpm/deps.c:824-833 | the first requested package that satisfies a dependency is chosen before everything in the databases |
| ResolveDeps.Resolver.ResolveDeps | pacman/lib/libalpm/deps.c:788-863 | ends, each level putting one more candidate name on the list; a package whose name is listed changes nothing; on success the list is the old one, the package, and packages each of which was chosen for a dependency of an earlier one that the check reports and the list did not satisfy when it came to it; every such dependency was dealt with: by the list, by what was chosen for it, or, where nothing was chosen or what was chosen fails, by an installed package; names are distinct and everything added is settled; on failure the list is what it was, every missing dependency of the package was recorded or dealt with, and there is a chain of choices from the package down to a dependency for which nothing could be chosen, nothing on such a chain being met by what stays installed; every dependency recorded is one on which the package, or something tried for it, fails in this way |
| ResolveDeps.SettledIsMet | pacman/lib/libalpm/deps.c:788-863 | a settled dependency is met by the list, by a package staying installed or by assumeinstalled, where every package on offer with the name of its first preferred satisfier satisfies it |
| ResolveDeps.SettledIsMetIff | pacman/lib/libalpm/deps.c:788-863 | exactly there, or where it is met outside the list, is a dependency met on every list from the packages on offer that settles it |
| ResolveDeps.RunMeets | pacman/lib/libalpm/deps.c:788-863 | every successful run meets, for each package that it adds, every dependency for which that holds |
| ResolveDeps.UnmetRun | pacman/lib/libalpm/deps.c:819-835 | where the list has the name and nothing meets the dependency, resolving a package that otherwise has everything at hand succeeds, adds the package alone and leaves the dependency unmet |
| ResolveDeps.UnmetWhere | pacman/lib/libalpm/deps.c:819-835 | so in every setting in which a package on offer with that name does not satisfy the dependency and nothing outside the list meets it, some run succeeds and leaves it unmet |
| ResolveDeps.OneCandidateMeets | pacman/lib/libalpm/deps.c:788-863 | with one candidate a name that never happens |
| ResolveDeps.DisagreementRun | pacman/lib/libalpm/deps.c:788-863 | an instance of such a run |
| ResolveDeps.DisagreementSetting | pacman/lib/libalpm/deps.c:819-835 | its setting: the list has the name of the package that satisfies the dependency, and does not meet it |
| Conflict.AddConflict | pacman/lib/libalpm/conflict.c:130-149 | a pair of names is listed once |
| Conflict.CheckConflict | pacman/lib/libalpm/conflict.c:163-201 | all clashes of the first list with the second are listed, in the order asked for, and every entry is one |
| Conflict.InnerConflicts | pacman/lib/libalpm/conflict.c:209-217 | the pairs listed are exactly the targets of which the first conflicts with the second, the reason being a conflict of the first |
| Conflict.OuterConflicts | pacman/lib/libalpm/conflict.c:222-241 | the pairs listed are exactly a target and an installed package not replaced by a target that conflict either way, the target first, the reason being a conflict of one with the other |
| DepLaws.ConflictEntry | pacman/lib/libalpm/conflict.c:163-201 | a conflict entry names the packages of other names that satisfy it as a dependency, never one of its own name |
| Sync.CheckDatabases | pacman/lib/libalpm/sync.c:378-398 | passes exactly when no database is invalid and none is missing that a target comes from; else the error is that of the first database that fails |
| Sync.ReadyWhen | pacman/lib/libalpm/sync.c:378-398 | an invalid database always counts, a missing one only when a target comes from a database |
| Sync.ResolveAll | pacman/lib/libalpm/sync.c:400-436 | every target is on the resolved list by name or set aside, as resolving them in turn leaves it: each extends the list or fails on it; the list is settled, has distinct names, and holds targets and packages chosen for a missing dependency of an earlier member; the report holds every missing dependency of a target set aside that was not dealt with, and nothing that was not recorded while a target was resolved |
| Sync.CollectedIsMet | pacman/lib/libalpm/sync.c:400-436 | a dependency of the resolved packages is met where every package on offer with the name of its first preferred satisfier satisfies it |
| Sync.SharesFilename | pacman/lib/libalpm/sync.c:467-484 | exactly when two resolved packages have the same file name |
| Sync.ResolveTargets | pacman/lib/libalpm/sync.c:400-505 | the new targets have distinct names and files and lose no original one; a package under a requested name is one on offer as it is, and any other is one on offer that has become a dependency; they are the packages collected in turn; what could not be resolved is set aside only if the user goes on, which clears the report; else the report is that of resolving the targets; errors name a shared file or, if the user does not go on, dependencies that could not be resolved, and change nothing |
| Sync.SettleInner | pacman/lib/libalpm/sync.c:514-571 | afterwards no two targets conflict; the targets left are those not dropped, and each one dropped, and set aside, conflicted with one still there that satisfies its name, and if each satisfies the name of the other with one that names it as a conflict; an error shows two conflicting targets neither of which satisfies the name of the other |
| Sync.ProviderStays | pacman/lib/libalpm/sync.c:514-571 | of two conflicting targets only one of which provides the other, that one stays and the other is set aside |
| Sync.SettleOuter | pacman/lib/libalpm/sync.c:573-630 | afterwards every conflicting installed package is elected for removal; what a target takes over grows only by packages that are not replaced, conflict with it, and may go if the user is asked; an error shows one that may not |
| Sync.BuildRemoveList | pacman/lib/libalpm/sync.c:632-645 | a name is on the removal list if and only if it was, or a target takes it over; nothing else is added |
| Sync.SyncPrepare | pacman/lib/libalpm/sync.c:365-681 | whatever the user answered, success means a clean and conflict-free plan whose targets are the requested ones and what was chosen for their missing dependencies, all accounted for, those that nobody requested marked as dependencies, and whose removals were requested or caused by a target; each error is there for the reason it names; the report holds dependencies that nothing meets, or what was recorded while resolving |
| Sync.CheckIsExact | pacman/lib/libalpm/sync.c:647-664 | the last check passes exactly when in the final set every target's dependencies are met and no package that stays has lost one |
| Sync.PreparedIsConsistent | pacman/lib/libalpm/sync.c:365-681 | without NODEPS, NODEPVERSION and NOCONFLICTS the final set is consistent: targets met, nothing broken, no target conflicting with another member |
| Upgrade.CommitSinglePkg | pacman/lib/libalpm/add.c:415-653 | from one stage to the next: the old version goes, then the target comes unless it fails before that, with the reason due to it: dependency or explicit if the flags say so, else that of the package it replaces, else its own; the return value says whether all went well |
| Upgrade.UpgradePackages | pacman/lib/libalpm/add.c:655-695 | handles the targets before the first interrupt or failure, and stops at the stage that these leave, the targets put in having the reasons due to them; otherwise all targets are in |
| Upgrade.NothingAfterFailure | pacman/lib/libalpm/add.c:655-695 | nothing is handled after a target that fails nor from an interrupt on, and without either everything is |
| Upgrade.AddSortedKeepsOrder | pacman/lib/libalpm/pkghash.c:158-205 | adding to a cache in the order of names keeps it in that order |
| Upgrade.TargetKeeps | pacman/lib/libalpm/add.c:655-695 | at every stage a dependency of an installed target that `w` satisfies in the plan is met, unless the two are on a cycle |
| Upgrade.EveryStageMeets | pacman/lib/libalpm/add.c:655-695 | on acyclic dependencies the targets already put in have all their dependencies met at every stage, also a failed one |
| Upgrade.FinishedIsFinal | pacman/lib/libalpm/add.c:655-695 | with every target in, what is installed is the plan's final set: the packages that stay as they were, and the targets with the reasons due to them |
| Upgrade.ReasonsSurvive | pacman/lib/libalpm/add.c:452-481 | without ALLDEPS and ALLEXPLICIT a finished transaction changes the reason of no package that was installed before and not removed |
| Trans.TransInit | pacman/lib/libalpm/trans.c:45-67 | a fresh initialized transaction; refused if there is one, or if the lock is wanted and cannot be taken |
| Trans.CheckArch | pacman/lib/libalpm/trans.c:69-107 | the packages of the wrong architecture, in order |
| Trans.TransPrepare | pacman/lib/libalpm/trans.c:109-165 | each error exactly in its case; a removal is recursed and checked from the removal list as the flags say, or refused with the report; an installation is traced to what was requested, or fails for the reason named; success leaves a checked plan, sorted unless NODEPS, or nothing to do |
| Trans.RemovalMeans | pacman/lib/libalpm/remove.c:203-269 | what the flags mean for the caller: every target goes unless needed ones are to be kept; without recursing and cascading nothing else goes; only a cascade or `recurseall` takes explicitly installed packages along; recursing leaves no orphans |
| Trans.TransCommit | pacman/lib/libalpm/trans.c:167-245 | refuses without a prepared state or a lock; ends before the database is touched exactly when loading, the check or a hook fails or only a download is wanted; else carries the plan out as far as interrupts and failures let it; when the files hold what the databases said it stops safely, and without interrupts and failures it reaches the end |
| Trans.ProceedsIff | pacman/lib/libalpm/trans.c:167-245 | an installation goes on to the database exactly when its files are there and readable, more than a download is wanted, and the check and the hooks pass or are switched off; a removal depends on the hooks alone |
| Trans.SyncCommit | pacman/lib/libalpm/sync.c:1234-1258 | removals, then installations, as far as interrupts and failures let them; an interrupt in the first keeps the second from starting |
| Trans.CarriedOutIsSafe | pacman/lib/libalpm/sync.c:1234-1258 | a prepared plan carried out under whatever interrupts and failures leaves a safe database |
| Trans.UneventfulFinishes | pacman/lib/libalpm/sync.c:1234-1258 | without interrupts and failures it is carried out to its end: the removals are gone, or the installation is consistent |
| Trans.LoadPackages | pacman/lib/libalpm/sync.c:1058-1141 | succeeds exactly when every file can be read and has the name and version of its target; each such target becomes what its file holds, with the reason it was prepared with, and keeps its recorded old version |
| Trans.LoadedKeeps | pacman/lib/libalpm/sync.c:1090-1122 | loading keeps name, version and reason, and whatever else the file holds replaces what the database said |
| Trans.RemovalStepsAreSafe | pacman/lib/libalpm/trans.c:135-162 | every prefix of a prepared removal keeps what the installed packages had |
| Trans.InstallStagesAreSafe | pacman/lib/libalpm/trans.c:148-160 | every stage of a prepared installation meets what the targets already in need |
| Trans.FinishedIsConsistent | pacman/lib/libalpm/sync.c:1234-1258 | a plan carried out to its end leaves the targets in, their dependencies met, nothing broken and no conflicts with a target |
| Trans.TransInterrupt | pacman/lib/libalpm/trans.c:247-262 | only while committing or already interrupted |
| Base64.Encode | pacman/lib/libalpm/base64.c:73-131 | the padded encoding and its length, or the size needed, with the terminator after it |
| Base64.Check | pacman/lib/libalpm/base64.c:144-163 | the first pass accepts exactly digits followed by at most two paddings, with LF and CRLF breaks anywhere, and counts them |
| Base64.NeededMeans | pacman/lib/libalpm/base64.c:165-175 | the size asked for is the whole bytes that hold six bits a character, and no more |
| Base64.Write | pacman/lib/libalpm/base64.c:177-193 | the second pass skips the same characters, writes the decoded bytes and never more than the first pass asked room for |
| Base64.Decode | pacman/lib/libalpm/base64.c:137-196 | rejection, too small a buffer or the decoded bytes, each exactly when it should be |
| Base64.DecodeEncoded | pacman/lib/libalpm/base64.c:73-196 | every encoding decodes to its bytes, however LF and CRLF breaks are put between its characters |
| Base64.PlainEncoded | pacman/lib/libalpm/base64.c:73-131 | an encoding contains no breaks itself |
| Base64.GroupSpells | pacman/lib/libalpm/base64.c:73-131 | the four characters of a group are the digits of table 1 in section 5.2 of RFC 1521 that spell the number made of its three bytes, missing ones being 0 and characters that no byte reaches `=` |
| Base64.ForeignIsRejected | pacman/lib/libalpm/base64.c:144-163 | a text with a character that is neither such a digit nor padding nor part of a break is rejected |
| ArchiveFgets.ReadBuffer.EnsureRoom | pacman/lib/libalpm/util.c:1127-1152 | room for the rest of the line and its NUL, what was copied kept; refused exactly when a buffer exists and the line would exceed the maximum |
| ArchiveFgets.ReadBuffer.TakeBlock | pacman/lib/libalpm/util.c:1162-1176 | a block without newline joins the line, inside the buffer |
| ArchiveFgets.ReadBuffer.Fgets | pacman/lib/libalpm/util.c:1090-1185 | returns the next piece of the text between newlines wherever blocks end, then EOF; ERANGE only for a piece that is too long |
| ArchiveFgets.ReadLines | pacman/lib/libalpm/be_package.c:162-176 | the lines read by successive calls are the split at newlines of the concatenated blocks |
| ArchiveFgets.SplitJoins | pacman/lib/libalpm/util.c:1090-1185 | the pieces of the split have no newline and, joined by newlines, give back the text |
| HookFeed.Feed.FeedTargets | pacman/lib/libalpm/hook.c:469-490 | what was written followed by what is left is what was left before; 0 only when nothing is left; a short write means nothing is left |
| HookFeed.Child.WriteToChild | pacman/lib/libalpm/util.c:464-493 | what the child has, the buffer and what is not yet fed stay the same text, whatever a send accepts |
| HookFeed.Run | pacman/lib/libalpm/util.c:715-723 | over any number of sends nothing is lost, repeated or reordered; ending without a failure the child has everything |
| HookFeed.LinesAre | pacman/lib/libalpm/hook.c:469-490 | in the text to be fed each target stands in its place with one newline after it |
| DiskSpace.MatchMountPoint | pacman/lib/libalpm/diskspace.c:190-217 | the first mount point of the list that contains the path as a directory prefix |
| DiskSpace.ContainsMeans | pacman/lib/libalpm/diskspace.c:190-217 | a directory contains itself and what its path continues after a slash, not what merely begins with its name |
| DiskSpace.MatchIsLongest | pacman/lib/libalpm/diskspace.c:190-217 | on the reverse-sorted list that is the longest such directory |
| DiskSpace.MountPointList | pacman/lib/libalpm/diskspace.c:95-188 | the same mount points, directories before their parents |
| DiskSpace.CalculateRemovedSize | pacman/lib/libalpm/diskspace.c:219-279 | each mount point gives back the blocks of its own files only, if its file system can be asked |
| DiskSpace.CalculateInstalledSize | pacman/lib/libalpm/diskspace.c:281-338 | each mount point is charged the blocks of its own files only, database entries under the database path |
| DiskSpace.CeilHolds | pacman/lib/libalpm/diskspace.c:327-331 | the blocks charged for a file hold it, and one less would not |
| DiskSpace.ChargesMean | pacman/lib/libalpm/diskspace.c:219-338 | a file is charged to a mount point that contains it, metadata to one that contains the database path, in blocks that hold it; a removed file gives back blocks that hold what is on disk; special files and mount points that cannot be asked count nothing |
| DiskSpace.NetSigns | pacman/lib/libalpm/diskspace.c:421-476 | removing alone never needs space, and installing alone never gives any back |
| DiskSpace.CushionMeans | pacman/lib/libalpm/diskspace.c:342-346 | the cushion exceeds five percent of the blocks or 20 MiB, and one block less exceeds neither |
| DiskSpace.TallyMeans | pacman/lib/libalpm/diskspace.c:421-476 | the balance left is the net change, the maximum is the peak over 0 and all prefixes of the targets, and the marks say what was touched |
| DiskSpace.CheckDiskspace | pacman/lib/libalpm/diskspace.c:421-492 | accepted exactly when no touched mount point is read-only and on each that installs the peak and the cushion fit in the free blocks |
| LocalDb.ChunksOfLines | pacman/lib/libalpm/be_local.c:664-690 | lines that fit in the buffer are read back one by one and the end is met only after the last |
| LocalDb.LongLineIsCut | pacman/lib/libalpm/be_local.c:664-672 | a line that does not fit in the buffer is delivered in pieces of 1023 characters |
| LocalDb.Stream.ReadLine | pacman/lib/libalpm/be_local.c:664-690 | one line, or the end of the file with the buffer as it was |
| LocalDb.ReadAndStoreAll | pacman/lib/libalpm/be_local.c:674-682 | the items up to a blank line or the end |
| LocalDb.ReadAndSplitDep | pacman/lib/libalpm/be_local.c:684-690 | the same, each parsed as a dependency |
| LocalDb.ReadDesc | pacman/lib/libalpm/be_local.c:718-812 | the loop of comparisons over a desc file, stale buffer included, computes `DescFrom` |
| LocalDb.StaleHeader | pacman/lib/libalpm/be_local.c:664-672 | a file that ends with the header of the architecture gives that header as its value, since the buffer still holds it |
| LocalDb.MakeSection | pacman/lib/libalpm/be_local.c:799-800 | a section of make dependencies, though never written, is read into its own field |
| LocalDb.CheckSection | pacman/lib/libalpm/be_local.c:801-802 | so is one of check dependencies |
| LocalDb.DigitsRead | pacman/lib/libalpm/util.c:1272-1322 | what digits are read as: a date within 64 bits or 0, a size within 64 bits or -1, unsigned ones above wrapped around, a reason by its lowest 32 bits |
| LocalDb.NotANumber | pacman/lib/libalpm/util.c:1272-1322 | text that does not begin like a number is read as date and reason 0 and as size -1 |
| LocalDb.ReadFiles | pacman/lib/libalpm/be_local.c:814-873 | the loop over a files file computes `FilesFrom` |
| LocalDb.FilesSorted | pacman/lib/libalpm/be_local.c:814-873 | the file names read are put in order, each as often as it occurs |
| LocalDb.Output.WriteDeps | pacman/lib/libalpm/be_local.c:919-934 | a header, the printed dependencies and a blank line, or nothing |
| LocalDb.Output.WriteDesc | pacman/lib/libalpm/be_local.c:936-1045 | the sections of the set fields in order |
| LocalDb.FileFormat | pacman/lib/libalpm/be_local.c:936-1045 | the text of a desc file: these headers, in this order, each with its lines and a blank one, sections without lines left out |
| LocalDb.FilesFormat | pacman/lib/libalpm/be_local.c:1047-1083 | the text of a files file, a backup being its name, a tab and its hash |
| LocalDb.WriteFiles | pacman/lib/libalpm/be_local.c:1047-1083 | the sections of the files and backups that there are |
| LocalDb.DateBack | pacman/lib/libalpm/util.c:1301-1322 | a printed date that fits in 64 bits is read back |
| LocalDb.SizeBack | pacman/lib/libalpm/util.c:1272-1295 | what a printed size is read back as: itself exactly when it is not below -1, else -1 |
| LocalDb.DescBack | pacman/lib/libalpm/be_local.c:718-1045 | reading what was written restores every written field of the desc file, for values that fit a line, list items that are not blank and dependencies that parse back; a size below -1 comes back as -1, and make and check dependencies come back empty |
| LocalDb.DescBackIff | pacman/lib/libalpm/be_local.c:718-1045 | the package as a whole is restored if and only if it has no make and check dependencies and its size is not below -1 |
| LocalDb.FilesBack | pacman/lib/libalpm/be_local.c:814-1083 | reading what was written restores the files and backups, for sorted file names and tab-free backup names with hashes |

## Left out

- PkgHash.AddPkg: the name must not be in the table yet, as its callers check before they add.
- PkgHash.Create: the load factors 0.58 and 0.68 are the ratios 58/100 and 68/100 of whole numbers instead of floating-point products, and the limit is not truncated to an unsigned int.
- Sync.SyncPrepare: the conflict that a conflict error appends to the report is shown to exist but not put there, since the report is a list of missing dependencies.
- ArchiveFgets.ReadBuffer.Fgets: stated for nonempty blocks without NUL, which is what text entries hold; a NUL ends a line only when no newline follows in the same block.
- RemoveCommit.EveryStepKeeps: stated for pure removals; in a transaction that also installs, packages may miss a dependency between the removal of an old package and the arrival of its replacement.
- Trans.TransCommit: its safety is stated for loaded packages that equal the database entries, since the program checks only name and version when it loads a file.
- Pointer identity: two package objects with the same contents are one value, so an install reason set in place on a pulled package does not show in the sync database.
- Machine integers: sizes and counters of `size_t` and `off_t` are unbounded, except where the code parses text into 64 or 32 bits and in the 32-bit accumulator of `base64_decode`.
- Allocation failure, logging, events, progress callbacks, locale, and the getters and setters of `handle.c` and `package.c`.
- `alpm_trans_release`, and the lock file itself: whether the lock can be taken is an input of `Trans.TransInit`.
- Loading the databases (`be_sync.c`, `be_package.c`, `local_db_populate`): their packages are given, with distinct names where installed.
- Downloads, signatures, file conflicts and hooks: each is a success or failure among the inputs of `Trans.TransCommit`.
- Extraction, backups, unlinking, scriptlets: of `add.c` and `remove.c` only the effect on the package cache is kept.
- Paths in `diskspace.c` are not cut at PATH_MAX, and what is on disk does not change during the check.
- `_alpm_check_downloadspace`, `alpm_list_add_sorted` and the other list functions that the modelled code does not call.
