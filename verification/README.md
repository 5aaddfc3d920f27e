# Verified models of the OneGov GEVER core components

This project models the components of OneGov GEVER that keep state of their own, and proves what
they keep over whole runs. Each component is a module of its own; ZODB annotations, SQL rows and the
catalog are maps and sequences. Code that changes objects step by step is a class whose methods are
proved against a function on values; the laws of that function are lemmas.

| module | component |
|---|---|
| `Collections`, `StableSorting` | shared list operations and Python's stable sort |
| `TouchedLog`, `RecentlyTouched` | the log of recently touched documents and the list shown from it |
| `SequenceNumbers` | sequence numbers issued over separate database connections |
| `RoleStorage`, `RoleAssignments`, `LocalRoles` | role assignments (laws, mutable storage, manager) |
| `Decimals`, `NaturalOrder`, `NextNumber` | decimal texts, the natural order, the next prefix |
| `ReferencePrefixes` | which child of a container has which prefix |
| `ReferenceFormatter`, `GroupedFormatter` | printing complete numbers and parsing them for sorting |
| `SeparatedTexts`, `RepositoryNumbers`, `NumberIdentity` | when two complete numbers are the same text |
| `ReferenceTree` | complete numbers over the content tree |
| `Responses` | the response container |
| `Favorites` | favorite positions |
| `SchemaMigration` | guarded schema instructions and crash recovery |
| `AdvancedJson` | tagged JSON |
| `Digest` | digest mails |
| `Delivery` | delivery of archival packages and its nightly job |

## What the code does differently from what it says

Each of these is proved: an input for which the promise fails, and exactly when it holds.

- Touched log: the loop that removes from the list it iterates over skips the entry behind each
  removed one. It deduplicates exactly when no two neighbours share the UID
  (`TouchedLog.DeduplicationExact`); over whole runs UIDs are unique, so it does.
- Recently touched: the cutoff allows for checked out documents but not for deleted ones
  (`RecentlyTouched.DeletedDocumentBreaksAgreement`); truncation is invisible exactly under
  `RecentlyTouched.RunShowsUntruncatedExactly`.
- Role assignments: `clear_by_cause_and_principal` promises to remove all assignments and removes one
  (`RoleStorage.ClearCauseAndPrincipalExactly`); adding without a reference overwrites the first item
  of the group even if that one has a reference (`RoleStorage.AddLeavesOthersExactly`).
- New owner: the roles kept for a former owner are passed as a generator, which the patched
  `manage_setLocalRoles` consumes while looking for Owner. The former owner loses all local roles
  (`LocalRoles.FormerOwnerLosesOtherRoles`), so the method does what is meant exactly when no former
  owner has another role (`LocalRoles.NewOwnerAsIntendedExactly`). Deriving the roles again afterwards
  hides this (`LocalRoles.DerivingHidesLoss`).
- Next prefix: it exceeds all prefixes in use exactly under `NextNumber.Continuable`, and it is a valid
  number exactly under `ReferencePrefixes.DefaultIsSafe`. Prefixes without a digit all get the empty
  successor (`ReferencePrefixes.TextPrefixesCollide`), and signed numbers are counted towards zero
  (`NextNumber.SignedPrefixCollides`).
- Complete numbers: a document outside a dossier prints like a dossier
  (`ReferenceFormatter.DocumentWithoutDossierCollides`), a dot inside a prefix prints like two
  prefixes (`ReferenceFormatter.DotInPartCollides`), and grouping by three forgets where a prefix ends
  (`GroupedFormatter.GroupingCollides`). Which numbers print alike, with dots or without, is
  `NumberIdentity.NumbersEqualExactly`; with the character in front of dossiers inside a prefix there
  are further collisions (`NumberIdentity.MarkerInPartCollides`).
- Responses: a deletion can make a later response sort before earlier ones
  (`Responses.DeletionBreaksOrder`); over runs with deletions the listing is the order of addition
  exactly under `Responses.ListingIsAdditionOrderExactly`.
- Favorites: removing an object leaves gaps (`Favorites.RemovalLeavesGap`), except exactly for users
  who had it last or not at all (`Favorites.RemovalKeepsListExactly`).
- Migrations: one that changes a table and then drops it cannot be run again
  (`SchemaMigration.DroppedTableBreaksRecovery`). After crashes a migration succeeds exactly when no
  crash came after dropping a table that one of its instructions needs, column drops excepted
  (`SchemaMigration.CrashRecoveryExactly`).
- JSON: a mapping with the reserved type key does not survive (`AdvancedJson.RoundTripExactly`), although
  decoding can yield one, from a list of pairs (`AdvancedJson.DecodedMappingCanBeReserved`).
- Digest: aborting a transaction rolls back the flags but does not clear the thread's mail queue, so
  trying again in the same thread sends a mail twice (`Digest.RetryInThreadSendsTwice`). The mails that
  go out are the recorded ones exactly when the process is started again between every abort that left
  mails and the next commit (`Digest.DeliversRecordedIffRestarted`).
- Delivery: after a conflict error, in a transport or when the delivery is committed, the status is
  rolled back but the transport was called, so it is called again (`Delivery.ConflictRepeatsCall`,
  `Delivery.CallsWithoutForce`). Such calls exist exactly in the runs that are not
  `Delivery.ConflictFree` (`Delivery.NothingWasted`).

## Model

| member | source | states |
|---|---|---|
| `StableSorting.StableSortCorrect` | opengever/base/touched.py:104-112 | the sort gives a sorted permutation in which ties keep their order |
| `TouchedLog.ObjectTouchedHandler.EnsureLogInitialized` | opengever/base/touched.py:69-75 | a missing log becomes an empty one; nothing else changes |
| `TouchedLog.ObjectTouchedHandler.LogTouchedObject` | opengever/base/touched.py:77-99 | a tracked touch replaces the user's log by deduplicating, putting the object in front, sorting and truncating; other logs and untracked objects change nothing |
| `TouchedLog.ObjectTouchedHandler.Sort` | opengever/base/touched.py:104-112 | afterwards the log is a permutation of what it was, newest first, with entries of one time in their old order |
| `TouchedLog.DeduplicationExact` | opengever/base/touched.py:86-91 | removing from the list under iteration removes all entries of the object exactly when no two neighbours are its entries; the others stay in order |
| `TouchedLog.MostRecentlyUsedStep` | opengever/base/touched.py:86-96 | on the independently defined untruncated list a touch moves the object to the front |
| `TouchedLog.TouchStaysPrefix` | opengever/base/touched.py:86-128 | a touch keeps a log the front of the untruncated list, as long as its cutoffs allow |
| `TouchedLog.StoredIsPrefixOfMostRecentlyUsed` | opengever/base/touched.py:77-128 | over every run with a non-decreasing clock the log is a prefix of the untruncated list, at least as long as the smallest cutoff allows, with unique UIDs and newest first |
| `TouchedLog.TouchSelfCorrects` | opengever/base/touched.py:104-112 | even from a damaged log a touch leaves a sorted one |
| `RecentlyTouched.RecentlyTouchedGet.GetCheckedOutBrains` | opengever/api/recently_touched.py:49-64 | the memoized answer is the first one |
| `RecentlyTouched.RecentlyTouchedGet.GetRecentlyTouched` | opengever/api/recently_touched.py:79-132 | shows the first `limit` entries that the catalog knows and that are not checked out |
| `RecentlyTouched.RecentlyTouchedGet.EntriesWithBrain` | opengever/api/recently_touched.py:116-125 | the loop keeps exactly the entries with a brain, in order |
| `RecentlyTouched.RecentlyTouchedGet.Reply` | opengever/api/recently_touched.py:38-47 | both lists come from one catalog answer and share no document |
| `RecentlyTouched.ShownDisjoint` | opengever/api/recently_touched.py:102-106 | everything shown is logged and not checked out |
| `RecentlyTouched.ShownStep` | opengever/api/recently_touched.py:116-132 | entry by entry: what the catalog knows and is not checked out is shown in the order of the log until the limit is reached |
| `RecentlyTouched.TruncationInvisibleExactly` | opengever/api/recently_touched.py:116-132 | truncating the log is invisible exactly when `limit` visible entries remain or nothing visible was cut off |
| `RecentlyTouched.HiddenAtMostCheckedOut` | opengever/base/touched.py:114-126 | with unique UIDs at most one entry is hidden per checked out document |
| `RecentlyTouched.LongPrefixShowsAll` | opengever/base/touched.py:114-128 | every prefix of at least limit plus checked out entries shows the same as the whole log |
| `RecentlyTouched.RunShowsUntruncated` | opengever/base/touched.py:77-128 | over every run with cutoffs of at least limit plus checked out documents, all of them resolvable, the display from the truncated log is the display from the untruncated one |
| `RecentlyTouched.RunShowsUntruncatedExactly` | opengever/base/touched.py:77-128 | over every run, with any cutoffs and deleted documents, it is exactly when `limit` visible entries are stored or no visible one was dropped |
| `RecentlyTouched.DeletedDocumentBreaksAgreement` | opengever/api/recently_touched.py:116-132 | with a logged document that no longer exists the two displays can differ |
| `SequenceNumbers.Annotation.IncrementNumber` | opengever/base/sequence.py:112-123 | increments one counter, starting at 0, and returns a number greater than all before |
| `SequenceNumbers.Database.SeparateZodbConnection` | opengever/base/sequence.py:125-151 | the first of ten attempts not overtaken by a foreign commit issues the number after all commits so far; refused exactly when all ten were overtaken |
| `SequenceNumbers.Numbered.GetNumber` | opengever/base/sequence.py:30-36 | a stored number is returned again without touching the counter; otherwise the first undisturbed attempt stores the number after all commits so far and increments the counter; a refused request stores none |
| `SequenceNumbers.Numbered.RemoveNumber` | opengever/base/sequence.py:38-41 | afterwards no number is stored |
| `SequenceNumbers.StepKeepsInv` | opengever/base/sequence.py:112-151 | every step of every client keeps: the numbers issued for a key are 1, 2, ... up to its counter, and every number held or pending was issued to that object |
| `SequenceNumbers.RunKeepsInv` | opengever/base/sequence.py:112-151 | the invariant holds under every interleaving of clients, conflicts, retries and aborts |
| `SequenceNumbers.IssuedNumberIsRank` | opengever/base/sequence.py:112-151 | the k-th successful commit for a key issued the number k |
| `SequenceNumbers.NumbersUnique` | opengever/base/sequence.py:65-82 | no number is issued twice for a key, none exceeds the counter, and the counter is the number of successful commits |
| `SequenceNumbers.HoldersUnique` | opengever/base/sequence.py:30-41 | two objects sharing a key never hold the same number, whatever main transactions abort |
| `SequenceNumbers.MainTransaction` | opengever/base/sequence.py:30-41 | a main transaction reads what is stored, requests a number exactly for an object that has none, and stores what it wrote |
| `SequenceNumbers.NumberGivenOnce` | opengever/base/sequence.py:30-36 | without removals and aborts a client never gets a second number for an object |
| `SequenceNumbers.RetriesBounded` | opengever/base/sequence.py:132-148 | a request is tried at most ten times and refused only after ten commits by others |
| `SequenceNumbers.GapAfterAbort` | opengever/base/sequence.py:78-81 | a number given to an aborted transaction leaves a gap |
| `RoleStorage.Find` | opengever/base/role_assignments.py:190-196 | the lookup finds the first item that answers; without a reference the first item of the group will do |
| `RoleStorage.FindsFirst` | opengever/base/role_assignments.py:190-196 | in full: the first item of principal and cause with the reference, or the first at all when none or an empty one is given |
| `RoleStorage.ClearLeavesOthers` | opengever/base/role_assignments.py:206-212 | removing each selected item by equality leaves exactly the other items, in order, duplicates or not |
| `RoleStorage.RemovesFoundItem` | opengever/base/role_assignments.py:218-219 | removing the found item by equality removes the item at the found position |
| `RoleStorage.ApplyKeepsOrdered` | opengever/base/role_assignments.py:190-251 | every operation keeps that only the first item of a (principal, cause) group may lack a reference |
| `RoleStorage.RunKeepsKeysUnique` | opengever/base/role_assignments.py:190-251 | over every run of add, update, clear and reset, (principal, cause, reference) identifies an item |
| `RoleStorage.AddStoresRoles` | opengever/base/role_assignments.py:236-251 | after adding, the key holds exactly the given roles |
| `RoleStorage.AddLeavesOthersExactly` | opengever/base/role_assignments.py:236-251 | adding leaves every item of another key alone exactly when the found item has the given reference |
| `RoleStorage.AddWithoutReferenceOverwrites` | opengever/base/role_assignments.py:190-196 | adding without a reference can drop an assignment made on behalf of another object |
| `RoleStorage.ClearOneExactly` | opengever/base/role_assignments.py:341-347 | clearing one assignment removes its key and leaves every other item |
| `RoleStorage.ClearCauseAndPrincipalExactly` | opengever/base/role_assignments.py:201-204 | clearing by cause and principal removes one item and empties the group exactly when it had at most one |
| `RoleStorage.ReferencelessCauseIsCleared` | opengever/base/role_assignments.py:329-333 | for a cause always stored without a reference everything of the principal is removed |
| `RoleStorage.InvitationsAreNotAllCleared` | opengever/base/role_assignments.py:329-333 | of two invitations of a principal one stays |
| `RoleStorage.AddAllIsEach` | opengever/base/role_assignments.py:281-286 | adding several assignments is adding one after the other |
| `RoleStorage.ResetReplacesCause` | opengever/base/role_assignments.py:301-313 | a reset leaves all items of other causes, in order, and of its cause exactly the assignments added to an empty list |
| `RoleStorage.ResetStoresExactly` | opengever/base/role_assignments.py:301-313 | a reset to assignments of different principals stores exactly these, behind the items of other causes |
| `RoleAssignments.RoleAssignmentStorage.Get` | opengever/base/role_assignments.py:190-196 | returns the record the lookup on values finds |
| `RoleAssignments.RoleAssignmentStorage.AddOrUpdate` | opengever/base/role_assignments.py:236-251 | updates the found record in place or appends one; records and role lists stay unshared |
| `RoleAssignments.RoleAssignmentStorage.Select` | opengever/base/role_assignments.py:221-234 | returns the records that meet a criterion, in order |
| `RoleAssignments.RoleAssignmentStorage.ClearBy` | opengever/base/role_assignments.py:206-212 | leaves exactly the records that do not meet the criterion, in order |
| `RoleAssignments.RoleAssignmentStorage.ClearByCauseAndPrincipal` | opengever/base/role_assignments.py:201-204 | drops the first record of the group, if any |
| `RoleAssignments.RoleAssignmentStorage.Clear` | opengever/base/role_assignments.py:218-219 | drops the first record equal to the given one |
| `RoleAssignments.RoleAssignmentStorage.ClearAll` | opengever/base/role_assignments.py:214-216 | leaves no record |
| `RoleAssignments.RoleAssignmentStorage.ComputeEffective` | opengever/base/role_assignments.py:253-262 | gives each principal the union of its stored roles and modifies nothing that is stored |
| `RoleAssignments.StoredRolesAre` | opengever/base/role_assignments.py:253-262 | a role is effective exactly when some assignment of the principal gives it |
| `LocalRoles.RoleAssignmentManager.UpdateLocalRoles` | opengever/base/role_assignments.py:381-403 | the local roles become the stored roles of each principal, plus Owner for those who had it |
| `LocalRoles.RoleAssignmentManager.AddOrUpdate` | opengever/base/role_assignments.py:290-292 | stores the assignment and derives the local roles |
| `LocalRoles.RoleAssignmentManager.AddOrUpdateAssignments` | opengever/base/role_assignments.py:281-288 | stores all assignments in order and derives once |
| `LocalRoles.RoleAssignmentManager.Reset` | opengever/base/role_assignments.py:301-313 | replaces the assignments of one cause; an empty list raises IndexError and mixed causes ValueError, without a change |
| `LocalRoles.RoleAssignmentManager.ClearAll` | opengever/base/role_assignments.py:315-319 | leaves the owners with Owner and nobody else with anything |
| `LocalRoles.RoleAssignmentManager.ClearByCauseAndPrincipals` | opengever/base/role_assignments.py:321-327 | drops one assignment of the cause for each listed principal |
| `LocalRoles.ClearPrincipalsIsEach` | opengever/base/role_assignments.py:321-327 | clearing for several principals is clearing for one after the other |
| `LocalRoles.RoleAssignmentManager.ClearByReference` | opengever/base/role_assignments.py:335-339 | drops exactly the assignments of one reference |
| `LocalRoles.RoleAssignmentManager.Clear` | opengever/base/role_assignments.py:341-347 | drops the found assignment and derives; finding none changes nothing at all |
| `LocalRoles.NothingLeftWithoutOwner` | opengever/base/monkey/patches/rolemanager.py:7-12 | the Owner test reads a generator without Owner to its end |
| `LocalRoles.LeftBehindOwner` | opengever/base/monkey/patches/rolemanager.py:7-12 | of a generator with Owner in it, what stands behind the first Owner is left |
| `LocalRoles.RoleAssignmentManager.SetNewOwner` | opengever/base/role_assignments.py:349-363 | the user gains Owner; every former owner is left without any role |
| `LocalRoles.RoleAssignmentManager.UpdateLocalRolesAfterCopying` | opengever/base/role_assignments.py:365-379 | only assignments of kept causes remain, the local roles derive from them and from the new owner, and the result tells whether no assignment of a kept cause was there |
| `LocalRoles.DerivedMeans` | opengever/base/role_assignments.py:381-400 | a principal has a role exactly when an assignment gives it, or it is Owner and he was an owner |
| `LocalRoles.DerivingIsIdempotent` | opengever/base/role_assignments.py:381-400 | without stored Owner roles deriving again changes nothing |
| `LocalRoles.OwnersAfterCopying` | opengever/base/role_assignments.py:365-379 | after copying a principal has a role exactly when an assignment of a kept cause gives it, or it is Owner and he is the new owner |
| `LocalRoles.KeepsOtherRolesExactly` | opengever/base/role_assignments.py:352-357 | a principal keeps his other roles exactly when he was no owner or had no other roles; afterwards only the new owner has Owner |
| `LocalRoles.NewOwnerAsIntendedExactly` | opengever/base/role_assignments.py:349-360 | setting a new owner takes just Owner from the former owners exactly when none of them has another role |
| `LocalRoles.DerivingHidesLoss` | opengever/base/role_assignments.py:365-379 | deriving the roles afterwards gives what it would give had the roles been kept |
| `LocalRoles.FormerOwnerLosesOtherRoles` | opengever/base/role_assignments.py:352-357 | the smallest case: a former owner and editor ends up without any role |
| `Decimals.ValueOfDecimal` | opengever/base/adapters.py:100-103 | printing a natural and reading its digits gives it back |
| `Decimals.ValueOfPlaces` | opengever/base/adapters.py:100-103 | digits have their place value |
| `Decimals.StripsBlanks` | opengever/base/reference_formatter.py:107-108 | stripping drops exactly the blanks at both ends |
| `Decimals.ParsesNumber` | opengever/base/adapters.py:100-105 | `int` reads digits with or without a sign between blanks |
| `Decimals.ParsedIsNumber` | opengever/base/adapters.py:100-105 | and nothing else |
| `Decimals.ParseDecimalInt` | opengever/base/adapters.py:100-103 | printed integers, negative ones too, are read back |
| `Decimals.ParseDecimal` | opengever/base/adapters.py:100-105 | `int` of a printed natural is that natural |
| `NaturalOrder.NaturalOrderTotal` | opengever/base/behaviors/utils.py:9-13 | comparing chunk lists is a total preorder on texts |
| `NaturalOrder.ChunksAround` | opengever/base/behaviors/utils.py:9-13 | a maximal run of digits is a number chunk of its own |
| `NextNumber.FindLastRun` | opengever/base/adapters.py:107-112 | finds the last run of digits |
| `NextNumber.ComputeSuccessor` | opengever/base/adapters.py:100-124 | computes the successor of the greatest prefix |
| `NextNumber.SuccessorOfRun` | opengever/base/adapters.py:107-122 | of a text the last run of digits counts on by one and all around it stays |
| `NextNumber.SuccessorOfWhole` | opengever/base/adapters.py:100-103 | a whole number counts on by one |
| `NextNumber.SuccessorExceedsExactly` | opengever/base/adapters.py:100-124 | the successor is greater in the natural order exactly when the prefix is `Continuable` |
| `NextNumber.GreatestIsMaximal` | opengever/base/adapters.py:95-98 | the last sorted prefix is in use and no smaller than any other |
| `NextNumber.SuccessorIsFreshExactly` | opengever/base/adapters.py:95-124 | the next number exceeds every number in use exactly when the greatest one is `Continuable`, and then it is not in use |
| `NextNumber.SignedPrefixCollides` | opengever/base/adapters.py:95-103 | with "-2" and "-3" in use, "-3" counts as the greatest and the next number is in use |
| `ReferencePrefixes.ReferenceNumberPrefixAdapter.GetNextNumber` | opengever/base/adapters.py:78-124 | the first number, the recycled one, or the successor of the greatest |
| `ReferencePrefixes.ReadsLastNumber` | opengever/base/adapters.py:126-158 | the number read for an object is the last one given to it, whatever was deleted, freed or given to others since |
| `ReferencePrefixes.ReferenceNumberPrefixAdapter.SetNumber` | opengever/base/adapters.py:143-158 | stores the given or default number in both mappings of the object's type and changes no other |
| `ReferencePrefixes.ReferenceNumberPrefixAdapter.FreeNumber` | opengever/base/adapters.py:222-230 | refuses a used prefix without a change and otherwise drops it from the child mapping only |
| `ReferencePrefixes.ReferenceNumberPrefixAdapter.GetNumberMapping` | opengever/base/adapters.py:193-220 | lists one row per number, sorted numerically |
| `ReferencePrefixes.AssignKeepsConsistentExactly` | opengever/base/adapters.py:156-158 | giving a number keeps the mappings consistent exactly when no other live object has it |
| `ReferencePrefixes.DefaultNumberIsValid` | opengever/base/adapters.py:78-124 | the default number is valid for its object exactly when it is the first, recycled, continues the greatest, or is the stopgap behind one that cannot be continued and free |
| `ReferencePrefixes.StepKeepsInv` | opengever/base/adapters.py:143-230 | each legal step keeps both mappings consistent for live objects |
| `ReferencePrefixes.RunKeepsPrefixesUnique` | opengever/base/adapters.py:143-230 | over every run of creating, deleting, freeing and giving valid numbers, default or chosen, live objects have different prefixes |
| `ReferencePrefixes.MovingBackRecycles` | opengever/base/adapters.py:90-93 | an object that comes back gets its old number and nothing changes |
| `ReferencePrefixes.ZeroIsNotRecycled` | opengever/base/adapters.py:85-93 | an intid of 0 counts as none: its number is not recycled |
| `ReferencePrefixes.LiveNumberStays` | opengever/base/adapters.py:177-191 | the number of a live object cannot be freed, and freeing another leaves it alone |
| `ReferencePrefixes.DeletedNumberCanBeFreed` | opengever/base/adapters.py:222-230 | the number of a deleted object can be freed and is then valid for anyone |
| `ReferencePrefixes.FreesExactly` | opengever/base/adapters.py:177-191 | freeing takes a number out exactly unless the object last given it is live and some object has it |
| `ReferencePrefixes.ListingShowsLiveObjects` | opengever/base/adapters.py:193-220 | the sorted listing has exactly one row per number, active exactly when it is the current number of a live object |
| `ReferencePrefixes.ListingIsNumeric` | opengever/base/adapters.py:214-220 | rows of digits come first, by their value |
| `ReferencePrefixes.LiveNumbersAreListed` | opengever/base/adapters.py:193-220 | each live object's number is listed and belongs to no other live object |
| `ReferencePrefixes.TextPrefixesCollide` | opengever/base/adapters.py:107-124 | without digits the first default is valid and the second object gets the same number |
| `ReferenceFormatter.Formatter.CompleteNumber` | opengever/base/reference_formatter.py:24-59 | builds the printed number step by step, for all four formatters |
| `ReferenceFormatter.LocationComesFirst` | opengever/base/reference_formatter.py:30-34 | location prefixes stand in front of everything, run together |
| `ReferenceFormatter.DottedSorter` | opengever/base/reference_formatter.py:89-118 | converts every part between separators |
| `ReferenceFormatter.SplitsAtExactly` | opengever/base/reference_formatter.py:100-107 | the parser splits at slashes, dots, commas and blanks and at nothing else |
| `ReferenceFormatter.SplitOfPrinted` | opengever/base/reference_formatter.py:24-118 | splitting a printed number gives back its parts with two empty ones before dossiers and documents |
| `ReferenceFormatter.SorterOfPrinted` | opengever/base/reference_formatter.py:89-118 | the sort key of a printed number is the site, repository integers, dossier integers and document integer |
| `NumberIdentity.PrintedEqualExactly` | opengever/base/reference_formatter.py:24-87 | behind the same base two numbers print alike, with any of the four formatters, exactly when their repository numbers and the pieces between dots behind them are equal |
| `NumberIdentity.NumbersEqualExactly` | opengever/base/reference_formatter.py:24-87 | the same down to the pieces of the repository parts, whatever dots there are in any part |
| `NumberIdentity.MarkerInPartCollides` | opengever/base/reference_formatter.py:45-50 | a part with " / " inside, or a hyphen when grouped, prints like a part and a dossier |
| `NumberIdentity.ItemsDetermine` | opengever/base/reference_formatter.py:45-57 | where documents only occur in dossiers the pieces of either are told apart |
| `NumberIdentity.DottedEqualExactly` | opengever/base/reference_formatter.py:24-118 | dotted numbers with any bases are equal exactly when base, repository parts and the parts behind them are |
| `SeparatedTexts.JoinEqualExactly` | opengever/base/reference_formatter.py:68-87 | two joined texts are equal exactly when the parts have the same pieces between dots |
| `SeparatedTexts.JoinInjective` | opengever/base/reference_formatter.py:68-87 | non-empty parts without dots can be read off the joined text |
| `RepositoryNumbers.RepositoryNumberExactly` | opengever/base/reference_formatter.py:68-74 | a repository number, dotted or grouped (162-172), determines the pieces between its dots and nothing more |
| `RepositoryNumbers.DottedRepositoryExactly` | opengever/base/reference_formatter.py:68-74 | with any prefixes dotted numbers are equal exactly when the prefixes have the same pieces; without dots in them, exactly when they are the same |
| `ReferenceFormatter.DocumentWithoutDossierCollides` | opengever/base/reference_formatter.py:45-57 | a document outside any dossier prints like a dossier |
| `ReferenceFormatter.DotInPartCollides` | opengever/base/reference_formatter.py:68-74 | a last part with a dot prints like two parts |
| `GroupedFormatter.SorterOfPrinted` | opengever/base/reference_formatter.py:174-217 | parsing a printed number gives the grouped repository text, the dossier integers and the document integer, with the client id and (lines 302-339) without it |
| `GroupedFormatter.SorterNeedsRepository` | opengever/base/reference_formatter.py:183-186 | without a repository part the parser raises |
| `GroupedFormatter.RepositorySortsAsText` | opengever/base/reference_formatter.py:194-197 | a number without a hyphen sorts as text |
| `GroupedFormatter.TextBehindHyphenRaises` | opengever/base/reference_formatter.py:209-217 | a dossier or document part that is no number raises |
| `GroupedFormatter.DossierDocumentSubdossier` | opengever/base/reference_formatter.py:199-217 | a dossier sorts before its documents and those before its subdossiers and their contents |
| `GroupedFormatter.SiblingsSortNumerically` | opengever/base/reference_formatter.py:199-217 | sibling dossiers sort numerically, whatever lies below them |
| `GroupedFormatter.RepositoryDecidesFirst` | opengever/base/reference_formatter.py:199-217 | the repository text decides first, and documents of one dossier sort numerically |
| `GroupedFormatter.GroupingKeepsText` | opengever/base/reference_formatter.py:162-172 | grouping only inserts dots |
| `GroupedFormatter.GroupingCollides` | opengever/base/reference_formatter.py:162-172 | different prefixes can print alike |
| `RepositoryNumbers.GroupedRepositoryExactly` | opengever/base/reference_formatter.py:162-172 | grouped numbers are equal exactly when the groups have the same pieces; without dots in prefixes, exactly when they have the same groups |
| `RepositoryNumbers.GroupsAreOfThree` | opengever/base/reference_formatter.py:162-172 | the k-th group is the text of parts 3k to 3k+2, and there are as many groups as three goes into the number of parts, rounded up |
| `RepositoryNumbers.GroupedNumberIs` | opengever/base/reference_formatter.py:162-172 | a grouped repository number is any texts that are these groups, joined by dots |
| `RepositoryNumbers.SameWidthsDetermine` | opengever/base/reference_formatter.py:162-172 | where parts of one level are equally long, grouping is injective |
| `ReferenceTree.NumbersDict.AppendLocalNumber` | opengever/base/reference.py:41-45 | puts the local number in front of its type's list and leaves the others |
| `ReferenceTree.GetParentNumbers` | opengever/base/reference.py:47-60 | climbing to the site collects, for each type, the local numbers from the root down |
| `ReferenceTree.GetNumber` | opengever/base/reference.py:26-29 | the number is the one printed from the path |
| `ReferenceTree.SiblingPrefixesDiffer` | opengever/base/adapters.py:143-175 | live siblings of one type have different prefixes |
| `ReferenceTree.PathDetermines` | opengever/base/reference.py:47-60 | folders and dossiers under one root are determined by their repository and dossier parts |
| `ReferenceTree.DocumentNumbersDiffer` | opengever/document/reference.py:13-16 | documents with the same local number are the same document |
| `ReferenceTree.CompleteNumbersEqualExactly` | opengever/base/reference.py:26-60 | with any of the four formatters, and dots in prefixes or not, live objects under one root print alike exactly when the same pieces are printed of both |
| `ReferenceTree.SameRepositorySameObject` | opengever/base/reference.py:26-60 | objects with the same repository parts that print alike are the same object, where no prefix has a dot |
| `ReferenceTree.CompleteNumbersUnique` | opengever/base/reference.py:26-60 | live folders, dossiers and documents under one root without dots in prefixes never share a complete dotted number |
| `ReferenceTree.GroupedNumbersUnique` | opengever/base/reference.py:26-60 | grouped by three they share a number only with equal groups, and never when their prefixes are equally long on each level |
| `Responses.ResponseContainer.Add` | opengever/base/response.py:71-81 | stores under the first free id from the creation time on and overwrites nothing; anything but a response is refused |
| `Responses.ResponseContainer.GenerateResponseId` | opengever/base/response.py:83-87 | the bump loop ends at the first free id |
| `Responses.ResponseContainer.List` | opengever/base/response.py:96-101 | lists the responses by ascending id |
| `Responses.ResponseContainer.Delete` | opengever/base/response.py:110-111 | takes one response out of the listing and leaves the others in order; a missing one raises and changes nothing |
| `Responses.DeletionKeepsListing` | opengever/base/response.py:96-111 | the ascending listing without a key is the listing with that key taken out |
| `Responses.FirstFree` | opengever/base/response.py:83-87 | the first id from a given one on that is not taken |
| `Responses.AscendingCorrect` | opengever/base/response.py:96-101 | the listing order is strictly ascending and complete |
| `Responses.NextIdIsGreatest` | opengever/base/response.py:83-87 | with no gaps below assigned ids the next id exceeds all |
| `Responses.IdsIncrease` | opengever/base/response.py:71-87 | with a clock that never runs backwards and no deletions there are no gaps below assigned ids, and ids grow |
| `Responses.ListingIsInsertionOrder` | opengever/base/response.py:71-101 | then the listing is the order of addition |
| `Responses.ListedLastExactly` | opengever/base/response.py:83-101 | in any container a new response is listed last exactly when the ids from its time to the greatest are taken |
| `Responses.KeysAreLeft` | opengever/base/response.py:71-111 | the ids in the container are those of the additions left |
| `Responses.ListingIsAdditionOrderExactly` | opengever/base/response.py:71-111 | after any run of additions and deletions the listing is the order of addition exactly when no response left found, at its addition, a free id from its time up to an earlier one that is left |
| `Responses.DeletionBreaksOrder` | opengever/base/response.py:83-111 | after a deletion a new response can sort before older ones |
| `Favorites.FavoriteManager.GetNextPosition` | opengever/base/favorite.py:45-50 | one behind the user's greatest position, or 0 |
| `Favorites.FavoriteManager.Add` | opengever/base/favorite.py:30-43 | adds behind the user's last favorite; a second favorite of the same object is refused |
| `Favorites.FavoriteManager.Delete` | opengever/base/favorite.py:13-28 | closes the gap by numbering those behind consecutively; another user's favorite is not found |
| `Favorites.FavoriteManager.Update` | opengever/base/favorite.py:52-65 | renames and moves only the user's own favorite |
| `Favorites.FavoriteManager.UpdatePosition` | opengever/base/favorite.py:67-88 | shifts those in between by one and takes the target position |
| `Favorites.FavoriteManager.Shift` | opengever/base/favorite.py:75-86 | shifts exactly the user's rows in the range |
| `Favorites.AddKeeps` | opengever/base/favorite.py:30-50 | adding keeps positions distinct and the order of the others |
| `Favorites.MoveKeeps` | opengever/base/favorite.py:67-88 | moving to any target keeps positions distinct and the order of the others |
| `Favorites.DeleteKeeps` | opengever/base/favorite.py:13-28 | deleting keeps positions distinct and the order of the others |
| `Favorites.RemovalKeeps` | opengever/base/handlers.py:91-105 | row removal keeps positions distinct and the order of the others |
| `Favorites.RunKeepsDistinct` | opengever/base/favorite.py:13-88 | in every run, with gaps and any targets, no two favorites of a user share a position or an object |
| `Favorites.AddAppends` | opengever/base/favorite.py:30-50 | from positions 0 to n-1 adding is list append |
| `Favorites.MoveReorders` | opengever/base/favorite.py:67-88 | from positions 0 to n-1 a move within range is remove and insert |
| `Favorites.DeleteRemoves` | opengever/base/favorite.py:13-28 | from positions 0 to n-1 deleting is list removal |
| `Favorites.RemovalKeepsListExactly` | opengever/base/handlers.py:102-105 | row removal leaves positions 0 to n-1 exactly when the object was not the user's or was his last |
| `Favorites.RemovalLeavesGap` | opengever/base/handlers.py:102-105 | of two favorites the second is left without a predecessor |
| `SchemaMigration.IdempotentOperations.Perform` | opengever/core/upgrade.py:69-76 | one guarded instruction, followed by a metadata refresh |
| `SchemaMigration.IdempotentOperations.RefreshMetadata` | opengever/core/upgrade.py:127-129 | the metadata are those of the database |
| `SchemaMigration.IdempotentOperations.Migrate` | opengever/core/upgrade.py:79-92 | a migration stops at the first instruction that raises |
| `SchemaMigration.GuardedEffect` | opengever/core/upgrade.py:98-230 | whether a guarded instruction raises depends on the tables only; it creates its part if absent, drops it, or drops all parts of its table, and touches no other part |
| `SchemaMigration.TablesAreGuarded` | opengever/core/upgrade.py:156-165 | a table that is there is not created again, a new one has its columns and nothing else, and dropping one that is gone is skipped |
| `SchemaMigration.PartsAreGuarded` | opengever/core/upgrade.py:131-190 | on a present table a part is created with its definition unless one of its name is there, and is gone after dropping |
| `SchemaMigration.FrontIsAbsorbed` | opengever/core/upgrade.py:79-92 | for each part, running a front of the migration first does not change the result of the whole |
| `SchemaMigration.CrashIsAbsorbed` | opengever/core/upgrade.py:87-90 | after one crash the second run gets as far as a single one exactly when nothing it runs needs a table dropped by then, and then the schema is the same |
| `SchemaMigration.CompletedWithout` | opengever/core/upgrade.py:98-154 | with some tables gone a migration gets as far as before exactly when nothing it ran needs them |
| `SchemaMigration.CrashRecovery` | opengever/core/upgrade.py:87-90 | any number of recoverable crashes followed by a full run give the schema, and the success, of one full run |
| `SchemaMigration.CrashRecoveryOnPresentTables` | opengever/core/upgrade.py:87-90 | without instructions on whole tables this holds for crashes anywhere |
| `SchemaMigration.CrashRecoveryExactly` | opengever/core/upgrade.py:87-90 | a migration that succeeds once succeeds after crashes exactly when no crash came after dropping a table that an instruction needs, and then with the same schema |
| `SchemaMigration.DroppedTableRecoversExactly` | opengever/core/upgrade.py:222-230 | a migration that ends by dropping a table can be run again exactly when its other instructions on it only drop columns |
| `SchemaMigration.DroppedTableBreaksRecovery` | opengever/core/upgrade.py:222-230 | adding a column and then dropping the table cannot be run again |
| `SchemaMigration.UnguardedCannotBeRepeated` | opengever/core/upgrade.py:143-154 | without the guard the second run raises |
| `SchemaMigration.RawRefusesExactly` | opengever/core/upgrade.py:87-90 | the database itself refuses exactly to create what is there and to drop what is not |
| `AdvancedJson.RoundTrip` | opengever/base/advancedjson.py:24-125 | decoding an encoded value gives it back with aware datetimes in UTC |
| `AdvancedJson.UtcKeepsInstants` | opengever/base/advancedjson.py:41-45 | moving to UTC writes each aware datetime as the same instant without offset and changes nothing else |
| `AdvancedJson.RoundTripKeepsInstants` | opengever/base/advancedjson.py:24-125 | what comes back is, part by part, what was encoded, with aware datetimes at the same instants |
| `AdvancedJson.TaggedForm` | opengever/base/advancedjson.py:66-76 | the keys of tagged objects |
| `AdvancedJson.EncodedForms` | opengever/base/advancedjson.py:103-123 | the type and value of each tagged object |
| `AdvancedJson.UnknownTagRaises` | opengever/base/advancedjson.py:39-53 | a tagged object without a value, or of a type that is none of the four, raises |
| `AdvancedJson.PairsAreEntered` | opengever/base/advancedjson.py:50-51 | lists of two and texts of two characters are entered one after the other |
| `AdvancedJson.TwoAtomsAreAPair` | opengever/base/advancedjson.py:50-51 | a set or a mapping counts as a pair exactly when it has two elements, in its iteration order |
| `AdvancedJson.OddSources` | opengever/base/advancedjson.py:48-51 | a text is the set of its characters, and only nothing and the empty text of all single values make a mapping |
| `AdvancedJson.DecodedIsClean` | opengever/base/advancedjson.py:24-53 | no decoded value contains a byte string or a dictionary with the reserved key |
| `AdvancedJson.DecodedMappingCanBeReserved` | opengever/base/advancedjson.py:50-51 | a persistent mapping decoded from a list of pairs can have the reserved key |
| `AdvancedJson.MappingShallow` | opengever/base/advancedjson.py:50-51 | the values of a mapping are less deep than what it was made of, be it a mapping, a list or a set |
| `AdvancedJson.DecodeShallow` | opengever/base/advancedjson.py:24-125 | decoding an encoding never gets deeper |
| `AdvancedJson.ReservedNeverSurvives` | opengever/base/advancedjson.py:24-125 | a persistent mapping with the reserved key never comes back from its encoding, because it would have to contain itself |
| `AdvancedJson.SurvivorsAreUnreserved` | opengever/base/advancedjson.py:24-125 | what survives the round trip has no reserved key anywhere |
| `AdvancedJson.UtcKeepsShape` | opengever/base/advancedjson.py:41-45 | moving datetimes to UTC adds and removes no reserved key or byte string |
| `AdvancedJson.RoundTripExactly` | opengever/base/advancedjson.py:24-125 | a value survives exactly when no mapping uses the reserved key and no byte string occurs; of what `encode` accepts, exactly when no mapping uses the key |
| `Digest.DigestMailer.GetNotifications` | opengever/activity/digest.py:42-52 | groups the unsent digest notifications by user |
| `Digest.GroupByUser` | opengever/activity/digest.py:46-50 | the loop gives each occurring user exactly his notifications, in order |
| `Digest.GroupByResource` | opengever/activity/digest.py:54-63 | the loop gives each occurring resource exactly its notifications, in order |
| `Digest.GroupsByField` | opengever/activity/digest.py:42-63 | a group holds notifications of its own user or its own resource only, and each notification is in one |
| `Digest.GroupingPartitions` | opengever/activity/digest.py:42-63 | each notification is in the group of its key as often as in the input, and in no other |
| `Digest.DigestMailer.MarkAsSent` | opengever/activity/digest.py:121-123 | marks exactly the given notifications |
| `Digest.DigestMailer.RecordDigest` | opengever/activity/digest.py:125-131 | records the dispatch of one user |
| `Digest.DigestMailer.SendDigests` | opengever/activity/digest.py:86-119 | the run with groups computed once is the sequence of the users' turns, each with what he has pending at that time |
| `Digest.JobServes` | opengever/activity/digest.py:86-119 | a user whose interval has expired has nothing left and a new recorded dispatch; any other keeps all he had pending and his recorded dispatch |
| `Digest.JobSends` | opengever/activity/digest.py:86-119 | the mails are, in order, those of the users with an expired interval, each with all they had pending at the start |
| `Digest.MailsAre` | opengever/activity/digest.py:88-114 | one mail for each user whose interval has expired |
| `Digest.ExpiredExactly` | opengever/activity/digest.py:133-148 | the interval of a user has expired exactly when all mails he got are at least 23 hours old |
| `Digest.JobSendsToExactly` | opengever/activity/digest.py:86-148 | the job sends a user with something pending a mail exactly when every mail he got before is at least 23 hours old at his turn |
| `Digest.RunSendsWhenExpired` | opengever/activity/digest.py:86-148 | so it is at every job of every run |
| `Digest.StepKeepsInv` | opengever/activity/digest.py:86-131 | a new notification and a run of the job keep: flags tell exactly what was sent, no notification in two mails, mails to their owner and of digest notifications only, 23 hours apart, and the recorded dispatch is the time of the latest mail |
| `Digest.RunIsSafe` | opengever/activity/digest.py:86-148 | the invariant holds over every run, as long as the clock does not run backwards between the check of a user and the record of his mail |
| `Digest.RunSpacing` | opengever/activity/digest.py:133-148 | two mails to one user are at least 23 hours apart |
| `Digest.RunLosesNothing` | opengever/activity/model/query.py:36-38 | a notification is waiting for its user exactly when it is meant for digests and no mail has held it, and mails hold no others |
| `Digest.DeliversRecordedExactly` | opengever/activity/mailer.py:13-58 | over every series of commits, aborts and restarts of one thread, the mails that go out are the recorded ones exactly when no commit finds left-over mails |
| `Digest.QueueIs` | opengever/activity/mailer.py:13-40 | the queue is empty exactly when a commit or a restart followed every abort that left mails |
| `Digest.DeliversRecordedIffRestarted` | opengever/activity/mailer.py:13-58 | they are exactly when the process is started again between every abort that left mails and the next commit |
| `Digest.RetryInThreadSendsTwice` | opengever/activity/mailer.py:34-58 | an aborted run repeated in the same thread sends its mail twice |
| `Delivery.DeliveryScheduler.GetStatuses` | opengever/disposition/delivery.py:117-123 | reads the statuses and creates the annotation only when asked to |
| `Delivery.DeliveryScheduler.Mark` | opengever/disposition/delivery.py:134-149 | sets one status |
| `Delivery.DeliveryScheduler.ScheduleDeliveryWith` | opengever/disposition/delivery.py:65-74 | marks a transport without a status, or any when forced |
| `Delivery.DeliveryScheduler.ScheduleDelivery` | opengever/disposition/delivery.py:47-63 | schedules with all enabled transports in turn |
| `Delivery.SchedulingMarksExactly` | opengever/disposition/delivery.py:47-74 | scheduling marks exactly the enabled transports without a status, or all enabled ones when forced |
| `Delivery.SchedulesExactly` | opengever/disposition/delivery.py:47-74 | force schedules every enabled transport again, and without it only those without a status are scheduled |
| `Delivery.DeliveryScheduler.IsScheduledForDelivery` | opengever/disposition/delivery.py:76-80 | true exactly when some transport is scheduled |
| `Delivery.DeliveryScheduler.IsScheduledForDeliveryWith` | opengever/disposition/delivery.py:82-87 | true exactly when this transport is scheduled |
| `Delivery.DeliveryScheduler.Deliver` | opengever/disposition/delivery.py:89-115 | new statuses, transports called and whether a conflict was raised, for every outcome of every transport |
| `Delivery.AbortsExactly` | opengever/disposition/delivery.py:107-108 | a delivery is aborted exactly when a transport that is due has a conflict |
| `Delivery.DeliveryCallsDue` | opengever/disposition/delivery.py:92-103 | otherwise every due transport is called once, in order |
| `Delivery.DeliveryRecordsOutcome` | opengever/disposition/delivery.py:102-112 | and ends as a success or a failure as its outcome calls for |
| `Delivery.OthersKeepStatus` | opengever/disposition/delivery.py:92-99 | transports that are not due keep their status |
| `Delivery.NoneLeftDue` | opengever/disposition/delivery.py:89-115 | no enabled transport is left scheduled |
| `Delivery.LeftScheduledExactly` | opengever/disposition/delivery.py:89-115 | what stays scheduled are exactly the disabled or unregistered transports that were |
| `Delivery.StepBalances` | opengever/disposition/delivery.py:47-115 | each transaction keeps calls plus open schedules within the marks; without force there is at most one mark, and one call exactly once the outcome is recorded |
| `Delivery.RunBalances` | opengever/disposition/delivery.py:47-115 | the balance holds over every run, with conflicts or without |
| `Delivery.NothingWasted` | opengever/disposition/delivery.py:107-108 | calls made by aborted deliveries exist exactly in runs where a due transport meets a conflict, or a delivery that called one meets it at its commit (nightlyjobs/runner.py:117) |
| `Delivery.CallsNeedMarks` | opengever/disposition/delivery.py:47-115 | without conflicts, in transports and at commits, no transport is called more often than it was marked, and without force never twice |
| `Delivery.CallsWithoutForce` | opengever/disposition/delivery.py:47-115 | without force the calls are those of aborted deliveries plus one exactly when an outcome is recorded |
| `Delivery.ConflictRepeatsCall` | opengever/disposition/delivery.py:107-108 | a conflict, in the transport or at the commit, makes a second call for one mark |
| `Delivery.NightlySIPDelivery.GetDispositionsForDelivery` | opengever/disposition/nightly_jobs.py:25-36 | yields exactly the disposed dispositions that are scheduled, in catalog order |
| `Delivery.NightlySIPDelivery.RunJob` | opengever/disposition/nightly_jobs.py:44-47 | delivers one disposition and leaves the others |
| `Delivery.JobIsFinishedExactly` | opengever/disposition/nightly_jobs.py:25-47 | a job without conflict leaves its disposition for the next night exactly when a scheduled transport is disabled or unregistered |
| `Delivery.NotRunStays` | opengever/nightlyjobs/runner.py:106-117 | a disposition whose job was not run is yielded as before |
| `Delivery.RunJobReturnsExactly` | opengever/nightlyjobs/runner.py:106-117 | of the jobs run in a night exactly those with a scheduled transport nobody serves come back |

## Left out

Machinery and surroundings:

- ZODB, SQL, the catalog, Solr and acquisition are maps and sequences. A UID query is taken to return
  only documents asked for (Products.ZCatalog is not part of this model), and a commit on the
  sequence counters goes through exactly when they were not written since the snapshot.
- REST services, forms, views, mail rendering, notifications of events, logging and Sentry.
- `int` and `\d` on non-ASCII digits and blanks, text encoding, and the float in
  `float(created.strftime(...)) * 1e6`: creation times are integers.
- Rows returned by the database in an order of its own are parameters (favorites behind a position,
  the order of a dictionary of numbers or of users).

Per component:

- Sequence numbers: incrementing inside the main transaction (DemoStorage, setup, bundle import,
  sequence.py:90-106), objects that get a number by copying annotations, and two main transactions that
  write the number of the same object at once (the database lets only one of them commit).
- Role assignments: cause titles, serialization and reindexing; the runs do not include writing the
  records other than through the storage. Role lists are given non-empty, as OFS demands when local
  roles are set.
- Reference prefixes: `purge_mappings`, and the check of a user's number in the form, which is the
  legality of a run. Freeing deals with repository folders only, as in the source.
- Prefixes: a default that is not a valid number is no step of a run, because it can collide (see
  `TextPrefixesCollide`); an intid is never given out twice.
- Formatters: `list_to_string`, and comparing the bare text of a repository folder with the tuples of
  dossiers. Parsing a grouped number needs a repository part without hyphens and no location prefix.
- Tree: prefixes do not contain the character in front of dossiers and documents (a slash, or a hyphen
  when grouped), and documents lie in dossiers, because numbers can collide otherwise (see
  `MarkerInPartCollides` and `DocumentWithoutDossierCollides`). Template folders, private folders and
  location prefixes have adapters of their own that are not modelled.
- Responses: `AutoResponseChangesTracker`, which fills a response's changes, and the other parts of a response.
- Favorites: API validation of positions and titles, the lists of favorites shown.
- Migrations: renames, foreign keys and other operations that are not guarded, MySQL's coupling of
  columns and indexes, the upgrade recorder and how the operations object is built. Creating tables is
  modelled but outside the recovery theorems; dropping them is inside.
- JSON: the text syntax, tuples, encoding mappings with keys that are not unicode, `dump`, which skips
  the unicode check of `encode`, and Python's equality of `True` and 1. `PersistentMapping(value)` is
  taken to accept what Python's `dict` accepts, and nothing at all (persistent is not part of this
  model).
- Digest: the dispatch of notifications by role. Runs of the job are committed transactions; the mail
  queue that survives an abort (mailer.py:13-58) is modelled beside them, without the errors that the
  mail host can raise.
- Delivery: building the package, what a transport does, and how adapters are looked up and sorted;
  transports come as a sequence with distinct names, each with the outcome it has when called.
