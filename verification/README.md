# Volans, verified

A Dafny model of the core of volans, the zone storage of a DNS signer: several views of one
zone that share a list of change logs, the indices that pick the record to keep for each
name, the binary format records are stored in, and the algorithms the program carries with
it (base64, durations, string search, hash table, merge sort).  `dafny verify dfyconfig.toml`
checks all of it.

## How it is organised

| module | models |
|---|---|
| `Common`, `Records`, `Bits` | option type, the record of a name, bit operations |
| `ChangeChain` | the commit log as a history: logs published, logs each view has finished with |
| `CommitLog` | `commitlog.c` on the heap: `first`/`last`/`next` pointers and one cursor per view |
| `Views` | `views.c`: every view at its own point of `updateview` or `names_viewpersist`, as a state machine |
| `ViewSafety` | what holds of every run of that machine, and `updateview` as a loop while other views run |
| `FirstIndex` | the first index of every view, which is what `names_viewpersist` saves, beside that machine: placed and copied records, records changed in place, and what the store holds |
| `LiveZone` | the commit log and the views together on the heap, each operation proved to be a step of `Views` |
| `LiveContents` | what the change logs on the heap hold: edits, the comparison of a log with a view's own, and the publisher's pass, as loops over them |
| `Decimal`, `RecordIndex` | revisions as printed and compared; `index.c` and the accept functions of `dictionary.c` |
| `Marshalling` | `marshalling.c` and the record traversal of `dictionary.c`, on a byte stream |
| `Base64` | `b64_pton.c` against RFC 4648, sections 3.5 and 4 |
| `StringSearch` | Knuth-Morris-Pratt search of `utstring.h`, both directions |
| `StableSort`, `LinkedListSort` | what a stable sort is; the sort macros of `utlist.h` and `uthash.h` on linked nodes |
| `HashTable` | `uthash.h` on the heap: bucket array, chains, application order, doubling |
| `Duration` | `duration.c`: printing into a sized buffer, the parser, times |

Code that changes things in place is a class or a method over arrays and linked nodes, proved
against a specification function; the promises are proved about that function.

The concurrent part has three layers.  `CommitLog.PopPush` proves that the pointer manipulation
of one call, made under the mutex, is exactly `ChangeChain.PopPush` on the history, and that
the list is the history from the slowest view onward with everything earlier freed.  `Views`
then interleaves such calls: a run is any sequence of steps of any number of views, a step
being the code between two calls.  `ViewSafety.ReachedInv` gives the invariant of every state
a run can reach, and the lemmas after it are its consequences.  `LiveZone` joins the two: it keeps
the pointers of all views on the heap, and each of its methods turns the abstract state into the
state the step gives; so every call meets the demands of `commitlog.c`, and no freed log is read.
`LiveContents` does the same for the entries of the change logs: the code decides by looking at
them, and what it decides is the step.

`FirstIndex` adds memory to a run of `Views`, without changing it.  Records are shared by pointer, so
a record has an identity there, and an edit either puts a new record into the index of its view or
changes one where it is, for all views.  An index has drafts, the records an edit put there that no
applied log has settled since; and a record has tags, the change logs under which it was changed.
A log is applied with the deletion markers its records have at that time.

A change is filed in its log under the identifier its record had when it was entered; the record
in it may be another one (`names_own` makes a copy with the next revision) or NULL (a removal,
until its publisher has passed over the log).  A conflict is what the code takes for one: a record
of the log handed out is one that a change of the view is filed under.

## What the code does that its documentation does not say

- Two views that both own the same record, and so make a copy each, both commit without a conflict:
  the copy has the next revision, which no change is filed under (`TwoOwnersBothCommit`).  What
  holds is that the record a change is filed under is in no log published between the entering of
  the change and its publication (`FirstCommitterWins`); `OverlapExactly` says which overlaps remain:
  exactly those with a copy made by `names_own`, so none between views that only amend and remove.
- The claim that a committed change was compared with every log published since its change log
  was last empty fails when `names_viewpersist` drains logs between two edits
  (`PersistBetweenEdits` is such a run); `ComparedSinceEmptyExactly` says when it holds.
- A removal is published with a NULL record, and another view that is handed the log before its
  publisher has passed over the removal follows that pointer (`RemovalInFlight`; exactly when: `NullExactly`).
- To the store, that removal is written as the NULL that ends a log, so that what follows is cut off
  (`EndsAtFirstNull`).
- `names_viewpersist` saves what the first index holds, and that is not what was published.  A copy
  made by `names_own` is in the index at once; neither a reset nor a conflict takes it out again, as
  `names_indexremove` does nothing for an index by name and revision; so the store may get a record
  that was never published and never will be (`ThrownAwaySaved`).  An amendment is made to a record
  that all views share, so it is saved though its view has not committed it (`AmendedElsewhereSaved`).
  An uncommitted removal is not saved (`RemovalNotSaved`).  A copy saved and then committed is in the
  store twice (`SavedTwice`).  The saved index is what the logs its view has make of the restored one exactly
  when it has no drafts, and no record in it was changed under another log (`StoreExactly`);
  otherwise `DraftFate` says what becomes of the changes.
- A draft that was left behind, in the index of one view, can be removed like any record.  The removal
  deletes it there, and inserts it, marked, in all other views (`PutOne`).
- A new view takes over the index of the base view, but is handed only the logs published after its
  creation.  Those the base view had not applied by then never reach it (`MissedByNewView`), so it
  misses nothing exactly when the base view was caught up (`InheritsExactly`).
- Revisions are compared as printed decimals, so revision 10 does not replace revision 9 in
  `nameupcoming` (`TenAfterNine`).  `UpcomingNumeric` and `UpcomingAmended` say exactly when
  the newest revision is the one kept.
- A printed duration with weeks and other fields is not always refused by the parser: weeks
  beside days are read as the days, weeks beside a time are dropped, and only weeks beside years
  or months alone are refused (`MixedWeeks`).  `RoundTrip` has the exact condition.
- `duration_compare` returns a difference cut to an int, and not -1, 0 or 1 as `duration.h` says;
  its sign is right exactly when the cut keeps the sign of the difference of years (`CompareTimes`).
- An index without records is persisted as nothing at all, so that it does not read back as an empty
  list (`RestoreAfterPersist`).
- A marked record deletes the entry it meets in an index, but where there is none it is stored like any
  other; so a record that is removed twice is back (`RemovedTwice`).
- The case 2 of `names_indexinsert`, the branch of `names_commitlogpoppush` for a submitted log that
  comes next in the list, and the freeing in `names_commitlogrelease` are never taken.

## Model

| member | source | states |
|---|---|---|
| ChangeChain.ReclaimedBySteps | commitlog.c:87-99 | a step frees at most one log, and does so exactly when the view that gives it back is the last one at it |
| CommitLog.CommitLog.ValidHistory | commitlog.c:87-99 | the list holds exactly the logs some view has not finished with, and exactly the others are freed |
| CommitLog.CommitLog.PopPush | commitlog.c:68-136 | the pointer code equals poppush on the history; the list stays well formed; a published log is written to the store once, in the same step: the new record of every change in order, and a NULL |
| CommitLog.CommitLog.Subscribe | commitlog.c:153-161 | a new view starts caught up; the other cursors and the list stay |
| CommitLog.CommitLog.Advance | commitlog.c:78-99 | the cursor steps to the next published log and the log left behind is freed when nobody is at it |
| CommitLog.CommitLog.Append | commitlog.c:105-127 | the log goes to the end, and every caught-up view has it pending |
| CommitLog.CommitLog.Reclaim | commitlog.c:87-99 | the first log is dropped and destroyed exactly when no cursor is at it |
| CommitLog.CommitLog.Release | commitlog.c:163-182 | frees nothing and changes no link in any valid state |
| CommitLog.CommitLog.PersistIncrement | commitlog.c:184-190 | a store, when there is one, gets behind what it has the new record of every change, in order, and a closing NULL |
| CommitLog.CommitLog.PersistFull | commitlog.c:201-215 | the new store gets the logs the view has not finished with, in order, each as the new records of its changes and a NULL, and replaces the old one without any log in between |
| CommitLog.CommitLog.PersistAppend | commitlog.c:192-199 | the store is the given one from now on, and neither the list nor a cursor changes |
| CommitLog.EndsAtFirstNull | views.c:321-330 | a log as stored has its first NULL at its end exactly when no change has a NULL record |
| CommitLog.Store.Persist | views.c:321-330 | what was there stays, item k behind it is the new record of the k-th change, and a NULL is last |
| Views.InitialInv | commitlog.c:138-161 | the state of a zone just opened satisfies the invariant |
| Views.EditedExactly | views.c:36-133 | after any edits of a record, the change holds a copy exactly after a single names_own, and is without record and old record exactly when it was placed and then nothing or in the end a removal followed |
| Views.StepKeeps | views.c:36-319 | every step of every view, edits included, keeps the invariant; a step is taken only where the code does not follow a NULL pointer |
| Views.RunKeeps | views.c:36-319 | so does every interleaving of steps |
| Views.CallHistory | commitlog.c:77-133 | what a poppush call of a view does to the history and hands out, given where the view is |
| ViewSafety.ExactlyOnceInOrder | views.c:275-304 | in every reachable state a view has applied exactly a prefix of the logs published since its creation, in order, none twice, and all of them once it is idle and caught up |
| ViewSafety.HistoryGrows | views.c:275-304 | nothing published, applied or thrown away is ever undone |
| ViewSafety.IgnoredLogComesBack | views.c:303-303 | a log handed out by the second poppush of a commit is the first one handed out at the next update, whatever the others do meanwhile |
| ViewSafety.RetainedWhileNeeded | commitlog.c:87-99 | a log is in the list exactly while some view has not finished with it |
| ViewSafety.NeverFreedInUse | views.c:276-303 | the log a view is working on has never been freed |
| ViewSafety.DisciplineKept | commitlog.c:77-127 | on every call updateview gives back what it was handed and submits a log that was never published, so the assertions hold and the special branch is not taken |
| ViewSafety.FirstCommitterWins | views.c:266-312 | the record a published change is filed under is in no log published between the entering of the change and its publication |
| ViewSafety.OverlapWasSeen | views.c:266-312 | where an earlier log has that record, the later view had applied it before it entered the change |
| ViewSafety.OverlapExactly | views.c:278-279 | a change and a log published in that window share a record, old or new, exactly when the log holds a copy of it made by names_own, or the change holds one and the log has the same revision |
| ViewSafety.TwoOwnersBothCommit | views.c:85-96 | a run in which two views own the same record and both commit it |
| ViewSafety.ComparedSinceEmptyExactly | views.c:266-312 | the comparison with all logs since the change log was empty fails exactly for a change entered after applying such a log that has its record; it holds when all changes were entered between two updates |
| ViewSafety.PersistBetweenEdits | views.c:364-391 | a run in which it fails: a view edits, persists, which drains a log, edits again and commits |
| ViewSafety.NullExactly | views.c:277-301 | a view finds a NULL record in the log it was handed exactly when another view, the publisher, is still on its pass and has not come to some removal of the log |
| ViewSafety.SafeToRead | views.c:277-301 | a log without removals, or whose publisher has finished its pass, is read without a fault |
| ViewSafety.RemovalInFlight | views.c:277-301 | a run into a state in which the log handed out has a NULL record |
| ViewSafety.SeenIsFinal | views.c:278-278 | unless it finds NULL, a view sees the record the change will have for good, whenever it looks |
| ViewSafety.DiscardedNeverPublished | views.c:279-284 | a change log that met a conflict or was reset is never published, in any continuation |
| ViewSafety.StoreWithoutGap | commitlog.c:201-215 | in every reachable state the logs whose effect is in the snapshot, and the logs behind it, make up the whole history of the view without gap |
| ViewSafety.Run.UpdateView | views.c:266-306 | with other views running in between: either a NULL pointer is followed, or everything published at the call is applied, and all changes are published at once exactly when no log handed out until then has a record they are filed under, and thrown away otherwise; the result tells which |
| ViewSafety.ApplyChanges | views.c:277-290 | the loop over single changes, looking up the record seen in each, decides like a comparison of the whole logs, though it may empty the view's own log halfway |
| FirstIndex.MemoryStep | views.c:36-391 | every step keeps the invariant of the indices: each is what the logs its view has make of the restored one, but for its drafts, and so is what is saved and stored |
| FirstIndex.MemoryRun | views.c:36-391 | so does every run |
| FirstIndex.AppliedShows | views.c:285-301 | a view that applies a log, or passes over its own, finds the record of every change of the log afterwards, but a removal deletes the record there is, and comes in itself where there is none; all else it finds as before; the other views find what they found |
| FirstIndex.PutOne | index.c:85-112 | a record that two indices have alike they have alike after a log, and one they have differently exactly when the log has it and does not remove it from one of them alone |
| FirstIndex.IndexFinds | views.c:285-301 | in every reachable state, of a record that is no draft, the first index of a view has what the last log the view has had with that record made of it, by the rule of AppliedShows, and without such a log the restored record or none |
| FirstIndex.StoreFinds | views.c:364-391 | and so it is with the index in the store; so a record that was there and was removed is not in it |
| FirstIndex.EditShows | views.c:85-133 | what an edit shows at once: placing a name, or owning a record for the first time, adds an unmarked record nobody has changed to the index of that view alone; a removal shows nowhere; any other edit shows in all views that have the record |
| FirstIndex.EditFiles | views.c:36-96 | the change filed has the new record of the index, or the record the edit was given; a removal has the record the change was entered with |
| FirstIndex.ResolveShows | views.c:293-299 | a removal marks its record, and the marker shows in every view that has it; any other change marks nothing |
| FirstIndex.IndexExactly | views.c:36-133 | in every reachable state the first index of a view shows the logs it has and nothing else exactly when it has no drafts and no record in it was changed under another log |
| FirstIndex.StoreExactly | views.c:364-391 | and so it is with the index in the store, whatever happened before and after it was saved |
| FirstIndex.StoreSpan | commitlog.c:201-215 | the logs that index was written with, and the logs behind it, are all its view has inherited and all published since its creation |
| FirstIndex.DraftFate | views.c:249-264 | an edit that the store shows is for ever in exactly one of three places: in a change log of a view, thrown away and never published, or in a published log |
| FirstIndex.DraftDropped | views.c:68-83 | a draft in the store, whose log its view has nevertheless applied, is not in that log, or is removed by it |
| FirstIndex.ThrownAwaySaved | views.c:249-264 | a run after which nothing is published and nothing uncommitted, and the store has a record that was thrown away |
| FirstIndex.AmendedElsewhereSaved | views.c:99-102 | a run after which the store shows an amendment that another view has not committed |
| FirstIndex.RemovalNotSaved | views.c:128-133 | a run after which a removal is uncommitted and the store is exact |
| FirstIndex.SavedTwice | views.c:364-391 | a run after which a copy is in the saved index and in the log behind it |
| FirstIndex.InheritsExactly | views.c:154-167 | what a view has inherited and what it is handed are the whole history exactly when the base view had applied everything at its creation; the logs in between are never among those it has |
| FirstIndex.MissedByNewView | views.c:154-167 | a run in which the base view had not |
| LiveZone.LiveZone.CallAllowed | commitlog.c:77-127 | in every valid state a call of updateview meets the demands of poppush: what it gives back it was handed, what it submits is not in the list, not freed and not linked |
| LiveZone.LiveZone.NotPublished | views.c:249-264 | the change log of a view is not in the list and not another view's, so that destroying it on a reset is safe |
| LiveZone.LiveZone.NotFreed | views.c:276-303 | the log a view works on is not freed |
| LiveZone.LiveZone.Poll | views.c:276-276 | the call in the loop, on the pointers, is the step of the state machine; a submitted log goes to the end of the list and, as it is, to the store |
| LiveZone.LiveZone.Close | views.c:303-303 | so is the second call of a commit |
| LiveZone.LiveZone.Apply | views.c:277-290 | so is the pass over a log, once it is known whether it conflicts: the log read is not freed, and the change log of the view is destroyed on the first conflict |
| LiveZone.LiveZone.Begin | views.c:266-275 | so is entering updateview |
| LiveZone.LiveZone.Work | views.c:36-133 | so is an edit, the pass of a view over its own log, and the writing of the index, which move no shared pointer |
| LiveZone.LiveZone.Reset | views.c:249-264 | so is resetchangelog |
| LiveZone.LiveZone.Subscribe | commitlog.c:153-161 | so is the subscription of a new view |
| LiveZone.LiveZone.Switch | views.c:391-391 | so is the switch to a new store, which gets the persisted form of exactly the logs the view has not finished with |
| LiveContents.EnterChange | views.c:36-96 | filing a change among the entries of a change log, as names_place, names_own, names_amend and names_remove do: the entry gets the record itself, or the copy, or NULL, the others stay, and together they show the edited abstract log |
| LiveContents.Compare | views.c:277-284 | the loop over a log handed out follows a NULL record exactly when the state machine says so, and else finds a conflict exactly when the state machine does |
| LiveContents.Contents.Edit | views.c:36-133 | an edit on the heap is the step; the entry is changed like that, and every change log still holds what the state machine says |
| LiveContents.Contents.Apply | views.c:277-290 | so is the pass over a log handed out, with the conflict found by comparing the entries; or a NULL is followed, exactly when the state machine says so |
| LiveContents.Contents.Resolve | views.c:293-301 | so is one turn of the publisher's pass: a NULL becomes the old record, the same in every field but with marker 1, and nothing else changes; it faults exactly when there is no old record either |
| LiveContents.Contents.Begin | views.c:266-275 | so is entering updateview |
| LiveContents.Contents.Finish | views.c:293-301 | so are the end of the publisher's pass and the writing of the index; at the end of the pass the log is what was published, entry by entry, with a marked copy of the old record for every removal |
| LiveContents.Contents.Reset | views.c:249-264 | so is resetchangelog |
| LiveContents.Contents.Call | views.c:276-303 | so are the two calls of poppush; a log that is published holds what its view entered, and the store gets that |
| LiveContents.Contents.Subscribe | views.c:149-167 | so is a new view |
| LiveContents.Contents.Switch | views.c:391-391 | so is the switch to a new store, which gets the logs behind the index as they are on the heap |
| Decimal.SameLength | dictionary.c:809-811 | numerals with equally many digits compare as the numbers do |
| Decimal.NumericOrder | dictionary.c:809-811 | strcmp of two numerals agrees with the numbers exactly when the shorter one is at most the leading digits of the longer one |
| Decimal.NumeralInjective | dictionary.c:625-629 | different revisions print differently |
| RecordIndex.Index.Insert | index.c:79-124 | the index after an insertion, stated by eligibility, revision and marker: stored, deleted by a marked record, or left alone; and what is returned |
| RecordIndex.Index.Lookup | index.c:138-144 | what is found, in terms of everything ever inserted, marked records included: the last record of the name, if it is accepted and was not marked while the name was there; or the first greatest revision since the name was dropped; and nothing right after a removal |
| RecordIndex.AcceptedNotTwo | index.c:104-106 | the answer 2 does not occur for an accepted record, so the case is dead |
| RecordIndex.DropsExactly | index.c:96-122 | a name is dropped by an insertion of it exactly when the record is accepted, marked, and exceeds the one stored where revisions count, or when it is not accepted; in namenoserial the latter needs a marker or the stored record itself |
| RecordIndex.EntersExactly | index.c:85-95 | a name that is not there comes in with every record that is accepted, marked or not, and with no other |
| RecordIndex.LastUnlessMarked | dictionary.c:883-951 | after any insertions namenewserial and validnow have a name exactly when its last record is accepted and was not marked while the name was there, and then they have that record |
| RecordIndex.KeepsBestOf | dictionary.c:795-880 | after any insertions nameready, nameupcoming and namenoserial keep the first greatest revision since the name was last dropped |
| RecordIndex.PresentExactly | dictionary.c:795-880 | they have a name exactly when an accepted record of it was inserted and the name not dropped since |
| RecordIndex.RemovedTwice | index.c:85-104 | a record removed twice is back, with its marker |
| RecordIndex.HoldsOnly | dictionary.c:819-951 | whatever was inserted, each index holds only records with the serials and the expiry it is about |
| RecordIndex.LastAccepted | dictionary.c:883-951 | namenewserial and validnow hold the last record inserted per name, if it is one of theirs |
| RecordIndex.ReadyOrValid | dictionary.c:853-951 | the names in namenewserial are the disjoint union of those in nameready and validnow |
| RecordIndex.KeepsBest | dictionary.c:853-880 | nameready and nameupcoming keep the first greatest revision since the name was last dropped |
| RecordIndex.UpcomingGreatest | dictionary.c:795-817 | nameupcoming has every inserted name, with a revision no other of the name exceeds |
| RecordIndex.UpcomingOrderFree | dictionary.c:795-817 | insertion order changes neither the names nor the revisions kept |
| RecordIndex.UpcomingNumeric | dictionary.c:809-813 | the numerically newest revision is kept exactly when every revision with fewer digits is at most its leading digits |
| RecordIndex.UpcomingAmended | dictionary.c:136-136 | with revisions 1 to k the newest is kept exactly when all digits of k but the last are nines |
| RecordIndex.TenAfterNine | dictionary.c:809-813 | revision 10 does not replace revision 9 |
| RecordIndex.NoSerialWaits | dictionary.c:819-851 | namenoserial keeps for a name what nameupcoming would of the records without a serial inserted since the name was last dropped |
| RecordIndex.NoSerialExactly | index.c:113-122 | a name waits in namenoserial exactly when a record without a serial was inserted and the stored record was not inserted again with a serial since |
| RecordIndex.NoSerialUndropped | dictionary.c:819-851 | where no stored record is inserted again, namenoserial is what nameupcoming would be, were the records with a serial never inserted |
| RecordIndex.SameIrrelevant | index.c:116-118 | no other index depends on whether the record inserted is the one stored |
| RecordIndex.IdentifierInjective | dictionary.c:713-729 | two records have the same identifier exactly when name and revision are the same |
| Marshalling.IntInverse | marshalling.c:87-113 | every int reads back from its bytes, leaving what follows |
| Marshalling.IntLayout | marshalling.c:87-113 | the bytes of an int are its digits to the base 256, the last one first |
| Marshalling.StringInverse | marshalling.c:137-190 | so does every string, and NULL |
| Marshalling.StringLayout | marshalling.c:137-190 | a string is its length and its characters, NULL four bytes 255 |
| Marshalling.VectorInverse | marshalling.c:301-342 | so does every counted array of elements that do, a missing array with count -1 |
| Marshalling.ArrayLayout | marshalling.c:301-342 | an array is its count and then its elements in order, a missing one four bytes 255 |
| Marshalling.OptionalInverse | marshalling.c:279-283 | so does an optional int |
| Marshalling.OptionalLayout | marshalling.c:279-283 | an optional int is the count 1 and the int, a missing one four bytes 255 |
| Marshalling.ItemSetInverse | dictionary.c:477-485 | so does a record set with its records |
| Marshalling.RecordLayout | dictionary.c:456-492 | a record is its fields in the order name, revision, marker, spanhash, signatures, validupto, validfrom, expiry, record sets, each as it is written alone |
| Marshalling.PartsLayout | dictionary.c:467-503 | so are a signature, a record set, and a record behind its pointer |
| Marshalling.SampleBytes | dictionary.c:456-492 | the bytes of a record with another value in every field |
| Marshalling.RecordInverseAt | dictionary.c:456-492 | so does a whole record, leaving exactly the bytes that follow |
| Marshalling.NothingLost | dictionary.c:456-492 | the record read back has the same fields and elements; only the count beside a missing array may differ |
| Marshalling.PointerInverse | dictionary.c:494-503 | so does a record or NULL |
| Marshalling.ListInverse | views.c:345-353 | a list of records closed by NULL reads back in order, leaving what follows |
| Marshalling.RestoreAfterPersist | views.c:383-389 | a persisted index restores to the same records, whatever follows, exactly when it is not empty |
| Marshalling.Handle.WriteRecord | dictionary.c:456-492 | appends exactly the bytes of the record to the stream |
| Marshalling.Handle.ReadRecord | dictionary.c:456-492 | returns what the bytes denote and leaves the stream right behind them |
| Marshalling.Handle.ReadItems | marshalling.c:301-321 | reads a count and that many elements, in order |
| Marshalling.Handle.WriteItems | marshalling.c:322-342 | writes the count and every element, in order, or -1 |
| Marshalling.Handle.ReadOptional | marshalling.c:301-321 | reads an optional int: absent for a negative count, else the first element |
| Marshalling.Handle.ReadPointer | dictionary.c:494-503 | reads a record or NULL |
| Marshalling.Handle.WritePointer | dictionary.c:494-503 | writes a record or NULL |
| Marshalling.Handle.WriteSnapshot | views.c:383-389 | writes the records of the index and a terminator, or nothing |
| Marshalling.Handle.ReadList | views.c:347-353 | reads records up to the first NULL, and terminates |
| Marshalling.PersistThenRestore | views.c:345-391 | the index written to a stream, then anything, then reading: the same records come back and the rest is left |
| Marshalling.WriteThenRead | dictionary.c:494-503 | a record or NULL written at the end of a stream and read again comes back, and what follows is left |
| Base64.DecodeEncode | b64_pton.c:171-285 | decoding the encoding of any bytes gives those bytes |
| Base64.EncodeDecode | b64_pton.c:171-285 | a text that decodes is the encoding of the result |
| Base64.Canonical | b64_pton.c:171-285 | a text decodes to some bytes exactly when it is their encoding, padding and zero trailing bits included |
| Base64.AlphabetIsDigits | b64_pton.c:142-169 | digit v is the v-th character of the alphabet of RFC 4648 |
| Base64.EncodeBits | b64_pton.c:171-285 | the k-th three bytes and the k-th four digits are the same 24 bits |
| Base64.TestVectors | b64_pton.c:171-285 | examples of section 10 of RFC 4648, with both paddings and with none |
| Base64.InitializeMap | b64_pton.c:142-169 | the reverse map classifies every ASCII character, the digits with their values |
| Base64.PutDigit | b64_pton.c:196-230 | one step of the four-state machine: the bits of one digit are put where they belong, or there is not enough room for any text that begins so |
| Base64.CheckPadding | b64_pton.c:238-269 | what follows the digits is accepted exactly when it is the padding that the state asks for, with whitespace anywhere |
| Base64.PtonDo | b64_pton.c:171-285 | the decoder returns and stores what the text without whitespace denotes when there is room, else -1; nothing at or past targsize is written |
| Base64.PtonLen | b64_pton.c:288-378 | the length decoder counts the bytes of the same texts, stray bits ignored |
| Base64.Pton | b64_pton.c:381-392 | with a target it decodes, without one it counts |
| Base64.AcceptsCanonicalOnly | b64_pton.c:171-285 | with room enough the decoder succeeds with some bytes exactly when the text without whitespace is their encoding |
| Base64.LengthPredictsDecode | b64_pton.c:288-378 | a success of n bytes means length n; length n means n bytes or stray trailing bits, given n bytes of room and one more when n is not a multiple of 3 |
| StringSearch.BuildTable | utstring.h:162-198 | every entry is the longest border after which the next character may differ (the strong failure table) |
| StringSearch.FailureUnique | utstring.h:162-198 | such a table has only one possible content |
| StringSearch.FindInTable | utstring.h:242-271 | the leftmost occurrence, or -1 when there is none; at most twice as many comparisons as characters |
| StringSearch.Find | utstring.h:309-351 | the leftmost occurrence at or after the start position, or -1 |
| StringSearch.BuildTableR | utstring.h:202-238 | the right-to-left table is the mirror image of the left-to-right table of the reversed needle |
| StringSearch.FindInTableR | utstring.h:275-305 | the rightmost occurrence, or -1; the same bound on comparisons |
| StringSearch.FindR | utstring.h:355-393 | the rightmost occurrence that ends at or before the start position, or -1 |
| StringSearch.LeftmostIsRightmost | utstring.h:275-305 | the leftmost occurrence in the reversed text is the rightmost one |
| StableSort.SortIsStable | utlist.h:109-167 | bottom-up merging gives a sorted permutation that keeps the order of equal elements, for every comparison preorder |
| StableSort.SortElements | utlist.h:109-167 | sorting keeps the elements, whatever the comparison |
| StableSort.StableUnique | utlist.h:109-167 | there is only one stable sorting of a list |
| LinkedListSort.MergeRuns | utlist.h:131-152 | the merging loop links the merge of two runs behind the list so far, the first run winning ties |
| LinkedListSort.MergePass | utlist.h:114-166 | a pass merges neighbouring runs of insize elements and counts the merges |
| LinkedListSort.Sort | utlist.h:109-307 | for every comparison it terminates with the same nodes, linked with the prev, tail and circular links of the kind of list; for a preorder they are in the stably sorted order |
| HashTable.FindInChain | uthash.h:714-733 | the element of the chain with the key, or NULL when there is none |
| HashTable.PushChain | uthash.h:736-747 | the element becomes the head of the chain, with count and back links right |
| HashTable.DropFromChain | uthash.h:750-763 | the element leaves the chain, with count and back links right |
| HashTable.Table.ExpandBuckets | uthash.h:791-837 | doubling keeps every element, in the bucket of its hash, keeps the count a power of two, and never divides by zero; afterwards the multipliers and the number of elements beyond the ideal length are those of the new chains, and expansion is given up after two in a row that left more than half of them there |
| HashTable.Table.SetIdealLength | uthash.h:802-804 | shift and mask compute the number of elements per bucket, rounded up |
| HashTable.Table.AddToBucket | uthash.h:736-747 | the buckets are doubled exactly when the chain gets to ten elements, and ten more for each unit of its multiplier, and expansion was not given up |
| HashTable.Table.Add | uthash.h:284-305 | the table maps the new key too, and the element is last in application order; all structure invariants hold, for any hash function; a first element makes 32 buckets, a later one doubles them exactly when its chain is full |
| HashTable.Table.Find | uthash.h:119-137 | find agrees with the map of the contents |
| HashTable.Table.Delete | uthash.h:337-370 | the key leaves the map, the element leaves the order, and all structure invariants hold |
| HashTable.Table.Fsck | uthash.h:400-450 | the consistency check fails exactly when a count or a back link is wrong, whatever else is |
| HashTable.Table.NeverUnsound | uthash.h:400-450 | nothing of that is wrong in a table built by adding and deleting |
| Duration.ParseText | duration.c:107-186 | every well-formed text is read with exactly this meaning, weeks beside other units included |
| Duration.RoundTrip | duration.c:107-342 | a printed duration reads back as itself exactly when it has no weeks or nothing but weeks |
| Duration.MixedWeeks | duration.c:173-184 | what becomes of weeks beside other fields |
| Duration.PrintsNumber | duration.c:213-342 | a number is printed unless no field is above zero and hours or minutes are below, which prints as P |
| Duration.Printed | duration.c:213-342 | some durations as they are printed, the zero one as PT0S |
| Duration.DigitsInNumber | duration.c:193-206 | the number of digits printed for the field |
| Duration.Duration.Count | duration.c:217-255 | the first pass computes exactly the length of the text plus one, for any fields |
| Duration.Duration.ToString | duration.c:213-342 | the second pass fills the buffer with the text and its NUL and never writes outside |
| Duration.Duration.FromString | duration.c:107-186 | the parser sets the fields as specified or gives NULL |
| Duration.Duration.SetTime | duration.c:382-402 | the fields are the mixed-radix digits of the time, rounding toward zero |
| Duration.TimeInverse | duration.c:355-402 | duration2time inverts duration_set_time for every time |
| Duration.TimeUnits | duration.c:355-366 | the units in seconds: years of 365 days, months of 31 |
| Duration.SmallFields | duration.c:382-402 | months, days, hours, minutes and seconds set from a time are below 12, 32, 24, 60 and 60 |
| Duration.NoOverflow | duration.c:355-402 | no field, product or partial sum on the way, each listed, leaves the range between zero and the time |
| Duration.CompareTimes | duration.c:67-100 | comparing durations set from times has the sign of the time difference exactly when the difference of years keeps its sign as an int |
| Duration.CompareCut | duration.c:77-79 | a time of 2^31 years compares as less than zero |
| Duration.CompareIntYears | duration.c:67-100 | which it does for times from zero up with years that fit an int |
| Duration.CompareFirst | duration.c:67-100 | for any durations the first field in which they differ decides, weeks included, by its difference cut to an int; NULL comes last |

## Left out

- HTTP, the event loop, JSON, daemonising, logging, PKCS#11 and the SQL backends: I/O and foreign libraries.
- ldns: resource records are their text, the red-black tree is a map from names; neither is part of this model.
- Which records a view has in its indices is not part of Views: an edit may be of any record.
- FirstIndex.StoreExactly: the first index is by name and revision, as that of the base and the prepare view is (names.c:19-21), and the base view is the only one that is saved (names.c:73 and 109).  The first indices of the other views keep one record for each name; so the model says of them which edits they have had, not which record they show.
- FirstIndex.AppliedShows: a publisher inserts the records of its log at the end of its pass; in the code it inserts each right after marking it.
- FirstIndex.MemoryStep: an edit changes the record it is given back, and no other.  prepare sets validupto of a record before it owns it (zonesign.c:30-31); that is not modelled.  If two changes of one log have the same record, the one entered last counts.  A record with the name "namerevision", which names_indexremove would find, is left out.  names_place may be called for a name that is there already, which allows more runs than the code has.
- New views are created from the first view, which is the base view, as names.c:45-48 does.
- RecordIndex.LastAccepted and the lemmas on nameupcoming and namenoserial by name are about records without deletion markers; LastUnlessMarked, KeepsBestOf and PresentExactly are the general ones.
- RecordIndex.UpcomingNumeric: revisions below zero, which the code never gives, are not compared as numbers.
- RecordIndex.KeepsBest: records are snapshots, so that a stored record does not change behind the index.
- The indices keyed by expiry, denial name, name revision and hierarchy: their accept functions only keep the last record.
- Replay of the incremental logs on restore: names_viewrestore stops at the first terminator; the store lemmas are about what the store is handed.
- Signatures of single record sets are not written by the code, and not modelled; so are the byte counts returned by marshalling and the modes COPY, COUNT and PRINT.
- Marshalling.IntInverse: an int is four bytes, least significant first, as on the machines the program is built for; strings are C strings shorter than 2^31 characters of one byte.
- A read that fails gives no value in Marshalling; the source asserts or goes on with undefined bytes.
- Views.StepKeeps: a step is the code between two poppush calls, except that a publisher passes over its log one change at a time (views.c:293-301), so that this pass and the pass of another view over the same log (views.c:277-289) alternate.  The other view's pass is one step: each record it looks up is NULL, and then it fails, or the one SeenIsFinal says, whenever it looks.  The order of the writes to one change is not modelled.
- LiveContents.Compare: a change log is a sequence of entries with different keys, and a lookup is a search; uthash, which it is built on, is modelled in HashTable.  The place a new entry comes to stand at is a parameter.
- ViewSafety.Run.UpdateView: the other views run between the steps according to any finite schedule; that they may publish for ever, so that the loop never ends, is not excluded by the code either.
- Destroying views, failing allocation, and several threads using one view at a time.
- HashTable.Table.Add: counters do not wrap around at 32 bits; the bloom filter, HASH_SELECT and the INORDER forms are left out.
- LinkedListSort.Sort: run sizes do not wrap around; one method stands for LL_SORT2, DL_SORT2, CDL_SORT2 and HASH_SRT, which differ in the links they set.
- StringSearch.Find: strings shorter than 2^31 characters, as its casts to int demand, and a start position inside the string; so for FindR.
- Base64.Pton: input of ASCII characters 1 to 127 in the C locale; the encoder of the original is not part of this model and is taken from RFC 4648.
- Duration.Duration.ToString: calloc does not fail. Duration.ParseText: numbers below 2^31; beyond that atoi is undefined in C and modelled as glibc has it.
- ods_rand, the set time of the tests, and duration2time for durations that do not come from a time.
- The utarray, utringbuffer and iterator headers, the SQL schema and functions.c, which is not built.
