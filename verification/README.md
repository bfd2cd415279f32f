# Verification model of bifroest's user database, sessions and counters

This project models the parts of bifroest with the most state and proves what they promise, or exactly when they keep
their promise. Where the code and its documentation or its evident intent disagree, the model follows the code.

**The Unix user database** (`pkg/user`).
`Bytes`, `ColonCodec` and `UnixRows` are the three file formats: scanner, lines, columns.
`UserDb` is the specification as values: lookups, ids, `Ensure`, the deletion of a user, from rows to rows and from files
to files. `UserDbLaws` has the theorems about it, `Convergence` those about what comes back from the files and whether a
second `Ensure` finds nothing to do, and `Writing` those about what can be written and where files are cut. `Witnesses` has
inputs for which the conditions of these theorems fail.
`Entries`, `Regrouping`, `Indexing` and `Repository` are the imperative side: entries are heap objects shared by lists
and indexes, edited in place; `Ensure`, `EnsureGroupByReq`, the deletion of a user and what they are made of are proved to
refine the specification, from any state of the memory. `IndexLaws` tells when the edited indexes are those that a reload would make.

**Counting protocols.** `KeyedMutex`, `ConnectionStack` and `ServerLimit` are state machines in which threads take one
atomic step at a time; a run is any sequence of choices of threads. Theorems are about every run; where a property is not
one of every run, it is proved for which limits and numbers of threads it can fail, with a run constructed for each of
them, and the property is proved for the runs without the step that breaks it. `SharedRepository` is the counter of
`SharedRepositoryProvider`, which is under a mutex. `Runs` and `Counting` have what they share.

**Sessions** (`Sessions`): searching, expiry, housekeeping, the touch threshold, and the comparison with a reader.

**Smaller pieces.** `FmtSort` is the ordering of map keys of any type; `AuthorizedKeys` is the printer and the scanner of
authorized_keys options (sshd(8), section AUTHORIZED_KEYS FILE FORMAT).

## What does not hold

- A user created or changed from a requirement with a user id alone never fulfils it (`UserDbLaws.IdAloneNeverFulfilled`):
  pkg/user/requirement_unix.go:36-51 makes up a name for the user but not for its primary group.
- A second `Ensure` may find something to do again, as when the same group is wanted twice
  (`Witnesses.DoubleNeverSettles`) or lists the user twice, when a later requirement changes the primary group, or when the
  primary group is given the gid of another one (`UserDbLaws.PrimaryCollides`). `UserDbLaws.EnsureSettles` has the exact condition for the database, and
  `Convergence.EnsureTwice` for the files.
- A shell that ends in a carriage return is accepted and written (pkg/user/etc-unix.go:121-134) but cut by the next reload,
  so that `Ensure` never settles (`Convergence.CutShellNeverSettles`, `Witnesses.CutShellIsAccepted`).
- A line of 64 KiB or more, such as one with a long list of members, is written, and hides itself and all lines after it
  from the next reload, because the scanner's error is not looked at, pkg/user/etc-colon-entry.go:98-114
  (`Convergence.LongLineCutsFile`, `Witnesses.CrowdCutsFile`).
- A requirement with a column that cannot be written, such as an empty shell, is accepted and cuts the passwd file off at
  the user; a bad name of a group cuts the group file, which may leave it empty (`Writing.EnsureIsWritten`,
  `Writing.GroupIsWritten`, `Witnesses.BadGroupNameCutsFile`).
- A user without a shadow line makes `Ensure` and `deleteRef` panic (`UserDbLaws.EnsurePanics`, `UserDbLaws.DeletePanics`).
- `ensureGroup` leaves the former gid of a changed group in the index, pkg/user/etc-colon-repository.go:957
  (`IndexLaws.EnsureGroupIndexes`).
- `Ensure` indexes a new user by its gid instead of its uid, line 438 (`IndexLaws.CreatedUserIndexes`), and not by its
  memberships (`IndexLaws.CreatedMemberIndex`); it follows a new name of a user only when the name is the old one, line 467
  (`IndexLaws.MovedUserIndexes`).
- `KeyedMutex` can have two writers of one key as soon as there are two threads (`KeyedMutex.TwoWritersIffTwoThreads`).
- With two threads and a limit, the stack of a session can stay registered with nobody left to remove it, because a
  rejected opening adds and takes back while the last handle is closed (`ConnectionStack.LeaksIffLimited`), and the live
  handles of a session can exceed the limit (`ConnectionStack.ExceedsIffTwoThreads`); with two threads and any limit a panic
  can be reached (`ConnectionStack.PanicsIffTwoThreads`).
- A server connection that gets no id is counted forever, up to the point where no other is let in
  (`ServerLimit.LosesUpToLimit`, `ServerLimit.LostForever`).
- An option whose value ends in a backslash cannot be read back from a line (`AuthorizedKeys.LineRoundTrip`).
- pkg/configuration/housekeeping.go:28-30 promises that expired sessions are kept for `keepExpiredFor`; the first run
  after the expiry disposes them, and disposed sessions are deleted by the next run (`Sessions.GoneAfterNextRun`).

## Model

| member | source | states |
|---|---|---|
| `ColonCodec.FileRoundTrip` | pkg/user/etc-colon-entry.go:27-149 | a list of entries and preserved raw lines comes back from its own file, without its empty lines, exactly when every other line is stable: printable, no colon or line end in a column, no carriage return at its end, below the scanner's limit, and for a raw line still not parseable |
| `ColonCodec.RowRoundTrip` | pkg/user/etc-colon-entry.go:27-85 | a printed entry is read back from its line exactly when none of its columns holds a colon |
| `ColonCodec.ReadFile` | pkg/user/etc-colon-entry.go:98-149 | whatever was read can be written again; which of its lines survive that depends on a carriage return at the end and on the length only |
| `ColonCodec.CrChangesLine` | pkg/user/etc-colon-entry.go:98-121 | a line that ends in a carriage return never comes back as it was |
| `UnixRows.PasswdLawful` | pkg/user/etc-passwd.go:49-102 | the seven passwd columns: what is printed is read back, what is read can be printed, with at most the numbers changed |
| `UnixRows.GroupLawful` | pkg/user/etc-group.go:32-76 | the same for the four group columns with the comma separated members |
| `UnixRows.ShadowLawful` | pkg/user/etc-shadow.go:85-157 | the same for the nine shadow columns with their optional numbers |
| `UnixRows.PasswdRoundTrip` | pkg/user/etc-passwd.go:65-102 | decoding an encoded passwd entry gives it back |
| `UnixRows.GroupRoundTrip` | pkg/user/etc-group.go:44-76 | decoding an encoded group entry gives it back |
| `UnixRows.ShadowRoundTrip` | pkg/user/etc-shadow.go:95-157 | decoding an encoded shadow entry gives it back, with absent numbers staying absent |
| `UnixRows.MembersRoundTrip` | pkg/user/etc-group.go:44-76 | the member list is split into the names that were joined, and an empty column means no members |
| `UnixRows.ValidateBadUnixUser` | pkg/user/etc-unix.go:35-60 | accepts exactly the names that the lenient rule allows |
| `UnixRows.ValidateUnixName` | pkg/user/etc-unix.go:62-107 | accepts exactly the names of legal characters that are not all digits |
| `Bytes.ParseUint32` | pkg/user/etc-unix.go:136-148 | reads exactly the decimal numbers that fit 32 bits, to their value |
| `UserDbLaws.LookupIsScan` | pkg/user/etc-colon-repository.go:1169-1219 | a lookup in an index is the same as scanning all lines for the last match |
| `UserDbLaws.LookupUserIsScan` | pkg/user/etc-colon-repository.go:253-275 | looking a user up by a requirement: by name first, by id next |
| `UserDbLaws.GeneratedId` | pkg/user/etc-colon-repository.go:405-417 | a generated id is never that of nobody; it is at least 1000 exactly when the highest id in use leaves room, and then unused; without room it is 0 |
| `UserDbLaws.GeneratedIdsIncrease` | pkg/user/etc-colon-repository.go:918-930 | the next id generated is above the last one exactly when there was room for both in 32 bits |
| `UserDbLaws.GeneratedGidsIncrease` | pkg/user/etc-colon-repository.go:912-979 | the gids generated for groups asked for by name increase strictly and are above all that were there, exactly as long as they fit into 32 bits |
| `UserDbLaws.EnsureSettles` | pkg/user/etc-colon-repository.go:306-513 | after a user was created or changed, from any requirement and any database, the requirement is fulfilled exactly when it names the user, its primary group stands once all groups are ensured, and nobody counted as the new user's members or the groups of the existing one come out right |
| `UserDbLaws.EnsuredAreAskedFor` | pkg/user/etc-colon-repository.go:966-979 | whatever a later requirement makes of a group that was ensured before, some requirement still holds of it |
| `UserDbLaws.NamedPrimaryStands` | pkg/user/etc-colon-repository.go:388-402 | when the other groups are asked for by name the primary one stands exactly if one is asked for, changed or not |
| `UserDbLaws.NamedMembershipsSettle` | pkg/user/etc-colon-repository.go:404-497 | and the memberships settle exactly when they add up before, where for an existing user gids are distinct and the one asked for is no other group's |
| `UserDbLaws.PrimaryCollides` | pkg/user/etc-colon-repository.go:912-964 | when that gid is another group's: in which of the two groups the user remains, and when the memberships settle all the same |
| `UserDbLaws.PrimaryListings` | pkg/user/etc-colon-repository.go:936-960 | which listings count once the primary group is as it is asked for: those in the files, by the new name for a renamed group |
| `Convergence.EnsureTwice` | pkg/user/etc-colon-repository.go:379-513 | from file to file, for any requirement on stable files: after an Ensure that found nothing to do so does the next; otherwise what was made is in the files exactly if the shell does not end in a carriage return and all lines fit; such a shell is never settled; and if the lines fit, a second Ensure returns Unchanged and writes nothing exactly when the shell does not end so and the condition of EnsureSettles holds |
| `Convergence.ChangedIsStable` | pkg/user/etc-colon-entry.go:98-149 | the files that a changed database is written to come back exactly if the shell does not end in a carriage return and no line reaches the limit of the scanner |
| `Convergence.PasswdStable` | pkg/user/etc-passwd.go:65-102 | a passwd row survives its file exactly when it is valid, its password holds no separator, its shell does not end in a carriage return and its line is not too long |
| `Convergence.GroupStable` | pkg/user/etc-group.go:44-76 | the same for a group row, whose columns cannot end in a carriage return |
| `Convergence.ShadowStable` | pkg/user/etc-shadow.go:95-157 | the same for a shadow row |
| `Convergence.CutShellNeverSettles` | pkg/user/etc-unix.go:121-134 | after a successful Ensure with a shell that ends in a carriage return no later one returns Unchanged |
| `Witnesses.CutShellIsAccepted` | pkg/user/etc-unix.go:121-134 | and such a user, with all defaults, is created where there are no files yet |
| `Convergence.LongLineCutsFile` | pkg/user/etc-colon-entry.go:98-114 | a line that is too long hides itself and all lines after it from the next reload, without an error |
| `Witnesses.CrowdCutsFile` | pkg/user/etc-colon-entry.go:98-149 | a group with more than 32768 members is written, and the reload finds no groups |
| `Convergence.RoomyFits` | pkg/user/etc-colon-repository.go:415-502 | all lines fit after Ensure if there was room for what it can add, which depends on the number of groups asked for only |
| `Convergence.EnsureConverges` | pkg/user/etc-colon-repository.go:306-513 | by conditions on the files and the requirement only: with room in the lines, distinct gids of which the one asked for is free, wanted groups that list the user once at most and a shell that does not end in a carriage return, a second Ensure returns Unchanged and writes nothing, whether the primary group was changed or not |
| `Witnesses.DoubleNeverSettles` | pkg/user/etc-colon-repository.go:338-354 | a requirement that asks for a group twice is never settled: Ensure reports a change and writes the same files every time |
| `UserDbLaws.DistinctGroupsAddUp` | pkg/user/etc-colon-repository.go:338-354 | memberships in different wanted groups add up if no wanted group lists the user twice |
| `UserDbLaws.JoinedSum` | pkg/user/etc-colon-repository.go:431-433 | joining adds one listing of the user for every wanted group, double ones included |
| `UserDbLaws.RegroupedSum` | pkg/user/etc-colon-repository.go:470-496 | regrouping leaves as many listings of the user as the wanted groups have, at least one in each, and those of the groups in which it remains because of a shared gid |
| `UserDbLaws.IdAloneNeverFulfilled` | pkg/user/requirement_unix.go:36-51 | a requirement with a user id alone is never fulfilled, because its default primary group has no name |
| `UserDbLaws.EnsureKeepsRest` | pkg/user/etc-colon-repository.go:388-512 | whatever groups are asked for and however they are changed, Ensure leaves every line in its place, other users' rows as they are and the passwords and other members of all groups in their order; only groups asked for can get another name or gid |
| `UserDbLaws.EnsureKeepsOthers` | pkg/user/etc-colon-repository.go:388-512 | with the other groups asked for by name no name or gid of a group but the primary one changes either |
| `UserDbLaws.CreatedUserIsNew` | pkg/user/etc-colon-repository.go:404-427 | a created user has the id asked for, which nobody had, or a generated one that nobody has, and a shadow row with a locked password |
| `UserDbLaws.SavedIsLoaded` | pkg/user/etc-colon-repository-handles.go:185-211 | the three files are loaded as they were saved exactly when all lines of all three are stable |
| `Writing.EnsureIsWritten` | pkg/user/etc-colon-repository.go:388-512 | what Ensure has changed can be written exactly if the name, display name, home directory and shell asked for hold and so does the last name by which each group is asked for; otherwise the passwd file is cut off at the user, or the group file at the first group with a bad name after the passwd file was written, and the other files stay |
| `Writing.GroupIsWritten` | pkg/user/etc-colon-repository.go:880-910 | a group ensured alone can be written exactly if its name holds; otherwise the group file is cut off at it |
| `Writing.AllNamesHold` | pkg/user/etc-colon-repository.go:966-979 | for that it is enough that all names asked for hold, and needed where no two requirements find the same group |
| `Writing.AllGroupsNames` | pkg/user/etc-colon-repository.go:966-979 | once all groups are ensured all their names hold exactly if the last name holds by which each of them was asked for |
| `Witnesses.BadGroupNameCutsFile` | pkg/user/etc-colon-repository.go:912-964 | a requirement with all its defaults that changes a valid user and leaves an empty group file behind |
| `UserDbLaws.EnsurePanics` | pkg/user/etc-passwd.go:178-194 | Ensure panics exactly if it comes to change an existing user by name and the files have no shadow line for it |
| `UserDbLaws.DeletePanics` | pkg/user/etc-colon-repository.go:686-717 | a deletion panics exactly if the user has no shadow line and others have one |
| `UserDbLaws.FulfilledNonEmpty` | pkg/user/etc-colon-repository.go:306-358 | whether a requirement is fulfilled does not depend on empty lines |
| `UserDbLaws.DeleteForgets` | pkg/user/etc-colon-repository.go:686-720 | a deleted user is not found by id, has no shadow line and no groups; it is not found by name exactly when no other row has the name with another id; other ids and names are found as before |
| `UserDbLaws.DeleteKeepsOthers` | pkg/user/etc-colon-repository.go:686-720 | a deletion keeps all other lines, and all other members of groups, in their order |
| `Regrouping.Regroup` | pkg/user/etc-colon-repository.go:470-496 | the loops over the member index and the groups collected by gid make of the entries what the specification says, in whatever order the map is gone through |
| `Regrouping.JoinGroups` | pkg/user/etc-colon-repository.go:431-433 | the loop that appends a new user to its groups |
| `Regrouping.LeaveGroups` | pkg/user/etc-colon-repository.go:700-703 | the loop that takes a user out of all groups that list it |
| `Regrouping.CollectByGid` | pkg/user/etc-colon-repository.go:470-476 | of the groups of a user with the same gid the last one is kept |
| `Regrouping.StaleLeft` | pkg/user/etc-colon-repository.go:486-494 | what is left of the collected groups are exactly the entries the user has to leave |
| `Regrouping.MembersListed` | pkg/user/etc-colon-repository.go:1182-1184 | the groups of a user are those that list it, in the order of the file |
| `Entries.DecodeEntries` | pkg/user/etc-colon-entry.go:98-121 | the scanning loop reads the file as specified |
| `Entries.EncodeEntries` | pkg/user/etc-colon-entry.go:123-149 | the writing loop writes what is specified, and up to the first unprintable entry when there is one |
| `Entries.DeleteEntries` | pkg/user/etc-colon-repository.go:706-717 | deleting from a list of entries keeps the others, as the same objects, in order |
| `Indexing.LoadGroupsRefs` | pkg/user/etc-colon-repository.go:1169-1187 | the three group indexes of a reload: the last entry with each name and each gid, and for every user its groups in file order, once for every time they list it |
| `Indexing.LoadShadowsRefs` | pkg/user/etc-colon-repository.go:1189-1200 | the last shadow entry of every name |
| `Indexing.LoadUsersRefs` | pkg/user/etc-colon-repository.go:1202-1219 | the last passwd entry with each name and each uid, with the shadow entry of its name |
| `Indexing.FindHighest` | pkg/user/etc-colon-repository.go:981-1017 | the highest id of all entries but the special one |
| `Indexing.RefsMatch` | pkg/user/etc-colon-repository.go:338-354 | as many groups as requirements, and a requirement for every group |
| `Indexing.MemberRowsAt` | pkg/user/etc-colon-repository.go:330-336 | the groups of a user by the index are those found by going through all rows |
| `IndexLaws.EnsureGroupIndexes` | pkg/user/etc-colon-repository.go:936-960 | the group indexes that ensureGroup edits are those of a reload: always for a new group, for a changed one exactly under a condition on gids and names |
| `IndexLaws.DeletedUserIndexes` | pkg/user/etc-colon-repository.go:697-717 | the user indexes after a deletion are those of a reload exactly when nothing else goes by the name or the id of the user |
| `IndexLaws.DeletedUserGroups` | pkg/user/etc-colon-repository.go:700-704 | the group indexes after a deletion are those of a reload |
| `IndexLaws.CreatedUserIndexes` | pkg/user/etc-colon-repository.go:437-438 | the user indexes after a creation are those of a reload exactly when the new user has its uid as its gid |
| `IndexLaws.CreatedMemberIndex` | pkg/user/etc-colon-repository.go:431-433 | the index of memberships after a creation is that of a reload exactly when the user joins no group |
| `IndexLaws.MovedUserIndexes` | pkg/user/etc-colon-repository.go:467-474 | the user indexes after a change are those of a reload exactly when the user was found by its name and a changed id is nobody else's |
| `IndexLaws.MovedMemberIndex` | pkg/user/etc-colon-repository.go:476-497 | the index of memberships after a change is that of a reload exactly when the wanted groups are asked for in the order of the file, each as often as it lists the user, and the user remains in no other group |
| `IndexLaws.IndexByUnique` | pkg/user/etc-colon-repository.go:1169-1187 | an index has the last position of every key, and no other map has |
| `Repository.EtcColonRepository.OpenAndLoad` | pkg/user/etc-colon-repository.go:1137-1167 | new entries for all lines and indexes that match them, or an error and the former indexes |
| `Repository.EtcColonRepository.SaveFiles` | pkg/user/etc-colon-repository-handles.go:199-211 | writes the three files one after the other, up to the first error |
| `Repository.EtcColonRepository.IsFulfilled` | pkg/user/etc-colon-repository.go:306-358 | on indexes that are up to date, tells whether the files fulfil a requirement |
| `Repository.EtcColonRepository.EnsureGroupRef` | pkg/user/etc-colon-repository.go:912-964 | edits entries and indexes as specified, with the former gid left in the index |
| `Repository.EtcColonRepository.EnsureGroupRefs` | pkg/user/etc-colon-repository.go:966-979 | ensures several groups and stops at the first error |
| `Repository.EtcColonRepository.CreateUser` | pkg/user/etc-colon-repository.go:404-433 | appends the new rows and joins the groups |
| `Repository.EtcColonRepository.UpdateUserRef` | pkg/user/etc-passwd.go:178-194 | changes the two rows of a user, or panics without a shadow row |
| `Repository.EtcColonRepository.ModifyUser` | pkg/user/etc-colon-repository.go:459-497 | all edits to an existing user, and when the user indexes are those of a reload |
| `Repository.EtcColonRepository.EnsureLocked` | pkg/user/etc-colon-repository.go:388-512 | Ensure under its lock does to the files what the specification says, whatever was in memory before |
| `Repository.EtcColonRepository.Ensure` | pkg/user/etc-colon-repository.go:379-513 | decided early without a write, or from file to file; no difference on indexes that are up to date |
| `Repository.EtcColonRepository.EnsureGroupLocked` | pkg/user/etc-colon-repository.go:892-909 | the same for one group, with what becomes of the indexes |
| `Repository.EtcColonRepository.EnsureGroupByReq` | pkg/user/etc-colon-repository.go:880-910 | the same for one group, with the early decision |
| `Repository.EtcColonRepository.DeleteRef` | pkg/user/etc-colon-repository.go:653-724 | a deletion from file to file, and whether its indexes are those of a reload |
| `KeyedMutex.RunKeepsInv` | pkg/common/keyed-mutex.go:18-101 | in every interleaving the hold count of an instance is the number of threads between their two additions, the panic is not reached, and every mapped key has a positive count or a thread that guards it |
| `KeyedMutex.AllReleased` | pkg/common/keyed-mutex.go:89-101 | once all threads are idle nothing is mapped, counted or locked |
| `KeyedMutex.InstanceExclusion` | pkg/common/keyed-mutex.go:18-32 | a writer of an instance is alone with it |
| `KeyedMutex.KeyExclusion` | pkg/common/keyed-mutex.go:34-101 | a writer of a key is alone with the key, as long as nobody enters a deleted instance or deletes a used one |
| `KeyedMutex.TwoWritersIffTwoThreads` | pkg/common/keyed-mutex.go:34-101 | two threads can be writers of one key at a time, whatever the key, exactly if there are two threads |
| `KeyedMutex.StaleEntry` | pkg/common/keyed-mutex.go:48-52 | two writers by the run in which a thread enters a deleted instance |
| `KeyedMutex.StaleDelete` | pkg/common/keyed-mutex.go:89-101 | two writers by the run in which a thread deletes a used instance |
| `ConnectionStack.RunKeepsInv` | pkg/session/fs-connection-interceptor.go:17-95 | in every interleaving, with any number of calls of Close, active counts the live handles and the threads on their way, is never negative, and the live handles of a stack keep to the limit |
| `ConnectionStack.NoLeakWithoutLimit` | pkg/session/fs-connection-interceptor.go:59-95 | without a limit, or with a single thread, a registered stack has live handles, a thread that adds to it or one that is on its way to remove it |
| `ConnectionStack.LeaksIffLimited` | pkg/session/fs-connection-interceptor.go:59-95 | a stack can stay registered after all is closed exactly if there is a limit and more than one thread |
| `ConnectionStack.SessionLimit` | pkg/session/fs-connection-interceptor.go:17-95 | the live handles of a session keep to the limit as long as no session is removed while it is used again |
| `ConnectionStack.ExceedsIffTwoThreads` | pkg/session/fs-connection-interceptor.go:69-95 | the live handles of a session can exceed a limit, whatever it is, exactly if there is more than one thread |
| `ConnectionStack.PanicsIffTwoThreads` | pkg/session/fs-connection-interceptor.go:84-87 | the panic over a missing flow can be reached, with or without a limit, exactly if there is more than one thread |
| `ConnectionStack.Undisturbed` | pkg/session/fs-connection-interceptor.go:59-95 | as long as no session is opened between the close of its last handle and its removal by another thread, no panic is reached and the live handles of every session keep to the limit |
| `ServerLimit.RunKeepsInv` | pkg/service/connection.go:85-301 | the server's counter stays between zero and its limit and counts open connections, lost ones and threads on their way; its panic is not reached |
| `ServerLimit.LostPlaces` | pkg/service/connection.go:101-104 | a connection that gets no id keeps its place: when all others are closed, as many are counted as were lost |
| `ServerLimit.LosesUpToLimit` | pkg/service/connection.go:85-104 | with any thread at all, any number of places up to the limit can be lost, and never more |
| `ServerLimit.LostForever` | pkg/service/connection.go:86-94 | from any reachable state with as many lost as there are places no connection is answered ever again |
| `FmtSort.CompareOrder` | internal/fmtsort/sort.go:78-182 | on values of one type without NaNs, of any nesting, the comparison is antisymmetric and zero on equal values only |
| `FmtSort.CompareTransitive` | internal/fmtsort/sort.go:78-182 | and it is transitive |
| `FmtSort.CompareReflexive` | internal/fmtsort/sort.go:78-219 | a value compares as equal to itself exactly when there is no NaN in it |
| `FmtSort.SortedIsStable` | internal/fmtsort/sort.go:51-72 | a sorted map has its keys in order, with their values, equal keys in the order they had; and of any keys it has the same pairs |
| `FmtSort.SortedMap.Sort` | internal/fmtsort/sort.go:51-72 | the two arrays are sorted in place by swaps |
| `FmtSort.SortedMap.Swap` | internal/fmtsort/sort.go:28-31 | a key keeps its value |
| `AuthorizedKeys.LineRoundTrip` | pkg/crypto/authorized-keys.go:124-189 | a line of printed options, an algorithm and anything after it is taken apart into the same, trimmed, exactly when no value ends in a backslash and what comes last is not blank; otherwise it is illegal |
| `AuthorizedKeys.PlainLine` | pkg/crypto/authorized-keys.go:124-130 | a line without options has none, and is illegal without anything after its algorithm |
| `AuthorizedKeys.OptionsScanned` | pkg/crypto/authorized-keys.go:131-160 | the loop comes to the blank after the options exactly when all of them are closed, and then has them in order |
| `AuthorizedKeys.OptionRoundTrip` | pkg/crypto/authorized-keys-option.go:21-72 | a printed option is read back; one with a value is not read with anything after it |
| `AuthorizedKeys.QuoteRoundTrip` | pkg/crypto/authorized-keys-option.go:38-62 | a quoted text is unquoted to what it was |
| `AuthorizedKeys.ScanOptions` | pkg/crypto/authorized-keys.go:133-157 | the loop over quotes, commas and blanks is the fold of its single steps |
| `AuthorizedKeys.ParseLine` | pkg/crypto/authorized-keys.go:124-168 | a line, trimmed, up to the decoding of its key |
| `AuthorizedKeys.NamedType` | pkg/crypto/authorized-keys-option-type.go:116-150 | every option type is found by its name |
| `Sessions.FindByPublicKey` | pkg/session/fs-repository.go:231-285 | the first session in directory order that holds the key and matches, or none if there is none |
| `Sessions.MatchingIs` | pkg/session/fs-repository.go:588-688 | the matching sessions are those that are listed, have a session file and match |
| `Sessions.FindAll` | pkg/session/fs-repository.go:343-374 | the consumer sees the matching sessions in order until it stops |
| `Sessions.VisitedIsPrefix` | pkg/session/fs-repository.go:343-374 | it sees all of them, or up to and including the one after which it stops, each once |
| `Sessions.Matches` | pkg/session/predicates.go:77-84 | all predicates hold |
| `Sessions.HouseKeeper.Run` | pkg/service/housekeeper.go:103-157 | what a run makes of every session |
| `Sessions.RunDeletes` | pkg/service/housekeeper.go:110-157 | a run deletes exactly the listed sessions that are disposed, or for which a timeout and the time to keep them have passed, disposes those of the others for which a timeout has passed, and leaves the rest |
| `Sessions.GoneAfterNextRun` | pkg/service/housekeeper.go:110-157 | a session that is expired at one run is gone after the next |
| `Sessions.ThresholdIsBelow` | pkg/session/fs-repository.go:40-60 | the touch threshold is below every timeout |
| `Sessions.ActiveIsNotExpired` | pkg/session/fs-connection-interceptor.go:105-122 | the stored access time lags by at most the threshold, and a session is not expired at its own actions |
| `Sessions.IsReaderEqualToBytes` | pkg/session/common.go:10-37 | true exactly when the bytes are a prefix of the content, and all of it unless their length is a multiple of 4096 |
| `SharedRepository.Provider.Create` | pkg/user/repository.go:99-112 | counts a new handle and initialises for the first one; right exactly while a 16 bit integer can count them |
| `SharedRepository.Provider.Close` | pkg/user/repository.go:121-143 | closing any number of times lowers the counter once and closes after the last handle; the panic is not reached |

## Left out

- EnsureConverges: it is a sufficient condition; `EnsureTwice` has the exact one. The other groups are asked for by name, and for an existing user enough ids are free.
- NamedMembershipsSettle: the other groups are asked for by name, and for an existing user enough ids are free; `EnsureSettles` is for any requirement.
- PrimaryCollides: the same, for gids that are distinct before.
- EnsureKeepsOthers: the other groups are asked for by name; `EnsureKeepsRest` is for any requirement.
- GeneratedGidsIncrease: the groups are asked for by name, as a requirement with a gid generates none.
- KeyExclusion: that no step is stale is sufficient, not necessary, and a condition on the run; of the number of threads, `TwoWritersIffTwoThreads` says exactly when the exclusion holds in every run.
- SessionLimit: the same for the live handles of a session, with `ExceedsIffTwoThreads`; `Undisturbed` has a condition on when sessions are opened.
- EnsureGroupLocked: what becomes of the member index is stated by the group indexes as a whole.
- OptionRoundTrip: values are ASCII; of what `strconv.Unquote` reads, the model has texts in double quotes with the escapes that `strconv.Quote` prints for ASCII.
- LineRoundTrip: the white space that is trimmed is that of ASCII, and what comes after the algorithm is not decoded.
- ParseLine: the same.
- Sort: the insertion sort that `sort.Stable` applies to blocks is applied to the whole map; its merging of blocks is not modelled.
- ActiveIsNotExpired: from the first touch on, as before it the access time of the file is older than the stack.
- IsReaderEqualToBytes: the reader fills its buffer as far as it can.
- FindByPublicKey: no input and output errors, no automatic cleaning, and session files that decode; `FindByAccessToken` has the same loops.
- Inspect: disposing of environments and authorizations is not part of it.
- Home directories, ownership, file locks, file watching, reload timers and the killing of processes: operating system calls. A file is a byte string, a directory an ordered list.
- The `User` and `Group` values that `Ensure` and the lookups return: they copy the columns of the entries found.
- `filepath.Clean` on the default home directory, which is modelled as the text it is called with.
- Which error a decoder or validator reports: a row or a file is read or it is not.
- The aliasing of decoded columns with the scanner's buffer and of appended member lists: columns are values.
- The 32 bit width of the hold and handle counters, and the 64 bit width of the server's counter.
- Writer preference and fairness of `sync.RWMutex`: waiting is a step that changes nothing.
- `deleteGroupRef`, password validation and password hashes, and the lookups by name and id that only read an index.
- Key parsing, base64, base58, JSON, UUIDs and network code.
- Docker and Kubernetes environments, OIDC, PAM, templates, configuration defaults, logging and the command line.
