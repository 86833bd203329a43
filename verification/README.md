# NextExpress: verified models

NextExpress is a bulletin board server reached over telnet. This project models its stateful core in
Dafny and proves what its design promises: the telnet codec, the user database, the locks and pools
that sessions share, the life of a session, and the stores and byte filters around them.

Check it with `dafny verify dfyconfig.toml`.

## How it is laid out

| file | what it models |
|---|---|
| `Basics.dfy`, `Utf8.dfy` | shared types, decimal numerals, UTF-8 as in section 4 of RFC 3629 |
| `TelnetSpec.dfy`, `TelnetStream.dfy` | reading a line or a key: a lookahead specification, and the byte-at-a-time codec that refines it |
| `TelnetBytes.dfy`, `TelnetLaws.dfy` | what each byte does to a line or a key, in numbers; what every run of the codec keeps |
| `TelnetTiming.dfy`, `TelnetReads.dfy`, `TelnetCancel.dfy` | whole connections of lines, keys and both mixed, and when the timing of bytes shows; reads abandoned at any point and taken up again |
| `SqliteUsers.dfy`, `SqliteUserLaws.dfy` | the user tables as maps, each statement a function, the repository as a class; integrity and merging over all runs |
| `PatchOrder.dfy`, `PatchesAgree.dfy` | what concurrent patches of one user add up to, which posts are lost, and when the order shows |
| `UserCommands.dfy`, `UserRepositories.dfy` | the domain's own meaning of each command, the in-memory repository, and when both repositories agree |
| `UserDiff.dfy`, `SessionPatches.dfy` | the patch between a stored user and a session's, from difference to storage and back; runs of such patches |
| `StorageCodecs.dfy` | times and flag sets in integer columns |
| `MailLocks.dfy`, `NodePool.dfy`, `ScreenCache.dfy` | what sessions share, as transition systems over any number of sessions |
| `SessionTrace.dfy`, `SessionDriver.dfy` | the legal lives of a session as traces of output, verdicts and transitions, and the driver and its flows, which produce only those |
| `MailStore.dfy`, `FileListing.dfy`, `ScreenText.dfy`, `ColourStrip.dfy`, `HarnessTelnet.dfy` | stores, listings and byte filters |

Sockets are byte sequences with an oracle that says whether a byte has arrived at each non-blocking
read. Tables and directories are maps, and a transaction copies, changes the copy and commits it.
What the operating system, the clock or a hidden call decides is left open, so a result holds for
every such decision.

Where a specification is built from small functions (which key a byte is, which files an area lists,
what a new account starts as), a theorem beside it says what they come to in numbers and fields, over
whole inputs and without naming them.

## What turned out to have a condition

* Lines do not depend on timing if and only if no line-ending CR is directly followed by an LF; keys
  do not if and only if no Enter is followed by NUL and no ESC key by a bracket
  (`TimingMattersIffCrLf`, `KeyTimingMattersIffTrap`).
* A read abandoned while it waits for a byte resumes exactly if and only if neither a character nor a
  telnet command was cut short (`ResumeIffNothingHeld`). One abandoned while it writes an echo
  resumes, in what it hears, if and only if the echo was not that of a line ending and the bytes read
  ahead would have left the line as it is; with none read ahead, the rest of that one echo is all
  that is missing (`EchoResumesIff`, `OnlyTheEchoIsLost`). The codec's comment promises an exact
  resumption always, and the listener's calls a clipped echo cosmetic; at a line ending the ending is
  lost with it.
* Stripping colour distributes over a cut if and only if no escape sequence is open at it. A colour
  run gets through if and only if deleting others splices it together, and exactly then a second pass
  would change something (`SplitIffNotOpen`, `RunSurvivesIffSpliced`, `IdempotentIffNotSpliced`).
* Patches of one user add up to what those accepted at their turn bring. A post to a conference whose
  row is not there yet is lost although its patch is accepted, so every order stores the same totals
  if and only if those that can ever run bring nothing beyond those that can run at once and settle
  the posts to each new row; where each patch counts something and names each conference once, if and
  only if none has pointers or posts for a row that others create (`PostsAddUp`, `OrdersAgreeIff`,
  `OrdersAgreeIffNothingLeans`, `DependentPatchIsLost`, `DependentPostIsLost`). Patches computed by
  sessions never do, so sessions agree in every order their loads allow
  (`SessionsLoseNothing`, `SessionOrderDoesNotMatter`).
* The database carries out a command as the domain defines it if and only if the patch is applicable
  and no counter passes 32 bits. A password stored without a salt makes the record unreadable
  (`PatchMeansTheSame`, `AuthMeansTheSame`, `PasswordNeedsSalt`). The comments in the commands file
  call the two adapters pinned to each other; the model follows the code, which differs outside that
  condition.
* Applying the patch between two users gives the second back if and only if counters and marks only
  grew and nothing was taken away, which is what sessions do (`BetweenReproduces`).
* A mail store can be opened again if and only if every stored mail is within the size limits, which
  inserting does not check (`FileMailStore.Reopen`).

## Model

| member | source | states |
|---|---|---|
| Utf8.Utf8IsEncoding | rust/src/adapters/telnet_line.rs:100-125 | the bytes the decoder accepts as UTF-8 are exactly the encodings of code point sequences |
| Utf8.LastCharBytes | rust/src/adapters/telnet_line.rs:228-248 | the last character of a non-empty encoding is its last non-continuation byte and everything after it |
| TelnetStream.TelnetStream.ReadOne | rust/src/adapters/telnet_line.rs:250-263 | takes the first undelivered byte, pushed back or from the socket, and leaves the slot empty |
| TelnetStream.TelnetStream.TryConsumeCrTrailer | rust/src/adapters/telnet_line.rs:265-283 | may be called only with the pushback slot empty; swallows an LF or NUL that has arrived and loses no other byte |
| TelnetStream.TelnetStream.SkipIac | rust/src/adapters/telnet_line.rs:285-323 | skips exactly one telnet command, a doubled IAC included, and fails exactly if input ends inside it |
| TelnetStream.TelnetStream.CommitAccepted | rust/src/adapters/telnet_line.rs:194-211 | appends and echoes exactly if the line stays within its cap, else changes nothing |
| TelnetStream.TelnetStream.FlushPendingLatin1 | rust/src/adapters/telnet_line.rs:213-226 | pushes each byte of a dead character as the Latin-1 code point it names, until one does not fit |
| TelnetStream.TelnetStream.PopLastChar | rust/src/adapters/telnet_line.rs:228-248 | removes exactly the last code point of the line, never part of one |
| TelnetStream.TelnetStream.ReadTelnetLine | rust/src/adapters/telnet_line.rs:70-168 | for every byte stream: the line, the echo, the bytes left and the buffer are those of the lookahead specification, resuming from any earlier buffer |
| TelnetStream.TelnetStream.ReadTelnetKey | rust/src/adapters/telnet_line.rs:342-376 | the key, the bytes left and the polls made are those of the key specification, on the shared pushback slot; the key is Backspace exactly for bytes 8 and 127, CtrlC for 3, Enter for 13, a character for 32 to 126, Other for the rest |
| TelnetStream.TelnetStream.SwallowBufferedCsi | rust/src/adapters/telnet_line.rs:408-439 | drops only what has already arrived of an escape sequence, nine bytes at most, and pushes a byte that opens none back |
| TelnetStream.FlushIsReadLine | rust/src/adapters/telnet_line.rs:213-226 | flushing a doomed prefix byte by byte is what the specification does by looking ahead |
| TelnetStream.Latin1ToUtf8 | rust/src/adapters/telnet_line.rs:170-183 | the two bytes are the UTF-8 encoding of the code point with the byte's number |
| TelnetSpec.KeyIsItsByte | rust/src/adapters/telnet_line.rs:342-376 | for every stream and schedule, which key is read follows from one byte of the stream alone, by the numbers of the key table; LF and IAC are never keys |
| TelnetBytes.LineByte | rust/src/adapters/telnet_line.rs:70-168 | with any line so far and any input to come: 13 and 10 end the line, 8 and 127 erase a character if there is one, 255 starts a command, other bytes below 32 vanish, and a character is kept while the line has at most 4096 bytes |
| TelnetBytes.LineChar | rust/src/adapters/telnet_line.rs:96-125 | an encoded character of two to four bytes is kept and echoed, as a star when masked, while its bytes fit the cap |
| TelnetBytes.LineLatin1 | rust/src/adapters/telnet_line.rs:170-226 | a high byte that starts no character stands for the code point of its own number and costs two bytes |
| TelnetBytes.LineEnds | rust/src/adapters/telnet_line.rs:83-94 | when the peer closes, the line so far comes back with any unfinished bytes appended, each as the code point of its number, without echo |
| TelnetBytes.KeyOfByte | rust/src/adapters/telnet_line.rs:342-376 | what each byte in front of a key read does, in numbers, with everything that follows it |
| TelnetBytes.CommandEnds | rust/src/adapters/telnet_line.rs:285-323 | 251 to 254 take one byte more, 250 takes all up to the first 255 240 that no other 255 precedes, every other command is one byte |
| TelnetBytes.CommandIsInvisible | rust/src/adapters/telnet_line.rs:285-323 | negotiations and subnegotiations of any body, before any input, change neither the line nor the key read |
| TelnetBytes.EscapeIsSwallowed | rust/src/adapters/telnet_line.rs:408-439 | after ESC, as far as it has arrived: a bracket, parameters and one byte of 64 to 126, eight after the bracket at most |
| TelnetBytes.CompleteIsRfc3629 | rust/src/adapters/telnet_line.rs:100-125 | the byte strings taken as one character are the nine rows of the table in section 4 of RFC 3629 |
| TelnetBytes.EncodingIsRfc3629 | rust/src/adapters/telnet_line.rs:100-125 | the length, the byte ranges and the code point carried are those of section 3 of RFC 3629 |
| TelnetBytes.PartialCanBeFinished | rust/src/adapters/telnet_line.rs:100-125 | bytes are held back if and only if some bytes to come could make them one character |
| TelnetLaws.LineBounds | rust/src/adapters/telnet_line.rs:83-94 | a line ended by CR or LF has at most 4096 bytes, one ended by the peer closing at most 4102 |
| TelnetLaws.EchoShowsLine | rust/src/adapters/telnet_line.rs:126-163 | whatever is typed and erased, the terminal's row shows exactly the line held (stars when masked) with the cursor at its end |
| TelnetLaws.PrintableLine | rust/src/adapters/telnet_line.rs:96-163 | printable bytes ended by CR come back and are echoed as the text they stand for, or overflow exactly past the cap |
| TelnetLaws.TextOfUtf8 | rust/src/adapters/telnet_line.rs:96-125 | UTF-8 input stands for exactly the code points it encodes, so it is returned unchanged |
| TelnetCancel.SuspendLaw | rust/src/adapters/telnet_line.rs:52-81 | a read that has consumed some bytes and waits for more goes on from the line so far and the bytes held outside it |
| TelnetCancel.ResumeIffNothingHeld | rust/src/adapters/telnet_line.rs:52-81 | abandoning a read that waits for a byte, and restarting it, changes nothing, for all later input, if and only if no bytes were held |
| TelnetCancel.EchoLaw | rust/src/adapters/telnet_line.rs:96-168 | at each write of an echo, the call goes on from the line it has stored and the bytes it holds, or returns the line |
| TelnetCancel.EchoesAreAll | rust/src/adapters/telnet_line.rs:96-168 | while the call goes on, the writes a byte leads to are exactly what is echoed for it, so there is no other place to stop at |
| TelnetCancel.EchoesAreAllAtTheEnd | rust/src/adapters/telnet_line.rs:96-168 | the same of a byte that ends the call, by a line or by overflow, whatever follows |
| TelnetCancel.HeardIs | rust/src/adapters/telnet_line.rs:265-283 | what a caller hears is the line, the next read starting behind an LF or NUL that had arrived after a CR and else right behind the ending |
| TelnetCancel.EchoResumesIff | rust/src/adapters/telnet_listener/mod.rs:230-263 | a read abandoned at such a write, however much of it was sent, resumes for all later input if and only if the write was not that of a line ending and the bytes held would have left the line as it is |
| TelnetCancel.OnlyTheEchoIsLost | rust/src/adapters/telnet_line.rs:194-211 | with nothing held, the screen lacks exactly the unsent part of that one echo |
| TelnetTiming.ScheduleIndependent | rust/src/adapters/telnet_line.rs:126-136 | with no LF after a line's CR, any two arrival schedules give the same lines |
| TelnetTiming.LateTrailersAddLines | rust/src/adapters/telnet_line.rs:270-283 | each LF whose poll comes too early adds exactly one empty line |
| TelnetTiming.TimingMattersIffCrLf | rust/src/adapters/telnet_line.rs:270-283 | lines are independent of timing if and only if no line-ending CR is directly followed by LF |
| TelnetTiming.NoCrLfIsEnough | rust/src/adapters/telnet_line.rs:126-136 | a raw stream without CR LF pairs satisfies that condition |
| TelnetTiming.MaskingOnlyHidesEcho | rust/src/adapters/telnet_line.rs:194-211 | the echo mode never changes what is read |
| TelnetTiming.KeyTimingMattersIffTrap | rust/src/adapters/telnet_line.rs:342-439 | for every stream, keys are independent of timing if and only if no Enter is followed by NUL and no ESC key by a bracket |
| TelnetTiming.NoTrapIsEnough | rust/src/adapters/telnet_line.rs:342-439 | a raw stream without such pairs satisfies that condition |
| TelnetReads.ServeAll | rust/src/adapters/telnet_listener/mod.rs:210-305 | any mixture of line and key reads on one stream is answered as the two specifications say, over the shared pushback slot |
| TelnetReads.ReadAllLines | rust/src/adapters/telnet_line.rs:70-168 | the lines of a whole connection are those of the timing results |
| TelnetReads.ReadAllKeys | rust/src/adapters/telnet_line.rs:342-376 | the keys of a whole connection are those of the timing results, each the one its byte names |
| TelnetReads.KeysAreTheirBytes | rust/src/adapters/telnet_line.rs:342-376 | for every stream and schedule, the keys of a connection match the bytes they were read from one by one, by the numbers of the key table |
| TelnetReads.MixedIndependent | rust/src/adapters/telnet_line.rs:265-283 | a mixture of reads is answered alike under any two schedules, if no byte is left that the next read would notice |
| TelnetReads.RawPairsAreEnough | rust/src/adapters/telnet_line.rs:265-283 | a raw stream with no LF or NUL directly after a CR and no bracket directly after an ESC gives any mixture of reads, and keys alone, the same answers under any two schedules |
| TelnetCancel.KeyResumesIff | rust/src/adapters/telnet_line.rs:342-376 | a key read abandoned and restarted changes nothing, for all later input, if and only if no telnet command was cut short |
| SqliteUsers.SqliteUserRepository.ApplyMembershipPatch | rust/src/adapters/sqlite_user_repository.rs:214-293 | the statements run on the transaction in order, stopping at the first that breaks a constraint |
| SqliteUsers.SqliteUserRepository.ApplyUserPatch | rust/src/adapters/sqlite_user_repository.rs:652-696 | commits the whole patch or, on any failure, leaves the whole database as it was; of its row each counter is added, the later call kept, what the patch sets replaced, and every other column and user as before |
| SqliteUsers.SqliteUserRepository.RecordAuthOutcome | rust/src/adapters/sqlite_user_repository.rs:585-623 | changes exactly the columns the outcome names in one row and nothing else; exactly a missing user is reported |
| SqliteUsers.SqliteUserRepository.RecordPasswordChange | rust/src/adapters/sqlite_user_repository.rs:625-650 | replaces the credentials and clears the forced reset of one row, every other column and row kept; exactly a missing user is reported |
| SqliteUsers.SqliteUserRepository.WriteUser | rust/src/adapters/sqlite_user_repository.rs:299-442 | deleting a user's rows and inserting them one by one, in any order, comes to one replacement, or to the first constraint broken |
| SqliteUsers.SqliteUserRepository.InsertSeed | rust/src/adapters/sqlite_user_repository.rs:197-202 | the slot's rows become exactly the user's, every other slot's stay, folded handles stay unique; each refusal has its cause, in a fixed order, and changes nothing |
| SqliteUsers.SqliteUserRepository.HighestSlot | rust/src/adapters/sqlite_user_repository.rs:718-724 | the highest slot in use, 0 when there is none |
| SqliteUsers.SqliteUserRepository.FindByHandle | rust/src/adapters/sqlite_user_repository.rs:550-563 | loads the user whose stored folded handle is the folded text typed, and nobody exactly if there is none |
| SqliteUsers.SqliteUserRepository.CreateUser | rust/src/adapters/sqlite_user_repository.rs:698-731 | refuses a taken handle, a full table or a hash without salt, each exactly then and changing nothing; else stores in the slot above the highest, and returns, a user with the draft's name, hash, salt, flags and time, unlocked, all counters zero, no last conference, no rows of its own |
| SqliteUsers.MembershipRowWritten | rust/src/adapters/sqlite_user_repository.rs:218-268 | a membership row is updated, created with the defaults or left missing as the patch says, column by column; only a row created for an unknown user is refused; no other row changes |
| SqliteUsers.PointersWritten | rust/src/adapters/sqlite_user_repository.rs:270-293 | over any list of pointer patches, each mark becomes the highest of what was stored and what the list says, the creation time stays or is the first patch's, other pointers are untouched |
| SqliteUsers.PointersAccepted | rust/src/adapters/sqlite_user_repository.rs:270-293 | a list of pointer patches goes through if and only if none reads past its scan mark and each has a row to update or a membership |
| SqliteUsers.PointersRefused | rust/src/adapters/sqlite_user_repository.rs:270-293 | otherwise the first that cannot be written decides the error |
| SqliteUsers.MembershipsInOrder | rust/src/adapters/sqlite_user_repository.rs:690-694 | membership patches run one after the other up to the first that fails, each its row before its pointers |
| SqliteUsers.LoadedIffFits | rust/src/adapters/sqlite_user_repository.rs:444-548 | a user is loaded if and only if it has a salt, its counters are at most 4294967295 and no pointer reads past its scan mark, and then with exactly its rows |
| SqliteUserLaws.PatchSucceedsIffApplicable | rust/src/adapters/sqlite_user_repository.rs:218-293 | a patch goes through if and only if its user exists, no pointer reads past its scan mark and each pointer's membership is there by its turn; all constraints are kept |
| SqliteUserLaws.UpsertKeepsIntegrity | rust/src/adapters/sqlite_user_repository.rs:299-442 | rebuilding a user's rows keeps every key and check constraint |
| SqliteUserLaws.RunKeepsIntegrity | rust/src/adapters/sqlite_user_repository.rs:99-165 | any interleaved run of patches, logins, password changes, seeds and registrations keeps every key and check constraint |
| SqliteUserLaws.ReachableHasIntegrity | rust/src/adapters/sqlite_user_repository.rs:99-165 | in every database reachable from the empty one each pointer has a membership, each membership a user, reads never pass scans, handles are unique |
| SqliteUserLaws.PatchJoins | rust/src/adapters/sqlite_user_repository.rs:218-293 | a patch adds its counters, its posts to each conference whose row is there by then included, and merges call time and pointer marks by maximum |
| SqliteUserLaws.LockedForGood | rust/src/adapters/sqlite_user_repository.rs:612-620 | after any interleaving, an account is locked if and only if it was or some failed login locked it |
| SqliteUserLaws.ResetClearedByPasswordOnly | rust/src/adapters/sqlite_user_repository.rs:585-650 | a reset is due if and only if one was or a login set it, with no password change since |
| SqliteUserLaws.RegisteredAccountRuns | rust/src/adapters/sqlite_user_repository.rs:698-731 | from its registration on, whatever the sessions do, an account is locked if and only if some failed login since locked it, and due a reset if and only if some login since its last password change said so |
| PatchOrder.PatchesAddUp | rust/src/adapters/sqlite_user_repository.rs:652-696 | any list of patches stores the initial totals joined with all that those accepted at their turn bring on the rows then there |
| PatchOrder.PostsAddUp | rust/src/adapters/sqlite_user_repository.rs:236-268 | for each conference, posts stored and posts lost are together those stored before and those the accepted patches report; lost are exactly the ones that find no row |
| PatchOrder.OwnPatchesDecide | rust/src/adapters/sqlite_user_repository.rs:585-731 | logins, password changes, registrations and all other users' commands in between leave a user's lasting totals, posts and marks to that user's own patches |
| PatchOrder.CallsAreCounted | rust/src/adapters/sqlite_user_repository.rs:585-696 | over any interleaving the calls counted are those of the accepted patches |
| PatchOrder.OrderBounds | rust/src/adapters/sqlite_user_repository.rs:218-293 | whatever the order, at least what is ready at once brings is stored, and at most what can ever run does with all rows there |
| PatchesAgree.OrdersAgreeIff | rust/src/domain/user/commands.rs:12-16 | for any patches, every order stores the same totals, posts and marks if and only if those that can ever run merge nothing and create no row beyond those that can run at once, and the posts to each row are settled |
| PatchesAgree.OrdersAgreeIffNothingLeans | rust/src/adapters/sqlite_user_repository.rs:236-268 | if each patch counts something and names each conference once, that is if and only if none has pointers or posts for a row that others of them create |
| PatchesAgree.DependentPatchIsLost | rust/src/adapters/sqlite_user_repository.rs:255-268 | two patches, written out, of which one order stores two calls and the other one |
| PatchesAgree.DependentPostIsLost | rust/src/adapters/sqlite_user_repository.rs:236-252 | two patches, written out, both accepted in both orders, of which one order stores a post and the other loses it |
| SessionPatches.SessionsLoseNothing | rust/src/domain/user/commands.rs:105-111 | in every run in which sessions store what they made of a user loaded at any earlier point, no patch is refused and every post is counted |
| SessionPatches.SessionOrderDoesNotMatter | rust/src/domain/user/commands.rs:12-16 | two such runs with the same patches, in any orders and with anything else in between, leave the same lasting totals, posts and marks |
| UserCommands.PatchMeansTheSame | rust/src/domain/user/commands.rs:262-293 | the database gives the user the domain's `apply_to` defines if and only if the patch is applicable and every counter fits 32 bits |
| UserCommands.MembershipAgrees | rust/src/domain/user/commands.rs:363-412 | one membership patch has the same effect on the tables as on the domain's list |
| UserCommands.ReadableAfterPatch | rust/src/adapters/sqlite_user_repository.rs:444-548 | after a patch the user loads again if and only if every counter fits |
| UserCommands.AuthMeansTheSame | rust/src/domain/user/commands.rs:168-199 | login outcomes mean the same until a counter is at the top of its range |
| UserCommands.PasswordNeedsSalt | rust/src/domain/user/commands.rs:203-214 | a change with a salt is the domain's; one without leaves a record that no longer loads |
| UserCommands.UpsertThenLoad | rust/src/adapters/sqlite_user_repository.rs:299-470 | a user written whole is read back whole, memberships and pointers included |
| UserCommands.RowApplied | rust/src/domain/user/commands.rs:262-293 | the domain's patch on a user, column by column: counters stop at 4294967295, the later call stays, what is left out is kept |
| UserCommands.MembershipApplied | rust/src/domain/user/commands.rs:363-412 | the domain's membership patch: applied, created with the defaults or skipped, in list order |
| UserCommands.PointerAdvanced | rust/src/domain/user/commands.rs:363-412 | a pointer takes the highest marks, the read mark lifting the scan mark, and its creation time is set once |
| UserCommands.AuthApplied | rust/src/domain/user/commands.rs:168-214 | login outcomes and password changes write their own columns only, counters stopping at 4294967295 |
| UserDiff.BetweenReproduces | rust/src/domain/user/commands.rs:215-260 | applying the difference to the stored user gives the session's user if and only if counters and marks grew and no row was taken away |
| UserDiff.BetweenCarries | rust/src/domain/user/commands.rs:215-260 | the difference carries how much each counter grew, never less than nothing, and of the rest exactly what changed |
| UserDiff.BetweenCarriesMemberships | rust/src/domain/user/commands.rs:314-361 | a membership is in the difference if and only if it is new, its flags changed, it has more posts or a pointer of it is new or advanced; and its patch says just that |
| UserDiff.PointersComeBack | rust/src/domain/user/commands.rs:333-341 | only pointers that advanced are carried, and merging them restores all of the session's |
| UserDiff.BetweenIsApplicable | rust/src/domain/user/commands.rs:105-111 | a computed patch is never refused: it creates every membership it adds pointers to |
| UserDiff.SessionIsSaved | rust/src/domain/user/commands.rs:215-260 | a user loaded, changed as sessions do and stored by its patch is loaded again exactly as the session left it |
| UserRepositories.FoldDecidesCase | rust/src/adapters/in_memory_user_repository.rs:55-65 | comparing handles without ASCII case is comparing them folded, and folding moves exactly the letters A to Z up by 32 |
| UserRepositories.InMemoryUserRepository.Find | rust/src/adapters/in_memory_user_repository.rs:55-65 | the first record that satisfies the test |
| UserRepositories.InMemoryUserRepository.FindByHandle | rust/src/adapters/in_memory_user_repository.rs:55-65 | the first user whose handle is the text typed, case apart, and nobody exactly if there is none |
| UserRepositories.InMemoryUserRepository.ApplyCommand | rust/src/adapters/in_memory_user_repository.rs:35-52 | replaces the one record of the slot by the command's result, unless the slot is unknown or the result has no salt |
| UserRepositories.InMemoryUserRepository.CreateUser | rust/src/adapters/in_memory_user_repository.rs:96-111 | refuses a taken handle or a hash without salt, each exactly then; else appends, in the slot above the highest, a user with the draft's name, hash, salt, flags and time, unlocked, all counters zero, no last conference, no memberships |
| UserRepositories.FindAgrees | rust/src/adapters/sqlite_user_repository.rs:550-563 | the folded index and the linear scan find the same user |
| UserRepositories.CreateAgrees | rust/src/adapters/sqlite_user_repository.rs:698-731 | both repositories register the same user in the same slot, or reject alike |
| UserRepositories.RepositoriesAgree | rust/src/adapters/in_memory_user_repository.rs:54-111 | every run of lookups, registrations and commands, each within its exact condition, gets the same answers from both |
| UserRepositories.SeedsMirror | rust/src/adapters/sqlite_user_repository.rs:197-202 | users with distinct slots can be seeded exactly if no two handles are the same case apart, and then the tables mirror the list |
| UserRepositories.OpenSeeded | rust/src/bootstrap.rs:160-190 | both repositories opened on the same users mirror each other, or the database refuses a handle that is there twice |
| UserRepositories.SeededRepositoriesAgree | rust/src/adapters/in_memory_user_repository.rs:25-30 | from such seeds on, every such run gets the same answers from both |
| UserRepositories.CreateKeepsDistinct | rust/src/adapters/in_memory_user_repository.rs:96-111 | slots and folded handles stay pairwise distinct |
| UserRepositories.CreateTakesNextSlot | rust/src/adapters/in_memory_user_repository.rs:96-111 | duplicates are refused exactly when the folded handle is taken; a new slot is one above the maximum |
| StorageCodecs.TimeRoundTripIff | rust/src/adapters/sqlite_user_repository.rs:774-788 | a time survives storage if and only if it is a whole number of seconds in range |
| StorageCodecs.StoredSeconds | rust/src/adapters/sqlite_user_repository.rs:774-788 | what is stored is the number of full seconds towards the epoch, 10^9 nanoseconds each, clamped to 64 bits on both sides |
| StorageCodecs.LaterIsStoredLater | rust/src/adapters/sqlite_user_repository.rs:774-780 | storing is monotone, so the maximum of stored times is the stored maximum |
| StorageCodecs.FlagsRoundTrip | rust/src/adapters/sqlite_user_repository.rs:798-835 | a flag set written in any order is read back whole |
| StorageCodecs.FlagsAreBits | rust/src/adapters/sqlite_user_repository.rs:798-835 | each flag is one bit of the mask, 1 to 128 in the order of the flags |
| MailLocks.InMemoryMailStores.Register | rust/src/adapters/in_memory_mail_stores.rs:52-58 | puts a fresh mutex behind one base and keeps one mutex a base |
| MailLocks.NoDeadlock | rust/src/adapters/in_memory_mail_stores.rs:88-140 | for any number of sessions and any requests, a reachable state with work left has a session that can step, also after any requests were abandoned while waiting or between the mutexes of a pair |
| MailLocks.EveryRunCompletes | rust/src/adapters/in_memory_mail_stores.rs:75-140 | no run exceeds four steps a request, and one that cannot go on has served all that were not abandoned |
| MailLocks.NoStoreHeldTwice | rust/src/adapters/in_memory_mail_stores.rs:102-140 | no mutex is held by two sessions, nor twice by one, abandoned requests included |
| MailLocks.GuardsAreLabelled | rust/src/adapters/in_memory_mail_stores.rs:122-140 | a locked pair carries the source's and the target's own mutex whichever was locked first; a missing source, a missing target and equal bases are each reported as such, in that order |
| MailLocks.LowerIsTakenFirst | rust/src/adapters/in_memory_mail_stores.rs:113-129 | in every reachable state a session on a pair takes the mutex of the lower conference first, and within one conference that of the lower base |
| MailLocks.FindMover | rust/src/adapters/in_memory_mail_stores.rs:113-129 | from a blocked session, following holders upwards in the order of bases reaches one that can step |
| NodePool.NodePool.constructor | rust/src/app/node_pool.rs:29-36 | nodes numbered from one, all idle, all lanes empty |
| NodePool.NodePool.Allocate | rust/src/app/node_pool.rs:67-75 | claims the lowest idle node and no other, or none exactly when all are busy |
| NodePool.NodePool.AttachSignalSender | rust/src/app/node_pool.rs:38-54 | sets one lane; a number out of range is ignored |
| NodePool.NodePool.SignalSender | rust/src/app/node_pool.rs:56-65 | the lane of an existing node, nothing otherwise |
| NodePool.NodePool.Release | rust/src/app/node_pool.rs:77-101 | clears the lane, then frees a connecting or logging-off node; an unknown number and any other status are reported and change no node |
| NodePool.TransitionsAre | rust/src/domain/node.rs:83-100 | the changes of status allowed are the five listed |
| NodePool.RunKeepsInv | rust/src/app/node_pool.rs:42-101 | over every interleaving: one owner a node, idle plus held is the pool's size, an installed sender is its current owner's |
| NodePool.ReleaseNeverFails | rust/src/adapters/telnet_listener/mod.rs:158-165 | a connection's release always succeeds, so discarding its result is safe |
| NodePool.TurnedAwayIffFull | rust/src/adapters/telnet_listener/mod.rs:113-118 | a caller is turned away if and only if every node is held |
| NodePool.NothingLeaks | rust/src/app/node_pool.rs:77-101 | when all connections are over every node is idle and every lane empty |
| ScreenCache.ResolveDefaultMenu | rust/src/adapters/file_screen_repository.rs:184-202 | the loop, in 8-bit arithmetic that cannot underflow, returns `Conf02/Menu<n>.txt` for the highest multiple of five n from 5 to the level that has one, else the plain or the built-in menu |
| ScreenCache.ResolveConferenceMenu | rust/src/adapters/file_screen_repository.rs:228-254 | the same walk below the conference's own directory: the highest such menu up to the caller's level, else `menu.txt`, else `Menu.txt`, else nothing |
| ScreenCache.MenuIsHighestAllowed | rust/src/adapters/file_screen_repository.rs:184-202 | the menu is that of the largest existing multiple of five from 5 to the level, else the plain one, else the built-in one |
| ScreenCache.ConferenceMenuIsHighest | rust/src/adapters/file_screen_repository.rs:228-254 | for all files, conferences and levels: no menu above the caller's level is ever found, the highest at or below it is, and the fallbacks come in order only when there is none |
| ScreenCache.DefaultMenuIsHighest | rust/src/adapters/file_screen_repository.rs:184-202 | the same for the default menu and its built-in text |
| ScreenCache.TopicHelpBytes | rust/src/adapters/file_screen_repository.rs:343-376 | the help of the longest prefix that has a file, and nothing for an unsafe name |
| ScreenCache.CacheIsForever | rust/src/adapters/file_screen_repository.rs:144-226 | what is cached never changes, whatever callers and files do |
| ScreenCache.CallersAgree | rust/src/adapters/file_screen_repository.rs:144-226 | all calls for one screen, racing or not, return the same bytes over the whole run |
| ScreenCache.FirstCachedWasLookedUp | rust/src/adapters/file_screen_repository.rs:144-226 | what is first cached was found by one lookup, callers and files interleaving in any way: the first of the screen's files that could be read when its turn came, or what stands in for them |
| ScreenCache.AnswersWereLookedUp | rust/src/adapters/file_screen_repository.rs:144-226 | every caller is given what such a lookup, its own or another's, came to |
| ScreenCache.UndisturbedLoad | rust/src/adapters/file_screen_repository.rs:172-202 | if no file changes during a lookup, whatever other callers do, it comes to the first file of its paths, or what stands in for it |
| ScreenCache.SettledScreens | rust/src/adapters/file_screen_repository.rs:204-330 | which files each screen has and what stands in for them: the conference's join screen before the shared one, a fixed screen its own file or its built-in text |
| ScreenCache.MenuCachedIsResolved | rust/src/adapters/file_screen_repository.rs:172-202 | the default menu then cached is the one the walk resolves |
| ScreenCache.ConferenceMenuCached | rust/src/adapters/file_screen_repository.rs:204-226 | the conference menu then cached is its own highest menu up to the level, or `menu.txt`, or `Menu.txt`, or the very bytes cached as the default menu |
| ScreenCache.EveryCallReturns | rust/src/adapters/file_screen_repository.rs:204-226 | each step of a call, nested lookup included, brings it nearer to its return |
| ScreenText.NormaliseToCrlf | rust/src/adapters/file_screen_repository.rs:442-456 | the peeking loop computes the normal form |
| ScreenText.NormaliseFront | rust/src/adapters/file_screen_repository.rs:442-456 | 8 10, 13 10, 10 and a lone 13 each become 13 10, and every other byte stays, with anything that follows |
| ScreenText.NormaliseIsFaithful | rust/src/adapters/file_screen_repository.rs:436-456 | CRs and LFs come in pairs only, one for each line ending of the input; all content survives in order, line by line |
| ScreenText.NormalFormIsUnique | rust/src/adapters/file_screen_repository.rs:436-456 | the output is the only text in normal form with the input's lines |
| ScreenText.UnchangedIffNormal | rust/src/adapters/file_screen_repository.rs:436-456 | text is left alone if and only if it is in normal form |
| ScreenText.NormaliseIdempotent | rust/src/adapters/file_screen_repository.rs:442-456 | normalising twice is normalising once |
| SessionTrace.FinalisedForTheChosenReason | rust/src/app/session_driver.rs:181-196 | a session is finalised at most once, last of all, and for the only reason ever chosen |
| SessionTrace.FailureIsTheLastOutput | rust/src/app/session_terminal.rs:49-66 | after a terminal failure nothing is written or read; an active phase can only lose carrier, a chosen reason is kept, an ended session stays ended |
| SessionTrace.EveryReadIsPrompted | rust/src/app/terminal.rs:149-161 | outside the menu every line read directly follows a prompt written and flushed |
| SessionTrace.LogoffIsAnnounced | rust/src/app/session_driver.rs:343-388 | over a working terminal, a session finalised for anything but carrier loss ends with a notice written and flushed after the reason was chosen |
| SessionTrace.ReasonHasItsCause | rust/src/domain/session/mod.rs:67-106 | over a working terminal each logoff has its cause, a verdict or the end of the caller's input, and its reason is the one that cause calls for |
| SessionTrace.ReasonIsTheCauses | rust/src/domain/session/mod.rs:67-106 | in every session the reason of a logoff is the one listed for the verdict or the end of input that brought it about, and there is no other cause |
| SessionTrace.EntryHasItsCause | rust/src/app/login_flow.rs:160-246 | every phase is entered only after the verdict that admits to it; a session ends by itself only at the fifth unknown name |
| SessionTrace.DecidedInItsPhase | rust/src/domain/session/mod.rs:67-106 | every verdict is given in its own phase |
| SessionTrace.FiveNamesAtMost | rust/src/app/login_flow.rs:187-243 | no session counts more than five unknown names, and at five it ends |
| SessionTrace.MenuNeedsAdmission | rust/src/app/session_driver.rs:457-494 | the menu is entered only directly after the admission that was saved first |
| SessionTrace.MenuIsEnteredOnce | rust/src/app/session_driver.rs:457-494 | the menu is entered at most once, and goodbyes and time limits come only after it |
| SessionDriver.SessionDriver.Run | rust/src/app/session_driver.rs:181-196 | for every placement of failures, ends of file and timeouts: finalised exactly once unless ended or dropped, then never |
| SessionDriver.SessionDriver.Drive | rust/src/app/session_driver.rs:198-292 | each outcome or failure is reported with the phase the session is really in |
| SessionDriver.SessionDriver.AskGraphicsPreference | rust/src/app/login_flow.rs:121-149 | goes on identifying after one answered read, else logs off or fails in the right phase |
| SessionDriver.SessionDriver.Identify | rust/src/app/login_flow.rs:160-246 | five unknown names end the session after exactly six reads; every other exit is in its documented phase |
| SessionDriver.SessionDriver.NameTyped | rust/src/app/login_flow.rs:187-243 | each outcome of a typed name moves the session where its verdict says; the fifth unknown one ends it |
| SessionDriver.SessionDriver.Authenticate | rust/src/app/login_flow.rs:248-334 | leaves onboarded, logging off for the verdict's own reason, or dropped, never ended |
| SessionDriver.SessionDriver.Register | rust/src/app/registration_flow.rs:136-192 | ends signed in or logging off, with the phase of any failure |
| SessionDriver.SessionDriver.RunPasswordGate | rust/src/app/registration_flow.rs:194-252 | goes on registering only when verified, else logs off |
| SessionDriver.SessionDriver.ReadHandle | rust/src/app/registration_flow.rs:254-307 | asks at most the configured number of times, and gives up only after that many; not at all when that is zero |
| SessionDriver.SessionDriver.ReadNewPassword | rust/src/app/registration_flow.rs:333-374 | accepts only a password that is not blank and was just typed twice alike |
| SessionDriver.SessionDriver.HandleInterrupt | rust/src/app/registration_flow.rs:436-454 | end of file is carrier loss; a timeout is logged off first, as a timeout or as carrier loss by the policy, so a failed notice keeps its reason |
| SessionDriver.SessionDriver.CompleteRegistration | rust/src/app/registration_flow.rs:456-499 | signs in, or logs off as locked, rejected or lost |
| SessionDriver.SessionDriver.ResetPassword | rust/src/app/password_reset_flow.rs:130-215 | at most three tries and six reads, given up only after all six; only a change leads on, exhaustion is carrier loss |
| SessionDriver.SessionDriver.TryReset | rust/src/app/password_reset_flow.rs:137-206 | a change follows only two entries, just typed, that agree; a failed try costs two reads and is told |
| SessionDriver.SessionDriver.EnterMenuAfterPasswordReset | rust/src/app/session_driver.rs:457-494 | reaches the menu only through a successful entry |
| SessionDriver.SessionDriver.CompleteMenuExit | rust/src/app/session_driver.rs:343-388 | each exit logs off for its own reason, listed one by one, kept even if the goodbye fails |
| MailStore.PathRoundTrip | rust/src/adapters/file_mail_store.rs:187-191 | for every 32-bit number the file name parses back to it, beyond seven digits too |
| MailStore.PathIsPadded | rust/src/adapters/file_mail_store.rs:187-191 | a message's file is named by its number in at least seven digits, zeros first, and `.json` |
| MailStore.NameIsRead | rust/src/adapters/file_mail_store.rs:335-346 | a name is read as a number if and only if it is digits of a 32-bit number and `.json` |
| MailStore.ScanDirForHighest | rust/src/adapters/file_mail_store.rs:264-297 | succeeds if and only if every message file is acceptable, and then finds the highest number, in any listing order |
| MailStore.FileMailStore.Open | rust/src/adapters/file_mail_store.rs:157-174 | any directory opens exactly if each of its message files has at most 73728 bytes, decodes to a mail of this base and its own number, and keeps the subject and body limits; then no message is numbered above the mark |
| MailStore.FileMailStore.Insert | rust/src/adapters/file_mail_store.rs:214-220 | stores and returns a mail whose subject, body, visibility and rest are the draft's, unread, under the next number; no message that was there is overwritten, whatever the directory held when opened |
| MailStore.FileMailStore.Load | rust/src/adapters/file_mail_store.rs:222-235 | the mail last stored under the number, none exactly if there is no such file, an error exactly if it is over a limit or not that mail |
| MailStore.FileMailStore.Save | rust/src/adapters/file_mail_store.rs:237-261 | overwrites a message that is there and loads; each refusal has its own error, exactly then, and changes nothing |
| MailStore.FileMailStore.Reopen | rust/src/adapters/file_mail_store.rs:157-174 | a directory written by a store opens again if and only if all mails are within limits, with the same mark and mails |
| MailStore.PerformAll | rust/src/adapters/file_mail_store.rs:157-261 | any inserts, saves, loads and reopenings on an empty directory answer as the run specification says; a mail posted and not saved over is loaded later with the draft's own fields, exactly if within limits |
| MailStore.MessagesAreMails | rust/src/adapters/file_mail_store.rs:264-297 | the message files of a store are numbered from one to its mark without gaps |
| MailStore.NumbersAreDense | rust/src/adapters/file_mail_store.rs:214-261 | after any run from an empty directory the stored numbers are exactly one to the last |
| MailStore.LastWriteIsStored | rust/src/adapters/file_mail_store.rs:214-261 | what is stored under a number is what the last insert or accepted save of it wrote |
| MailStore.LoadFindsLastWrite | rust/src/adapters/file_mail_store.rs:222-235 | in any run a load returns the mail last written under its number, fails if that is over a limit, and finds nothing exactly if none was written |
| MailStore.PostedIsLoaded | rust/src/adapters/file_mail_store.rs:214-235 | over any run, a load of a posted number, with no save of it in between, finds subject, body, visibility and rest of the draft, unread, if and only if the mail is within 73728, 256 and 65536 bytes |
| MailStore.SavedIsLoaded | rust/src/adapters/file_mail_store.rs:222-261 | over any run, what an accepted save wrote is what later loads find until the next save of it |
| MailStore.InsertsAreCounted | rust/src/adapters/file_mail_store.rs:214-220 | the highest number is the number of inserts, whatever else is done |
| MailStore.NumbersAreNotReused | rust/src/adapters/file_mail_store.rs:214-220 | of two inserts the later takes the larger number, whatever lies between |
| FileListing.FindInAreaIsStableSort | rust/src/adapters/in_memory_file_repository.rs:36-66 | a listing is the stable sort by upload time of the area's visible files, and nothing else is |
| FileListing.AreaListsItsFiles | rust/src/adapters/in_memory_file_repository.rs:36-66 | an area lists each file exactly as often as the catalogue places it in that conference and that area with status available or LC files; oldest first, equal times in catalogue order |
| FileListing.NewFilesAreListed | rust/src/adapters/in_memory_file_repository.rs:75-87 | the same for the files uploaded at or after a date |
| FileListing.HeldFilesAreListed | rust/src/adapters/in_memory_file_repository.rs:68-73 | a conference lists as held each file as often as it is placed there, in any area, with status held for review |
| FileListing.ConferenceListsItsAreas | rust/src/adapters/in_memory_file_repository.rs:49-58 | a conference lists each area as often as the catalogue has it for that conference, by number, equal numbers in catalogue order |
| FileListing.ListHeldIsStableSort | rust/src/adapters/in_memory_file_repository.rs:68-73 | the held files of a conference, stably sorted; none of them is listed in an area |
| FileListing.AreasAreStableSort | rust/src/adapters/in_memory_file_repository.rs:49-58 | a conference's areas are the stable sort by number of those that are its own |
| FileListing.NewFilesAreASuffix | rust/src/adapters/in_memory_file_repository.rs:75-87 | the files new since a date are exactly the tail of the full listing from that date on |
| FileListing.SortCommutesWithFilter | rust/src/adapters/in_memory_file_repository.rs:36-45 | filtering and stable sorting commute for every catalogue |
| FileListing.SortByIsStable | rust/src/adapters/in_memory_file_repository.rs:36-58 | sorting is ascending and keeps equal keys in catalogue order |
| FileListing.StableSortUnique | rust/src/adapters/in_memory_file_repository.rs:36-45 | there is only one stable sort, so the algorithm does not matter |
| ColourStrip.StripAnsiSgr | rust/src/app/colour_terminal.rs:32-52 | the index loop deletes each leftmost complete colour run and nothing else |
| ColourStrip.RunIsDeleted | rust/src/app/colour_terminal.rs:32-52 | 27 91, any digits and semicolons, 109 is deleted before anything that follows |
| ColourStrip.OtherByteIsKept | rust/src/app/colour_terminal.rs:32-52 | a byte at which no such run starts is kept |
| ColourStrip.UnchangedIffNoRun | rust/src/app/colour_terminal.rs:32-52 | output is unchanged if and only if it holds no colour run |
| ColourStrip.SplitIffNotOpen | rust/src/app/colour_terminal.rs:75-82 | stripping distributes over every continuation if and only if no run is open at the cut |
| ColourStrip.RunSurvivesIffSpliced | rust/src/app/colour_terminal.rs:32-52 | the output still holds a colour run if and only if some ESC starts none in the input but would with what follows it stripped |
| ColourStrip.IdempotentIffNotSpliced | rust/src/app/colour_terminal.rs:32-52 | a second pass changes nothing exactly when the first spliced no run together |
| ColourStrip.NestedRunSurvives | rust/src/app/colour_terminal.rs:32-52 | it can: a run inside a run survives one pass |
| ColourStrip.StripKeepsUtf8 | rust/src/app/colour_terminal.rs:32-52 | valid UTF-8 stays valid |
| ColourStrip.ColourTerminal.Write | rust/src/app/colour_terminal.rs:75-82 | passes bytes on whole with colour on, stripped with it off |
| ColourStrip.CutsDoNotMatter | rust/src/app/colour_terminal.rs:75-82 | writes that never cut a run come out as if written at once |
| ColourStrip.ColourGetsThroughIffSpliced | rust/src/app/colour_terminal.rs:75-82 | then colour gets through if and only if the whole output splices a run together |
| ColourStrip.Play | rust/src/app/colour_terminal.rs:62-82 | writes and switches of colour in any order pass on each write as the colour then set says |
| ColourStrip.ColourOffIsColourless | rust/src/app/colour_terminal.rs:75-82 | with colour off and no run cut, the wrapped terminal sees colour if and only if the whole output splices a run together |
| HarnessTelnet.StripIac | comparison/harness/bbsdrive.py:58-87 | the index loop computes the unit-by-unit strip and its events |
| HarnessTelnet.StripUnits | comparison/harness/bbsdrive.py:58-87 | before any further input: data stays, 255 255 is one 255, 251 to 254 take an option byte and are events, other commands are events, and a command cut off at the end is dropped |
| HarnessTelnet.StripSubnegotiation | comparison/harness/bbsdrive.py:73-82 | a subnegotiation of any body vanishes up to its first 255 240 as one event, or takes all the rest |
| HarnessTelnet.ReceivedIsTheData | comparison/harness/bbsdrive.py:153-173 | the stream waited on is all the data up to a close or an empty receive; timeouts add nothing |
| HarnessTelnet.StripIsMonotone | comparison/harness/bbsdrive.py:58-87 | more input only extends both outputs, even from inside a negotiation |
| HarnessTelnet.StripUndoesDoubling | comparison/harness/bbsdrive.py:58-87 | a stream with each 255 doubled is restored, without events |
| HarnessTelnet.Bbs.ReadUntil | comparison/harness/bbsdrive.py:153-173 | the pattern is found if and only if the whole stream's stripped output holds it, however it was cut into chunks |

## Left out

- Transport errors of the socket: reads and writes of the codec either deliver bytes or reach the end of the stream.
- TelnetCancel: where an abandoned read can stop, and what line it leaves, is a function beside the specification; the codec's own loop is modelled to its end only.
- Idle timers and session signals racing a read: they may abandon it at any wait or write, and the model does not say which of them does.
- TelnetReads.MixedIndependent: is a sufficient condition, because reads that start one byte apart can still give the same answers by chance once lines and keys are mixed; for lines alone and keys alone the conditions are exact.
- Whole-second times: sub-second parts are covered by `TimeRoundTripIff` only; commands carry times as integers.
- 64-bit overflow inside SQLite columns, and the saturation of durations at their own maximum: counters in the tables are unbounded, and 32-bit limits show when a user is loaded.
- Columns that the last or the first writer decides (the granted and scan flags, preferences, the last conference, a pointer's creation time) are no part of the totals that orders agree on.
- Columns that no command writes (location, limits, ratios and so on) are one opaque value, and memberships are maps: the order in which rows are stored and listed is not modelled.
- UserRepositories.InMemoryUserRepository.CreateUser: assumes the highest slot is below the 32-bit maximum, because the source adds one to it unchecked.
- UserDiff.BetweenReproduces: takes the order in which the user lists its rows as a parameter, since the model's memberships are maps; every order is covered.
- MailStore.FileMailStore.Insert: assumes the mark is below the 32-bit maximum, for the same reason.
- MailStore.FileMailStore.Reopen: the length of a mail's JSON text is a parameter, and writing it always succeeds and reads back the same; torn writes are not modelled.
- The fairness of mutexes: the lock model shows that some session can step, not which one is served first.
- Aborted connections: every connection of the node pool model that is scheduled long enough reaches its release.
- The menu itself is a nondeterministic sequence of terminal operations; its commands are not modelled.
- What storage, hashing and the domain decide in a session (known names, right passwords, locked accounts) is left open and entered in the trace as a verdict; only the count of unknown names is kept.
- The texts of prompts, banners and built-in screens, apart from the fallback menu.
