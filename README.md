# Collaboration server core in Dafny

This project models the core of a collaborative document editor. The backend has three layers:

- a replica that runs a Raft-style consensus protocol (`DistributedServer`);
- the business rules for users, documents, sharing and concurrent edits (`BusinessLogic`);
- the store that keeps users and documents in one JSON file (`DatabaseInterface`).

Each replica holds a log of commands. Committed commands are applied to the business rules, which read and write the store.

Modules, one per file:

| file | module | models |
|---|---|---|
| `lists.dfy` | `Lists` | Python's `list.remove` and duplicate-free lists |
| `records.dfy` | `Records` | `User`, `Document`, the two maps of the JSON file, and the `to_dict`/`from_dict` round trips |
| `database.dfy` | `Database` | class `DatabaseInterface`: CRUD over the two maps, with the loops that link and unlink documents to users |
| `merge.dfy` | `Merge` | `_merge_diffs`, the line-level three-way merge |
| `rules.dfy` | `Rules` | every business rule as a function of the store, and the sharing invariant `Consistent` |
| `business_logic.dfy` | `Logic` | class `BusinessLogic`: the same rules as methods over the store; each is proved to have the effect its `Rules` function gives |
| `commands.dfy` | `Commands` | the commands of the replicated log and their dispatch (`_apply_command`) |
| `server.dfy` | `Consensus` | class `DistributedServer`: the consensus fields and every handler that updates them |

The model proves that the store keeps a sharing invariant: a user lists a document exactly when the document lists the user, and no list holds a name twice. Every business rule keeps this invariant. It is part of the replica's own invariant `Valid`, so every handler that applies a command keeps the store consistent.

Things the model keeps on purpose, because the code does them:

- A heartbeat at the replica's own term still clears its vote.
- A leader's write method logs the command and then also calls the business rules directly. So the command runs once through the log and once more directly (`RegisterRunTwice`, `CreateRunTwice`).
- `_merge_diffs` keys changes by their position in the diff, but looks them up by the position of the base line.
- `SendHeartbeat` ignores the entries it is sent.
- A vote reply from an older term is still counted.
- A replica with no peers never becomes leader. `_start_election` only takes the all-peers-down shortcut when there are peers (`StartElection`), and vote replies and failed vote requests come only from the peers the election asked, so `HandleVoteReply` and `HandleVotePeerDown` require their `peer` to be in `peers`.

## Model

| member | source | states |
|---|---|---|
| Lists.IndexOf | backend/interactor/business_logic.py:187 | the position `list.remove(x)` cuts at: it holds `x` and no earlier position does |
| Lists.RemoveFirst | backend/database/db_interface.py:186-187 | `list.remove(x)` takes one occurrence of `x` out: the multiset loses exactly one `x` and the length drops by one |
| Lists.RemoveFirstAt | backend/interactor/business_logic.py:187 | `list.remove(x)` removes the first occurrence and keeps the order: elements before it keep their positions, later ones move one place down |
| Lists.RemoveFirstNoDup | backend/interactor/business_logic.py:187-194 | on a duplicate-free list, `remove` leaves no `x` behind and keeps the list duplicate-free |
| Lists.NoDupOnce | backend/database/db_interface.py:144-145 | in a duplicate-free list a member occurs exactly once |
| Records.IsoFormat | backend/database/db_interface.py:46 | the ISO text of a timestamp is a non-empty run of digits |
| Records.FromIsoFormat | backend/database/db_interface.py:56 | only a non-empty run of digits parses as a timestamp |
| Records.IsoRoundTrip | backend/database/db_interface.py:46-56 | `fromisoformat(t.isoformat())` gives back `t` |
| Records.UserFromDict | backend/database/db_interface.py:25-31 | `from_dict` succeeds exactly when `username` and `password` are present and `documents` is absent or a list; it takes all three fields, with `[]` for an absent `documents` |
| Records.UserRoundTrip | backend/database/db_interface.py:18-31 | `User.from_dict(u.to_dict())` is `u` |
| Records.UserToDict | backend/database/db_interface.py:18-23 | the dictionary has exactly the keys `username`, `password` and `documents` |
| Records.DocumentFromDict | backend/database/db_interface.py:50-58 | `from_dict` succeeds exactly when `id`, `title`, `data` and a parseable `last_edited` are present and `users` is absent or a list; it takes all five fields, with `[]` for an absent `users` |
| Records.DocumentRoundTrip | backend/database/db_interface.py:41-58 | `Document.from_dict(d.to_dict())` is `d`, timestamp included |
| Records.DocumentToDict | backend/database/db_interface.py:41-48 | the dictionary has exactly the keys `id`, `title`, `data`, `last_edited` and `users` |
| Database.LinkDocEffect | backend/database/db_interface.py:142-146 | after the linking loop, each listed existing user holds the id once more if it did not hold it; every other user is untouched; no key is added |
| Database.LinkDoc | backend/database/db_interface.py:142-146 | the linking loop adds no user, and leaves a user that already holds the id untouched |
| Database.UnlinkDocFrame | backend/database/db_interface.py:183-187 | the unlinking loop adds no key, keeps names and passwords, and leaves unlisted users untouched |
| Database.UnlinkDocEffect | backend/database/db_interface.py:183-187 | with no name listed twice, each listed user that holds the id loses exactly its first occurrence |
| Database.UnlinkDoc | backend/database/db_interface.py:183-187 | the unlinking loop adds no user, and leaves a user that does not hold the id untouched |
| Database.UserDocs | backend/database/db_interface.py:202-204 | the documents found for a list of ids are stored documents, and there are at most as many as ids |
| Database.UserDocsAllPresent | backend/database/db_interface.py:202-204 | when every id names a document, the result is those documents position by position |
| Database.DatabaseInterface.constructor | backend/database/db_interface.py:68-75 | a fresh file holds no users and no documents |
| Database.DatabaseInterface.CreateUser | backend/database/db_interface.py:88-97 | refuses an existing username and changes nothing; otherwise adds exactly that key |
| Database.DatabaseInterface.GetUser | backend/database/db_interface.py:99-107 | the stored record of the user, or nothing for an unknown name |
| Database.DatabaseInterface.UpdateUser | backend/database/db_interface.py:109-118 | refuses an unknown username; otherwise replaces only that entry |
| Database.DatabaseInterface.DeleteUser | backend/database/db_interface.py:120-129 | refuses an unknown username; otherwise removes only that key; documents are untouched |
| Database.DatabaseInterface.CreateDocument | backend/database/db_interface.py:132-149 | refuses an existing id; otherwise stores the document and links it to its listed users, as `LinkDoc` describes |
| Database.DatabaseInterface.GetDocument | backend/database/db_interface.py:151-159 | the stored document, or nothing for an unknown id |
| Database.DatabaseInterface.UpdateDocument | backend/database/db_interface.py:161-170 | refuses an unknown id; otherwise replaces only that entry |
| Database.DatabaseInterface.DeleteDocument | backend/database/db_interface.py:172-191 | refuses an unknown id; otherwise removes the document and unlinks it from its listed users, as `UnlinkDoc` describes |
| Database.DatabaseInterface.GetUserDocuments | backend/database/db_interface.py:193-206 | empty for an unknown user; otherwise the user's documents in list order, skipping missing ids, no more than the ids listed |
| Merge.CollectChanges | backend/interactor/business_logic.py:301-314 | the change map holds, for each diff position with a "+ " or "- " line, the replacement line or a deletion |
| Merge.MergeLine | backend/interactor/business_logic.py:317-344 | one base line yields at most three lines, each the base line, the conflict marker or a replacement one side recorded |
| Merge.MergeDiffs | backend/interactor/business_logic.py:293-346 | the merged text is the join of the per-line merge of every base line |
| Merge.MergedBound | backend/interactor/business_logic.py:317-344 | the merge has at most three lines per base line |
| Merge.MergedUnchanged | backend/interactor/business_logic.py:342-344 | where neither side recorded a change, the base lines are copied |
| Merge.MergeOfUnmarkedDiffs | backend/interactor/business_logic.py:293-346 | diffs with no "+ "/"- " line at the base positions merge to the joined base |
| Merge.UnmarkedHasNoChanges | backend/interactor/business_logic.py:301-314 | a diff line that is neither "+ " nor "- " records no change at its position |
| Merge.MergedOneSided | backend/interactor/business_logic.py:334-341 | when one side changed nothing, the merge is the other side's edit applied to the base |
| Merge.MergedSymmetric | backend/interactor/business_logic.py:318-333 | swapping the two sides changes the merge only where both replaced a line with different text |
| Merge.MergeLineSymmetric | backend/interactor/business_logic.py:318-333 | for one line, the sides commute unless both replaced it with different text |
| Rules.RegisterUser | backend/interactor/business_logic.py:25-42 | succeeds exactly for a non-empty name and password and a new name; the reply is "Username and password are required.", "Username already exists." or "User registered successfully." accordingly; on failure the store is unchanged and nothing is returned; on success exactly that user is added, with no documents |
| Rules.AuthenticateUser | backend/interactor/business_logic.py:44-55 | succeeds exactly when the user exists and the password matches; "Authentication successful." on success, "User not found." and "Invalid password." otherwise |
| Rules.CreateDocument | backend/interactor/business_logic.py:58-83 | succeeds exactly for an existing user and an unused id; an unknown user gets "User not found." and a taken id "Failed to create document.", with the store unchanged; on success the reply is "Document created successfully.", the reply carries the id, the new document has the given title and time, no content and only its creator as member, no other document changes, and only the creator's record changes, by the id appended to its list |
| Rules.GetDocument | backend/interactor/business_logic.py:85-96 | succeeds exactly when the document exists and lists the requester, then returning that document with "Document retrieved successfully."; "Document not found." for an unknown id and "User does not have access to this document." for a non-member |
| Rules.UpdateDocumentTitle | backend/interactor/business_logic.py:98-113 | a failed access check is returned unchanged with no change to the store; otherwise it succeeds, the document gets the new title and the edit time with its other fields kept, and no user and no other document changes |
| Rules.DeleteDocument | backend/interactor/business_logic.py:115-127 | a failed access check is returned unchanged; otherwise the document is removed, no user is added or removed, names and passwords are kept, users the document did not list are untouched, and with a duplicate-free member list each member that holds the id loses its first occurrence |
| Rules.GetUserDocuments | backend/interactor/business_logic.py:129-138 | succeeds exactly for an existing user; an unknown user gets an empty list |
| Rules.GetUserDocumentsComplete | backend/interactor/business_logic.py:129-138 | under the sharing invariant, the user gets exactly the documents it lists, in order |
| Rules.AddUserToDocument | backend/interactor/business_logic.py:140-171 | succeeds exactly when the adder has access, the target exists and is not yet a member ("User to add not found." and "User already has access to this document." otherwise); on failure nothing changes; the success reply is "User added to document successfully."; on success the document's member list gains the target at the end, the target's list gains the id at the end unless it held it, and no other record or field changes |
| Rules.RemoveUserFromDocument | backend/interactor/business_logic.py:173-199 | succeeds exactly when the remover has access and the target is a member ("User does not have access to this document." otherwise); on success, with "User removed from document successfully.", the document's list becomes exactly `RemoveFirst` of the target on the old list and the target's list exactly `RemoveFirst` of the id when it held it (otherwise no user changes), so the first occurrence goes and the order is kept; no other record or field changes |
| Rules.UpdateDocumentContent | backend/interactor/business_logic.py:202-220 | behind the access check, stores and returns exactly the content sent, with the edit time; the title and members are kept, and no user and no other document changes |
| Rules.UpdateDocumentContentWithMerge | backend/interactor/business_logic.py:222-279 | behind the access check, the reply carries exactly the stored content; an edit made against the current content is stored as sent, any other is stored as the merge of the two diffs; the edit time is set, and no other field, user or document changes |
| Rules.MergeIdempotent | backend/interactor/business_logic.py:242-248 | sending the current content against the current content leaves the text unchanged |
| Rules.EmptyConsistent | backend/database/db_interface.py:68-75 | an empty store satisfies the sharing invariant |
| Rules.RegisterUserKeepsConsistent | backend/interactor/business_logic.py:25-42 | registration keeps the sharing invariant |
| Rules.CreateDocumentKeepsConsistent | backend/interactor/business_logic.py:62-81 | creation keeps the invariant, and the creator lists the new id exactly once |
| Rules.DeleteDocumentKeepsConsistent | backend/database/db_interface.py:172-191 | deletion keeps the invariant, and afterwards no user lists the id |
| Rules.AddUserToDocumentKeepsConsistent | backend/interactor/business_logic.py:150-166 | sharing keeps the invariant; the target is listed once in the document and the id once in the target's list |
| Rules.RemoveUserFromDocumentKeepsConsistent | backend/interactor/business_logic.py:183-195 | unsharing keeps the invariant; the target and the document no longer list each other |
| Rules.UpdateDocumentTitleKeepsConsistent | backend/interactor/business_logic.py:106-109 | a title update keeps the invariant |
| Rules.UpdateDocumentContentKeepsConsistent | backend/interactor/business_logic.py:213-216 | a content update keeps the invariant |
| Rules.UpdateDocumentContentWithMergeKeepsConsistent | backend/interactor/business_logic.py:242-279 | a merging update keeps the invariant |
| Logic.BusinessLogic.constructor | backend/interactor/business_logic.py:20-22 | the business rules run over the store they are given |
| Logic.BusinessLogic.RegisterUser | backend/interactor/business_logic.py:25-42 | leaves the store and returns the reply `Rules.RegisterUser` gives |
| Logic.BusinessLogic.AuthenticateUser | backend/interactor/business_logic.py:44-55 | returns the reply `Rules.AuthenticateUser` gives and changes nothing |
| Logic.BusinessLogic.CreateDocument | backend/interactor/business_logic.py:58-83 | the store's linking loop and the write-back of the user read earlier together have the effect of `Rules.CreateDocument` |
| Logic.BusinessLogic.GetDocument | backend/interactor/business_logic.py:85-96 | returns what `Rules.GetDocument` gives and changes nothing |
| Logic.BusinessLogic.UpdateDocumentTitle | backend/interactor/business_logic.py:98-113 | has the effect and reply of `Rules.UpdateDocumentTitle` |
| Logic.BusinessLogic.DeleteDocument | backend/interactor/business_logic.py:115-127 | has the effect and reply of `Rules.DeleteDocument` |
| Logic.BusinessLogic.GetUserDocuments | backend/interactor/business_logic.py:129-138 | returns what `Rules.GetUserDocuments` gives and changes nothing |
| Logic.BusinessLogic.AddUserToDocument | backend/interactor/business_logic.py:140-171 | has the effect and reply of `Rules.AddUserToDocument` |
| Logic.BusinessLogic.RemoveUserFromDocument | backend/interactor/business_logic.py:173-199 | has the effect and reply of `Rules.RemoveUserFromDocument` |
| Logic.BusinessLogic.UpdateDocumentContent | backend/interactor/business_logic.py:202-220 | has the effect and reply of `Rules.UpdateDocumentContent` |
| Logic.BusinessLogic.UpdateDocumentContentWithMerge | backend/interactor/business_logic.py:222-279 | has the effect and reply of `Rules.UpdateDocumentContentWithMerge`, computing the merge with `MergeDiffs` |
| Commands.Execute | backend/distributed/server.py:494-558 | a command that fails, and any command that only reads, leaves the store unchanged |
| Commands.ExecuteKeepsConsistent | backend/distributed/server.py:494-558 | every command keeps the sharing invariant |
| Commands.ReplayKeepsConsistent | backend/distributed/server.py:482-491 | applying any sequence of commands to a consistent store leaves it consistent |
| Commands.Replay | backend/distributed/server.py:482-491 | a log of read-only commands leaves the store as it was |
| Commands.RegisterRunTwice | backend/distributed/server.py:689-697 | a registration that ran through the log is refused when the leader runs it again directly, and the store stays as it was |
| Commands.CreateRunTwice | backend/distributed/server.py:724-732 | a creation run through the log and again directly creates two documents, and the creator lists both ids |
| Consensus.UpToDateTotal | backend/distributed/server.py:614-622 | of any two logs, at least one is up to date with respect to the other |
| Consensus.UpToDate | backend/distributed/server.py:614-622 | a candidate log counts as up to date only when its last term is at least ours |
| Consensus.UpToDateTransitive | backend/distributed/server.py:614-622 | being up to date is transitive |
| Consensus.CountAtLeast | backend/distributed/server.py:471-474 | no more peers are counted than there are |
| Consensus.CountAtLeastAntitone | backend/distributed/server.py:471-474 | fewer peers hold a higher index |
| Consensus.CountAtLeastAll | backend/distributed/server.py:471-474 | when every peer holds an index, all of them are counted |
| Consensus.CanCommitEarlier | backend/distributed/server.py:465-478 | an entry of the leader's term before a committable one is committable too |
| Consensus.CanCommitWhenAllHold | backend/distributed/server.py:465-478 | an entry of the leader's term that every peer holds is committable |
| Consensus.SetAll | backend/distributed/server.py:290-294 | after setting a value for every listed peer, the keys are the old keys plus the peers, and each listed peer maps to the value |
| Consensus.NotLeaderReply | backend/distributed/server.py:699-707 | a replica that is not the leader refuses the write with no payload, naming the leader it knows of, or with "No leader available. Try again later." when it knows none |
| Consensus.DistributedServer.constructor | backend/distributed/server.py:43-87 | a fresh replica is a follower at term 0, with no vote, no leader, no votes, an empty log, commit and apply indices at -1, and empty peer maps |
| Consensus.DistributedServer.ResetPeerIndices | backend/distributed/server.py:104-107 | every peer gets the given next index and match index -1; other entries are kept |
| Consensus.DistributedServer.BecomeFollower | backend/distributed/server.py:272-283 | the replica becomes a follower at the given term (never lower) with its vote cleared |
| Consensus.DistributedServer.BecomeLeader | backend/distributed/server.py:285-300 | a candidate becomes leader, names itself leader, and sets next index to the log length and match index to -1 for every peer |
| Consensus.DistributedServer.StartElection | backend/distributed/server.py:153-191 | the term rises by exactly one, the replica votes for itself with one vote, and it becomes leader exactly when it has peers and all are down |
| Consensus.DistributedServer.ElectionTimerTick | backend/distributed/server.py:138-151 | a leader, or a replica whose timeout has not passed, changes nothing; otherwise the election of `StartElection` runs: a new term, its own vote and one vote, leadership with peer indices reset exactly when it has peers and all are down, and otherwise a candidate with leader and peer indices kept |
| Consensus.DistributedServer.VoteRequestFor | backend/distributed/server.py:209-217 | the request carries the candidate's id and term and its last log index and term |
| Consensus.DistributedServer.HandleVoteReply | backend/distributed/server.py:221-237 | for a reply from one of its peers, only a candidate counts votes; a higher term makes it a follower; a granted vote adds one; it becomes leader exactly on a majority, naming itself and resetting every peer's next index to the log length and match index to -1; on every other path the leader and the peer indices are kept |
| Consensus.DistributedServer.HandleVotePeerDown | backend/distributed/server.py:251-264 | when a request to one of its peers finally fails, a candidate whose other peers are all down becomes leader, naming itself and resetting the peer indices; nothing else changes |
| Consensus.DistributedServer.HeartbeatFor | backend/distributed/server.py:345-367 | the request carries the leader's id, term and commit index, and the log suffix from the peer's next index, each entry at its position |
| Consensus.DistributedServer.HandleHeartbeatReply | backend/distributed/server.py:371-396 | a higher term makes the leader step down; success with entries moves the peer's next and match index to the last sent entry and then advances the commit index; failure lowers next index by one, never below 0 |
| Consensus.DistributedServer.UpdateCommitIndex | backend/distributed/server.py:458-480 | only a leader commits; the commit index moves to the first later entry of the current term that a majority holds, or stays |
| Consensus.DistributedServer.RequestVote | backend/distributed/server.py:586-612 | a stale term is refused with no change; a newer term makes the replica a follower; the vote is granted exactly when no other candidate holds it this term and the candidate's log is up to date; a refused vote leaves the vote as it was, cleared by a newer term; a vote once cast in a term never changes |
| Consensus.DistributedServer.SendHeartbeat | backend/distributed/server.py:624-658 | a stale term is refused with no change; otherwise the replica follows the sender at its term with its vote cleared, and raises its commit index toward the leader's, never past its last entry; the log is untouched |
| Consensus.DistributedServer.AppendLogEntry | backend/distributed/server.py:560-583 | exactly one entry is appended, at the old log length and the current term; a leader with no peers commits it |
| Consensus.DistributedServer.ApplyCommand | backend/distributed/server.py:494-558 | the store changes as `Commands.Execute` gives for the command |
| Consensus.DistributedServer.ApplyStep | backend/distributed/server.py:482-491 | when an entry is committed but not applied, exactly the next one is applied to the store; otherwise nothing changes |
| Consensus.DistributedServer.Submit | backend/distributed/server.py:679-707 | a leader appends the command and runs it on the store, committing it at once only when it has no peers; any other replica refuses with the leader it knows of, or with "No leader available", and changes nothing |

Every `DistributedServer` method other than the constructor, `ResetPeerIndices` and `ApplyCommand` also ensures `Valid()` and `Progress()`. The constructor and `ResetPeerIndices` ensure `Valid()`. `ApplyCommand` ensures only that the store stays well keyed; `ApplyStep` and `Submit`, which call it, ensure both:

- `Valid()`: `-1 <= lastApplied <= commitIndex < |log|`, `log[i].index == i`, no entry from a future term, and peer indices that point into the log. A candidate or leader has voted for itself, and a leader names itself leader. The store is consistent.
- `Progress()`: the term never decreases, the log only grows, and the commit and apply indices never fall.

## Left out

- gRPC channels and servers, threads, sleeps and retries, the 15-second startup wait, and the peer connectivity probe. Peer replies, the set of peers known to be down, and timer expiry are method parameters instead.
- The replica's `RLock` and the store's lock. Each handler is one atomic method.
- The wait for the commit index in every leader write method. This is blocking concurrency. `Submit` goes straight from appending to running the command.
- The `running` flag and `stop`. The apply step and the election timer are single steps.
- `start` is modelled only for its peer initialisation (`ResetPeerIndices(0)`).
- `uuid4()`, `datetime.now()`, `splitlines` and `difflib.Differ` are inputs (`Env`, `DiffInput`), not computed. The last-write-wins fallback that the merging update takes when the merge raises an exception (business_logic.py:281-291) is not modelled; `MergeDiffs` never raises.
- JSON encoding and decoding of commands. The log holds the decoded `Command`. A command with missing arguments cannot be expressed.
- File I/O of the store. The JSON file is the two maps of `DatabaseInterface`. Records are held as values, and the `to_dict`/`from_dict` round trips are proved separately.
- `Records.IsoFormat`: `isoformat` is modelled as the decimal numeral of a timestamp counted in time units, not as calendar text.
- Records.DocumentFromDict: the Python constructor's `users or []` and `last_edited or now()` defaults for falsy values are not modelled; only a missing `users` key defaults to the empty list.
- The `prev_log_index`/`prev_log_term` values that `_send_append_entries` computes but never sends.
- Commands.Execute: for an unknown operation the source returns nothing and only logs a warning (server.py:554-555); the model returns a failed reply carrying the warning's text and leaves the store unchanged.
- `ReplicateCommand`, which is a stub, and the read-only delegations of the replica (`authenticate_user`, `get_document`, `get_user_documents`). These only call the business rules modelled above.
- The `ValueError` when no `server_id` is given. The constructor takes one.
- The replica's store is passed to the constructor rather than opened from `db_path`.
- Consensus.DistributedServer.constructor: requires the store it is given to satisfy the sharing invariant; the source opens whatever file is at `db_path`, and a file that breaks the invariant is not modelled.
- Records.UserFromDict and Records.DocumentFromDict: only typed JSON values (strings and lists of strings) are decoded; Python's `from_dict` checks no types, so a value of another type that Python would accept, or a falsy `documents` turned into `[]`, is not modelled.
- Logging.
