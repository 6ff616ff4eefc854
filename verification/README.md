# Munode: a Dafny model of the protocol and state logic

Munode is a Mumble-compatible voice server split into a Hub, Edges and a client. This
project models the parts of it that keep state and do arithmetic, and proves what they
keep: the encrypted voice channel, the channel tree, permissions, the session and routing
indexes, and the wire formats. Each asynchronous handler is one atomic step.

| files | what they model |
|---|---|
| `blocks`, `ocb`, `counter`, `packets`, `genuine`, `runs`, `crypt` | OCB2-AES128: the mode over an arbitrary block bijection, the 16-octet counter, rebuilding a nonce from one octet, that only genuine packets are accepted, replay history, whole runs, and the class with its in-place IV edits |
| `forest`, `hubtree`, `channelrequests`, `controlservice` | the channel tree of the Hub: circular-move check, create, edit and recursive removal, sessions of removed channels |
| `treesend` | the two passes that give a client the tree |
| `channelmirror`, `mirrorcontents`, `channelremoval`, `channelmanager` | the Edge's channel records: children lists, links, renaming of ids |
| `aclfold`, `permissions`, `aclmeaning`, `staleness`, `protocolpermissions`, `groups`, `edgeandhub` | the permission fold, what its ACLs mean, the two permission checkers with their caches, what makes cached results wrong, group membership computed two ways, and when an Edge gives the Hub's answer |
| `sessions`, `remoteusers`, `userstate` | indexes beside the session table, routing sets beside the remote users, and user-state requests |
| `framing`, `varints`, `varintforms`, `voice`, `crossedge` | TCP framing under any chunking, three variable-length integer forms, voice packets, and who receives them on the same Edge and on others |

Run `dafny verify dfyconfig.toml` in this directory.

Where a promise does not hold of the code as written, the code is kept, a lemma says exactly
when it does hold (names ending in `Exactly`), and another gives a concrete failing input.
These are the cases found, each with both lemmas:

- A packet that never came is refused when the counter accepted last in its history slot agrees
  with it modulo 65536, or when the slot is untouched and held its mark from the start; at the
  start all slots hold 0 (`Runs.RefusedInRunExactly`, `Packets.SecondPacketRefused`).
- A rename combined with a move checks the new name only among the old siblings
  (`ChannelRequests.NamesDifferExactly`, `ChannelRequests.NamesCanClash`).
- After a move the Hub clears the moved channel's cached permissions but not those below it; for
  users other than superusers those can go stale (`Staleness.MoveKeepsCachesExactly`,
  `Staleness.MoveLeavesStaleResult`).
- When a user enters or leaves a channel, the results cached for that channel can go stale, as the
  groups "in" and "out" depend on it (`Staleness.ChannelChangeExactly`,
  `Staleness.LeavingLeavesStaleResult`).
- The two calculations of group members differ when a channel on the path lacks the group and
  somebody is a member across that gap (`Groups.TreeMembersExactly`, `Groups.GapCanMatter`), and
  the check on a stored group differs for a user both added and removed
  (`Groups.StoredCheckExactly`, `Groups.AddedAndRemoved`).
- The Edge's and the Hub's group checks differ: where the Edge's records carry no groups, as
  those that packages/edge-server/src/cluster/hub-data-sync.ts builds, on every member whose own
  groups do not name the group (`EdgeAndHub.NothingStoredExactly`,
  `EdgeAndHub.MemberMissed`); where both have the same definitions, on users both added and removed,
  on members across a gap, and on users whose own groups name a group that they are not in
  (`EdgeAndHub.DefinedChecksExactly`, `EdgeAndHub.RemovedMemberKept`, `EdgeAndHub.GapMemberMissed`,
  `EdgeAndHub.OwnGroupsDiffer`); and on tokens (`EdgeAndHub.ChecksAgreeExactly`,
  `EdgeAndHub.TokensDiffer`). Wherever the checks differ on the chain of a channel, some ACLs make
  the answers differ (`EdgeAndHub.AnswersAgreeExactly`).
- The per-channel index of the Hub never drops a session that leaves channel 0
  (`Sessions.RootSessionsExactly`, `Sessions.RootSessionsStale`), and reporting a known session
  again can leave stale entries (`Sessions.ReportAgreesExactly`, `Sessions.ReportedTwice`).
- A refused user-state request can leave the user moved, with nobody told
  (`UserState.RefusedUnchangedExactly`, `UserState.RefusedButMoved`).
- Adding a remote user who is tracked already can leave the old Edge behind
  (`RemoteUsers.AddExactly`, `RemoteUsers.AddedTwice`).
- On an Edge, a channel linked to itself and renamed keeps its old number in its links
  (`ChannelMirror.RenameIsomorphicExactly`, `ChannelManagers.SelfLinkSurvivesRename`), a renaming
  to the next free number is overwritten by the next creation
  (`ChannelManagers.RenameKeepsFreshExactly`, `ChannelManagers.CreateOverwritesRenamed`), and links
  to a removed channel stay (`ChannelManagers.RemoveLeavesLinksExactly`,
  `ChannelManagers.RemovedStillLinked`).
- The writers and readers of base-128 numbers fit together only below 2^31
  (`Varints.ClientRoundTripExactly`, `Varints.CommonRoundTripExactly`, `Varints.HighNumbersLost`).
- The client's packet parser and the Edge's forwarding form do not fit together: only senders
  below 128 are recovered (`Voice.ForwardReadExactly`), and this client's own packets carry one
  number too many for the parser, so that the audio comes out only when the forwarded sender and
  the speaker's session happen to be read as one number (`Voice.ForwardedAudioExactly`; it fails in
  `Voice.ForwardShifts` and succeeds in `Voice.ForwardSurvives`).

The circular-move check does not detect moves of the root (`HubTree.RootNotDetected`); its only
caller never passes channel 0, so no request shows it.

## Model

| member | source | states |
|---|---|---|
| Blocks.DoubleInPlace | packages/common/src/crypto/ocb2-aes128.ts:355-361 | the in-place byte loop leaves S2 of the block that was there |
| Blocks.TripleInPlace | packages/common/src/crypto/ocb2-aes128.ts:366-372 | the in-place loop leaves S3 of the block that was there |
| Blocks.XorInto | packages/common/src/crypto/ocb2-aes128.ts:346-350 | sixteen bytes are overwritten with the exclusive or, the rest stays |
| Blocks.S2IsTimesX | packages/common/src/crypto/ocb2-aes128.ts:355-361 | S2 is multiplication by x in GF(2^128) with the reduction polynomial of 0x87, coefficient by coefficient |
| Blocks.S3IsTimesXPlusOne | packages/common/src/crypto/ocb2-aes128.ts:366-372 | S3 is multiplication by x + 1 in the same field |
| Blocks.XorIsPlus | packages/common/src/crypto/ocb2-aes128.ts:346-350 | exclusive or is addition in the field |
| Blocks.S2Injective | packages/common/src/crypto/ocb2-aes128.ts:355-361 | different blocks have different doubles |
| Ocb.DecryptUndoesEncrypt | packages/common/src/crypto/ocb2-aes128.ts:249-341 | for every block bijection, nonce and plaintext of any length, decryption gives the plaintext back and computes the tag that encryption computed |
| Ocb.OpenUndoesSeal | packages/common/src/crypto/ocb2-aes128.ts:249-341 | the same from any offset and checksum on |
| Ocb.EncryptUndoesDecrypt | packages/common/src/crypto/ocb2-aes128.ts:249-341 | the converse: encrypting what decryption gives is the ciphertext again, with the same tag |
| Ocb.SealUndoesOpen | packages/common/src/crypto/ocb2-aes128.ts:249-341 | the same from any offset and checksum on |
| Ocb.LengthInBits | packages/common/src/crypto/ocb2-aes128.ts:278-281 | the block that stands for the length of the last block is that length in bits, as a 128-bit number |
| Ocb.LastCipherBytes | packages/common/src/crypto/ocb2-aes128.ts:277-286 | closed form of every byte of the last, possibly partial, block |
| Ocb.CipherBlock | packages/common/src/crypto/ocb2-aes128.ts:255-275 | closed form of the i-th ciphertext block: masked on both sides with the nonce's block times 2^(i+1) |
| Ocb.TagInClosedForm | packages/common/src/crypto/ocb2-aes128.ts:249-292 | the tag encrypts the sum of all blocks masked with 3 times a power of two times the nonce's block |
| Ocb.EncryptInto | packages/common/src/crypto/ocb2-aes128.ts:249-292 | the buffer-filling loop computes the recursive form of encryption |
| Ocb.DecryptInto | packages/common/src/crypto/ocb2-aes128.ts:297-341 | the buffer-filling loop computes the recursive form of decryption |
| Counter.IncrementFrom | packages/common/src/crypto/ocb2-aes128.ts:87-95 | the carry loop increments the octets from a place on, with wrap-around of each octet |
| Counter.DecrementFrom | packages/common/src/crypto/ocb2-aes128.ts:168-174 | the borrow loop decrements the octets from a place on |
| Counter.IncCounts | packages/common/src/crypto/ocb2-aes128.ts:87-95 | carrying is adding one to the little-endian counter, for every integer and width |
| Counter.DecCounts | packages/common/src/crypto/ocb2-aes128.ts:168-174 | borrowing is subtracting one |
| Counter.LeSame | packages/common/src/crypto/ocb2-aes128.ts:87-95 | two counters have the same octets exactly when they agree modulo 256^k |
| Packets.Rebuilds | packages/common/src/crypto/ocb2-aes128.ts:131-201 | from one octet the receiver rebuilds the sender's whole nonce at every distance in the window, with carry or borrow across all octets and the right late and lost counts |
| Packets.DistanceDecides | packages/common/src/crypto/ocb2-aes128.ts:131-201 | an octet is refused exactly when it names no distance in the window |
| Packets.RebuildsExactly | packages/common/src/crypto/ocb2-aes128.ts:131-201 | the exact reach: distances -29 to -1 and 1 to 127, and 128 when the low octet is below 128, up to whole turns of the counter |
| Packets.DecryptsWithinWindow | packages/common/src/crypto/ocb2-aes128.ts:115-244 | the complete outcome of a packet at any distance in the window: plaintext, IV, history and statistics, or refusal when its history slot collides |
| Packets.UnseenPacketRefused | packages/common/src/crypto/ocb2-aes128.ts:38-41 | with an all-zero history a packet that is not the next one is refused exactly when the second octet of its counter is 0 |
| Packets.SecondPacketRefused | packages/common/src/crypto/ocb2-aes128.ts:38-41 | from a zero IV and a zero history, with the first packet lost, the second is refused |
| Genuine.NonceBytes | packages/common/src/crypto/ocb2-aes128.ts:86-102 | byte i of the nonce under counter n is n / 256^i modulo 256 |
| Genuine.NonceSameExactly | packages/common/src/crypto/ocb2-aes128.ts:86-102 | two counters have the same nonce block exactly when they agree modulo 256^16 |
| Genuine.NoNonceBlockTwice | packages/common/src/crypto/ocb2-aes128.ts:131-224 | over a run the blocks that are encrypted as nonces repeat only when the 128-bit counter has turned around |
| Genuine.PacketLayout | packages/common/src/crypto/ocb2-aes128.ts:82-110 | a packet is the counter modulo 256, three bytes of tag and a ciphertext as long as the plaintext |
| Genuine.PacketBlock | packages/common/src/crypto/ocb2-aes128.ts:255-275 | every full block of a packet by the counter it was sent under |
| Genuine.AcceptsExactly | packages/common/src/crypto/ocb2-aes128.ts:115-244 | a packet of any bytes is accepted with a plaintext exactly when it is the packet of that plaintext under a counter in the window whose slot is free |
| Genuine.AcceptedIsGenuine | packages/common/src/crypto/ocb2-aes128.ts:203-218 | so whatever is accepted is what an encryption in the window gives |
| Genuine.ChangedTagRefused | packages/common/src/crypto/ocb2-aes128.ts:215-218 | a genuine packet in the window with any of its three tag bytes changed is refused, and IV, history and statistics stay |
| Runs.StepKeepsTrack | packages/common/src/crypto/ocb2-aes128.ts:115-244 | every call keeps the invariant that the slot of each accepted counter within 256 of the current one holds its second octet |
| Runs.RunTracked | packages/common/src/crypto/ocb2-aes128.ts:115-244 | over a run of any length every accepted nonce stands for an integer counter, all different, and every history slot holds the mark of the counter accepted last in it |
| Runs.NoNonceTwice | packages/common/src/crypto/ocb2-aes128.ts:131-224 | in any run of arbitrary packets a nonce is accepted again only if the run is long enough to turn the 128-bit counter around |
| Runs.RefusedInRunExactly | packages/common/src/crypto/ocb2-aes128.ts:149-199 | after any run of arbitrary packets, a genuine packet in the window is accepted with its plaintext or refused, and refused exactly when it is not the next one and the counter accepted last in its slot agrees with it modulo 65536, or the untouched slot held its mark from the start |
| Runs.RefusedChangesNothing | packages/common/src/crypto/ocb2-aes128.ts:203-222 | a refused packet leaves IV, history and statistics as they were |
| Runs.InOrderDelivers | packages/common/src/crypto/ocb2-aes128.ts:82-244 | packets sent in order from a shared IV, with any refused packets in between, all decrypt to the originals and keep both counters equal |
| Crypt.OCB2AES128.SetKey | packages/common/src/crypto/ocb2-aes128.ts:63-77 | key and IVs of the right lengths are taken over, others are refused without change |
| Crypt.OCB2AES128.SetDecryptIV | packages/common/src/crypto/ocb2-aes128.ts:405-410 | an IV of the right length replaces the receiver's, the history stays |
| Crypt.OCB2AES128.Encrypt | packages/common/src/crypto/ocb2-aes128.ts:82-110 | the IV advances by one and the packet is the specified one |
| Crypt.OCB2AES128.Resynchronize | packages/common/src/crypto/ocb2-aes128.ts:131-201 | the in-place edits of the IV make it the guessed nonce, or leave it when refused |
| Crypt.OCB2AES128.Decrypt | packages/common/src/crypto/ocb2-aes128.ts:115-244 | with all its in-place edits and restores the method does exactly one specified step |
| HubTree.CircularOnTree | packages/hub-server/src/permission-checker.ts:414-444 | on a tree the check is true exactly when the new parent is the channel or below it |
| HubTree.RootNotDetected | packages/hub-server/src/permission-checker.ts:425-441 | for channel 0 the check is false although every channel is below it |
| HubTree.HubPermissionChecker.HasCircularReference | packages/hub-server/src/permission-checker.ts:414-444 | ends on every parent map and finds the channel exactly when climbing from the new parent meets it |
| HubTree.HubPermissionChecker.GetChannelInfo | packages/hub-server/src/permission-checker.ts:295-323 | gives the table's row, from the cache or the table, and keeps the cache right |
| HubTree.HubPermissionChecker.HasDuplicateSiblingName | packages/hub-server/src/permission-checker.ts:449-462 | true exactly when another child of the parent has that name up to case |
| HubTree.HubPermissionChecker.ClearCacheForChannel | packages/hub-server/src/permission-checker.ts:404-407 | just that channel leaves the cache of channels |
| HubTree.HubDatabase.CreateChannel | packages/hub-server/src/database.ts:730-753 | a fresh number gets the row |
| HubTree.HubDatabase.UpdateChannel | packages/hub-server/src/database.ts:758-778 | only the given columns of one row change |
| HubTree.HubDatabase.DeleteChannel | packages/hub-server/src/database.ts:783-789 | one row goes; deleting the root is refused and changes nothing |
| HubTree.HubDatabase.GetChildChannels | packages/hub-server/src/database.ts:794-799 | all rows with that parent, each once |
| Forest.MoveKeepsTree | packages/hub-server/src/permission-checker.ts:414-444 | a move keeps the parent links a tree exactly when the new parent is not the channel or below it |
| Forest.NoCycle | packages/hub-server/src/permission-checker.ts:414-444 | in a tree no channel but the root is above its own parent |
| Forest.AddKeepsTree | packages/hub-server/src/control-service.ts:671-752 | a new channel under an existing one keeps a tree |
| Forest.RemoveKeepsTree | packages/hub-server/src/control-service.ts:1211-1240 | taking out a channel with all below it leaves a tree |
| Forest.AllSubtrees | packages/hub-server/src/control-service.ts:1211-1219 | a subtree is its top and the subtrees of the children |
| Forest.SiblingsDisjoint | packages/hub-server/src/control-service.ts:1211-1219 | the subtrees of two children do not meet, so nothing is collected twice |
| ChannelRequests.CreateKeepsTree | packages/hub-server/src/control-service.ts:671-752 | an accepted or refused creation keeps the tree |
| ChannelRequests.EditKeepsTree | packages/hub-server/src/control-service.ts:753-917 | an edit with or without a move keeps the tree |
| ChannelRequests.RemoveKeepsTable | packages/hub-server/src/control-service.ts:1144-1240 | a removal deletes exactly the subtree and leaves a tree |
| ChannelRequests.CreateDone | packages/hub-server/src/control-service.ts:671-752 | after an accepted creation there is one new row with the requested name and parent, or the root, inheriting ACLs, and all else is as before |
| ChannelRequests.EditDone | packages/hub-server/src/control-service.ts:753-917 | after an accepted edit the row has the requested name and parent, or its old ones, and its old inheritance, the parent links are those before with the one moved, and all else is as before |
| ChannelRequests.RemoveDone | packages/hub-server/src/control-service.ts:1144-1240 | after an accepted removal a row is left exactly if it was not the channel or below it, as it was |
| ChannelRequests.CreateAcceptedExactly | packages/hub-server/src/control-service.ts:671-752 | when a creation is accepted, by name, parent, permission and siblings |
| ChannelRequests.EditAcceptedExactly | packages/hub-server/src/control-service.ts:753-917 | when an edit is accepted: permission, a free new name among the old siblings, and for a move a parent that is there, allowed, not below, and free of the old name |
| ChannelRequests.RemoveAcceptedExactly | packages/hub-server/src/control-service.ts:1144-1210 | when a removal is accepted: a channel that is there, is not the root, and may be written |
| ChannelRequests.CreateRefusalsTrue | packages/hub-server/src/control-service.ts:671-735 | each refusal of a creation gives a reason that holds |
| ChannelRequests.EditRefusalsTrue | packages/hub-server/src/control-service.ts:753-895 | each refusal of an edit gives a reason that holds |
| ChannelRequests.RunKeepsTree | packages/hub-server/src/control-service.ts:650-1260 | over every sequence of create, edit and remove requests, accepted or refused, the links stay a tree rooted at 0 |
| ChannelRequests.NewHubKeepsTree | packages/hub-server/src/database.ts:961-975 | in particular on a new Hub |
| ChannelRequests.NamesDifferExactly | packages/hub-server/src/control-service.ts:753-917 | an accepted edit leaves no sibling of the same name exactly when the name that was checked was checked against the new siblings |
| ChannelRequests.NamesCanClash | packages/hub-server/src/control-service.ts:753-917 | a rename together with a move that ends beside a channel of the same name |
| ControlService.HubControlService.HandleChannelState | packages/hub-server/src/control-service.ts:650-917 | the handler does the specified creation or edit on the table, and cached parents stay right |
| ControlService.HubControlService.HandleCreate | packages/hub-server/src/control-service.ts:671-752 | all checks, then the new row under a fresh number; all cached permissions stay right |
| ControlService.HubControlService.HandleEdit | packages/hub-server/src/control-service.ts:753-917 | all checks, then the changed columns, and just that channel's entries cleared from all three caches when a parent is given |
| ControlService.HubControlService.CollectChannels | packages/hub-server/src/control-service.ts:1211-1219 | the recursion ends and lists each channel of the subtree once |
| ControlService.HubControlService.RelocateSessions | packages/hub-server/src/control-service.ts:1222-1230 | session by session: one in a removed channel gets exactly the removed root's parent, every other is unchanged, none is added or lost; indexes that were right stay right |
| ControlService.HubControlService.HandleChannelRemove | packages/hub-server/src/control-service.ts:1144-1240 | subtree deleted with its entries in all three caches; the sessions that were in it have exactly the old parent of the channel, and all others are unchanged; cached permissions that were right stay right |
| Permissions.CreationKeepsCorrect | packages/hub-server/src/control-service.ts:736-746 | a new channel changes no cached answer |
| Permissions.RemovalKeepsCorrect | packages/hub-server/src/control-service.ts:1233-1240 | with the entries of removed channels cleared, all other cached results and lists stay right |
| ControlService.SessionsSurvive | packages/hub-server/src/control-service.ts:1211-1240 | after a removal no session that was in an existing channel is in a missing one |
| TreeSend.SendChannelTree | packages/edge-server/src/handlers/message-handlers.ts:162-251 | the two loops send the specified messages in order |
| TreeSend.TwoPassesSafeExactly | packages/edge-server/src/handlers/message-handlers.ts:155-251 | no message asks the receiver to move a channel under itself or its own descendant, for any order, exactly when what is being sent is a tree |
| TreeSend.TwoPassesDeliver | packages/edge-server/src/handlers/message-handlers.ts:132-251 | afterwards the receiver has the server's parent for every listed channel, the root where that is missing or the channel itself, and its own links otherwise |
| TreeSend.OnePassUnsafe | packages/edge-server/src/handlers/message-handlers.ts:155-161 | sending parents at once can ask for such a move |
| ChannelMirror.CreateKeepsGood | packages/edge-server/src/models/channel.ts:40-59 | a creation under an unused number keeps lists, tree and links right exactly when the parent exists |
| ChannelMirror.UpdateKeepsGood | packages/edge-server/src/models/channel.ts:154-181 | an update keeps them right exactly when it does not move, or moves under an existing channel that is not below |
| ChannelMirror.RemovedGood | packages/edge-server/src/models/channel.ts:64-92 | taking out exactly the subtree keeps children lists and tree right |
| ChannelMirror.RemovedAt | packages/edge-server/src/models/channel.ts:64-92 | what every surviving record is after a removal |
| ChannelMirror.LinkJoins | packages/edge-server/src/models/channel.ts:337-368 | linking joins just these two channels, both ways, in table and records |
| ChannelMirror.UnlinkParts | packages/edge-server/src/models/channel.ts:373-393 | unlinking parts just these two |
| ChannelMirror.RenameIsomorphicExactly | packages/edge-server/src/models/channel.ts:186-245 | renaming to an unused number writes the new number for the old throughout tree and links, and changes nothing else, exactly when the channel is not linked to itself |
| ChannelMirror.RenameKeepsGood | packages/edge-server/src/models/channel.ts:186-245 | renaming to an unused number keeps lists, tree and links right exactly for a channel other than the root that is not linked to itself |
| MirrorContents.CreateDone | packages/edge-server/src/models/channel.ts:40-59 | every field of every record after a creation, on any records |
| MirrorContents.UpdateDone | packages/edge-server/src/models/channel.ts:154-181 | the given fields are set, and the others and the other records keep theirs |
| MirrorContents.UpdateLists | packages/edge-server/src/models/channel.ts:160-175 | who is in which children list after an update: the old parent forgets the channel, the new one lists it |
| MirrorContents.RemoveDone | packages/edge-server/src/models/channel.ts:64-92 | which records survive a removal, field by field, and that the parent's list loses just one place |
| MirrorContents.LinkDone | packages/edge-server/src/models/channel.ts:337-393 | linking and unlinking change no other field and no other channel's links |
| MirrorContents.RenameDone | packages/edge-server/src/models/channel.ts:186-245 | every record is found under its new number with the same name, and all that it names is renamed |
| ChannelManagers.ChannelManager.CreateChannel | packages/edge-server/src/models/channel.ts:40-59 | the record gets the counter's number and stands in the parent's list |
| ChannelManagers.ChannelManager.RemoveChannel | packages/edge-server/src/models/channel.ts:64-92 | on any records where nothing that the channel leads to leads back to itself, exactly what the lists lead to is removed, and each survivor's list loses just the removed channels that named it as parent; on good records that is the subtree |
| ChannelRemoval.ReachAfter | packages/edge-server/src/models/channel.ts:75-78 | removing earlier children changes nothing about what a later one leads to |
| ChannelRemoval.TreeEnds | packages/edge-server/src/models/channel.ts:75-78 | on a tree with right lists no recursion leads back, so removal always ends |
| ChannelRemoval.RemovalOnTree | packages/edge-server/src/models/channel.ts:64-92 | on a tree with right lists, following lists removes exactly the subtree and shortens one list |
| ChannelManagers.ChannelManager.UpdateChannel | packages/edge-server/src/models/channel.ts:154-181 | lists follow the parent, then the fields are assigned |
| ChannelManagers.ChannelManager.UpdateChannelId | packages/edge-server/src/models/channel.ts:186-245 | the step-by-step rewriting of records and link sets gives the specified state |
| ChannelManagers.ChannelManager.LinkChannels | packages/edge-server/src/models/channel.ts:337-368 | the specified link state, or no change when a channel is missing |
| ChannelManagers.ChannelManager.UnlinkChannels | packages/edge-server/src/models/channel.ts:373-393 | the specified unlinked state, or no change when a channel or link set is missing |
| ChannelManagers.RunKeepsGood | packages/edge-server/src/models/channel.ts:40-393 | lists, tree and links stay right over every run of careful calls |
| ChannelManagers.RenameKeepsFreshExactly | packages/edge-server/src/models/channel.ts:186-245 | new numbers stay unused through a renaming exactly when it picks one below the counter |
| ChannelManagers.CreateOverwritesRenamed | packages/edge-server/src/models/channel.ts:40-46 | renaming to the counter's number and creating overwrites the renamed channel |
| ChannelManagers.SelfLinkSurvivesRename | packages/edge-server/src/models/channel.ts:217-240 | a channel created, linked to itself and renamed, with its old number still in its links |
| ChannelManagers.RemovedStillLinked | packages/edge-server/src/models/channel.ts:64-92 | a link to a channel that has been removed |
| ChannelManagers.RemoveLeavesLinksExactly | packages/edge-server/src/models/channel.ts:64-92 | a removal leaves no link to a missing channel exactly when nothing removed was linked |
| AclFold.FoldAcls | packages/hub-server/src/permission-checker.ts:153-190 | the inner loop applies the matching ACLs of one channel in order |
| AclFold.FoldMasks | packages/hub-server/src/permission-checker.ts:166-188 | the two flags and the mask after one matching ACL |
| AclFold.WalkExplained | packages/hub-server/src/permission-checker.ts:117-205 | until the cut-off, mask and flags are each decided by the last event in chain order that names the bit |
| AclFold.CutExactlyWhenBlocked | packages/hub-server/src/permission-checker.ts:192-198 | the walk is cut off exactly when after some channel the last events leave traverse and write both off |
| AclFold.LastWriterWins | packages/hub-server/src/permission-checker.ts:117-205 | a bit is granted exactly when the walk is not blocked and the last reset, allow or deny naming the bit, deny beating allow, grants it |
| AclMeaning.OnlyRelevantMatters | packages/hub-server/src/permission-checker.ts:153-172 | ACLs for another user's number or no one, and ACLs that do not apply here or to subchannels, can be added or taken out anywhere without changing the answer |
| AclMeaning.UserAclExactly | packages/hub-server/src/permission-checker.ts:153-172 | an ACL for a user number, alone on a chain, that denies traverse shuts out exactly the user of that number, if it is above 0, where it applies |
| AclMeaning.GroupAclExactly | packages/hub-server/src/permission-checker.ts:153-172 | the same for a group: exactly those whom its name means, where it applies |
| AclMeaning.HubGroups | packages/hub-server/src/permission-checker.ts:210-262 | whom each kind of group name means to the Hub |
| AclMeaning.ListExactly | packages/hub-server/src/permission-checker.ts:117-205 | the answer from the ACLs of one channel of the chain, bit by bit: given by one of them and not denied from there on; nothing when traverse and write are both off; the default after a reset further down |
| AclMeaning.SuperUserExactly | packages/hub-server/src/permission-checker.ts:131-199 | with no ACLs, those in the groups "admin" and "superuser" have everything, without the root's own permissions elsewhere, and all others the default |
| AclMeaning.SuperUserAlways | packages/hub-server/src/permission-checker.ts:117-136 | a superuser has the same with any ACLs, and nobody anything on a missing channel |
| AclMeaning.MaskValues | packages/protocol/src/permission.ts:12-64 | the masks as integers: default, all, and all but the root's own |
| AclMeaning.GrantsExactly | packages/hub-server/src/permission-checker.ts:99-112 | write stands in for every permission but those of bits 3 and 8 |
| Permissions.ChainIsAncestry | packages/hub-server/src/permission-checker.ts:277-290 | the chain is the channel and all above it, without the root |
| Permissions.ChainOrdered | packages/hub-server/src/permission-checker.ts:277-290 | the chain goes down from the top level by parent links, ends with the channel, and has none twice |
| Permissions.OnlyTheChainMatters | packages/hub-server/src/permission-checker.ts:117-205 | ACLs of channels off the chain do not change an answer |
| Permissions.RootAclsDoNotReachDown | packages/hub-server/src/permission-checker.ts:277-290 | the root's ACLs never change the answer for another channel |
| Permissions.ClearingRestores | packages/hub-server/src/permission-checker.ts:389-408 | after ACL lists change, clearing every channel with one of them on its chain makes all caches right again |
| Permissions.MoveChangesOnlySubtree | packages/hub-server/src/control-service.ts:907-917 | a move changes answers only at the moved channel and below |
| Staleness.MoveKeepsCachesExactly | packages/hub-server/src/control-service.ts:907-917 | for a move to another parent, clearing the moved channel alone is enough, whatever the ACLs are, exactly when every result cached below it is a superuser's |
| Staleness.MoveKeepsCaches | packages/hub-server/src/control-service.ts:907-917 | in that case any right caches stay right |
| Staleness.MoveLeavesStaleResult | packages/hub-server/src/control-service.ts:907-917 | a move after which the result cached for a channel below is wrong |
| Staleness.ChannelChangeExactly | packages/hub-server/src/permission-checker.ts:225-231 | an answer survives its user's change of channel, whatever the ACLs are, exactly for superusers and for channels neither entered nor left |
| Staleness.LeavingLeavesStaleResult | packages/hub-server/src/permission-checker.ts:225-231 | a user leaves a channel, and the answer for it changes |
| Permissions.HubAclChecker.BuildChannelChain | packages/hub-server/src/permission-checker.ts:277-290 | the loop ends and gives the chain from the top down |
| Permissions.HubAclChecker.GetChannelACLs | packages/hub-server/src/permission-checker.ts:328-353 | the channel's list, cached or not |
| Permissions.HubAclChecker.CalculatePermission | packages/hub-server/src/permission-checker.ts:117-205 | the session's cached result if there is one, else the uncached answer; so whatever was asked and cleared before, the answer is the uncached one as long as sessions keep their users |
| Permissions.HubAclChecker.HasPermission | packages/hub-server/src/permission-checker.ts:99-112 | that answer grants the permission, or write and it is neither speak nor whisper |
| Permissions.HubAclChecker.ClearCacheForUser | packages/hub-server/src/permission-checker.ts:374-384 | just that session's results go; the rest stays right |
| Permissions.HubAclChecker.ClearCacheForChannel | packages/hub-server/src/permission-checker.ts:389-408 | just that channel's entries go; the rest stays right |
| ProtocolPermissions.PermissionManager.CalculatePermission | packages/protocol/src/permission.ts:93-183 | the session's cached result if there is one, else the uncached answer for any channel object; so the uncached one as long as sessions keep their users and callers pass the tree's records |
| ProtocolPermissions.PermissionManager.BuildChannelChain | packages/protocol/src/permission.ts:261-277 | the loop ends and gives the chain of any channel object from the top down |
| ProtocolPermissions.PermissionManager.ClearCacheForUser | packages/protocol/src/permission.ts:296-306 | just that session's results go; the rest stays right |
| ProtocolPermissions.PermissionManager.ClearCacheForChannel | packages/protocol/src/permission.ts:311-321 | just that channel's results go; the rest stays right |
| ProtocolPermissions.ClearingKeepsRight | packages/protocol/src/permission.ts:93-183 | replaced ACL lists are harmless once every channel with one of them on its chain is cleared |
| EdgeAndHub.EdgeAnswersAsHub | packages/protocol/src/permission.ts:93-183 | with the Hub's channels and ACLs an Edge gives exactly the Hub's answer to superusers, and to others if the two know the same of them for the groups that the ACLs on the chain name |
| EdgeAndHub.AnswersAgreeExactly | packages/protocol/src/permission.ts:93-183 | with both real group checks, the answers agree whatever the ACLs are exactly for superusers and for users on whom the checks agree at every channel of the chain |
| EdgeAndHub.ChecksAgreeExactly | packages/protocol/src/permission.ts:189-245 | for any lookup on the Hub and any groups stored on the Edge, when the two group checks agree: special groups, tokens, lookups that fail and lookups that succeed |
| EdgeAndHub.NothingStoredExactly | packages/protocol/src/permission.ts:218-245 | where nothing is stored on the Edge the checks agree exactly when the lookup fails or says what the user's own groups say |
| EdgeAndHub.DefinedChecksExactly | packages/protocol/src/permission.ts:218-245 | with the Hub's groups loaded from, and the Edge's stored by, one set of definitions on one tree, when the checks of an ordinary group agree, by the definitions and the user's own groups |
| EdgeAndHub.LookupLoads | packages/hub-server/src/channel-group-manager.ts:256-276 | the Hub's lookup is membership in the group that loading leaves under that name |
| EdgeAndHub.MemberMissed | packages/protocol/src/permission.ts:218-245 | a member of the root's group whom the Hub accepts and an Edge without stored groups denies |
| EdgeAndHub.RemovedMemberKept | packages/protocol/src/permission.ts:221-231 | a user both added and removed whom the Hub denies and the Edge accepts |
| EdgeAndHub.GapMemberMissed | packages/protocol/src/permission.ts:366-380 | a member across a gap whom the Hub accepts and the Edge denies |
| EdgeAndHub.OwnGroupsDiffer | packages/protocol/src/permission.ts:239-242 | a group of the user's own that the Hub does not accept and the Edge does |
| EdgeAndHub.TokensDiffer | packages/protocol/src/permission.ts:189-245 | a token that the Hub accepts and the Edge does not |
| Groups.CalculateInheritedMembers | packages/hub-server/src/channel-group-manager.ts:338-356 | parent members and added ones without the removed ones |
| Groups.LoadChannelGroups | packages/hub-server/src/channel-group-manager.ts:276-333 | the nested loops compute the fold over the hierarchy |
| Groups.LoadByName | packages/hub-server/src/channel-group-manager.ts:276-333 | each group's entry depends only on the definitions of that name along the path |
| Groups.CalculateGroupMembers | packages/protocol/src/permission.ts:352-391 | the recursion computes the members along the path |
| Groups.MembersAlongHierarchy | packages/protocol/src/permission.ts:352-391 | climbing by recursion is folding down the column of definitions from the root |
| Groups.SameMembers | packages/hub-server/src/channel-group-manager.ts:276-356 | on any tree, when every channel on the path defines the group, the loaded map holds it with exactly the members of the recursive calculation |
| Groups.FoldSkipsGaps | packages/hub-server/src/channel-group-manager.ts:296-327 | the loaded group is that of the definitions alone, whatever channels lack one |
| Groups.MembersAfterGap | packages/protocol/src/permission.ts:366-380 | the recursion counts only the definitions after the last gap |
| Groups.TreeMembersExactly | packages/hub-server/src/channel-group-manager.ts:276-356 | on any tree and definitions both give the same members exactly when nobody joins above the last gap, is handed on by every definition after it, and does not join again below; and who is a member of each |
| Groups.GapCanMatter | packages/protocol/src/permission.ts:366-380 | a column of four channels on which they differ |
| Groups.MemberExactly | packages/protocol/src/permission.ts:352-391 | a user is a member exactly when some level since the last break adds them and no level from there on removes them |
| Groups.AddedAndRemoved | packages/protocol/src/permission.ts:219-237 | a user both added and removed, on whom the stored check and the members differ |
| Groups.StoredCheckExactly | packages/protocol/src/permission.ts:219-237 | the check on the stored group agrees with the computed members exactly when the user is not both added and removed |
| Sessions.ReportAgreesExactly | packages/hub-server/src/session-manager.ts:31-52 | reporting keeps the indexes right exactly for an unknown number or a record that needs no entry removed |
| Sessions.ReportedTwice | packages/hub-server/src/session-manager.ts:31-52 | a session reported for two users in turn is held for both |
| Sessions.ReportDone | packages/hub-server/src/session-manager.ts:31-52 | table and both indexes after a report, entry by entry |
| Sessions.MoveDone | packages/hub-server/src/session-manager.ts:57-82 | table and both indexes after a move, entry by entry |
| Sessions.RemoveDone | packages/hub-server/src/session-manager.ts:117-149 | table and both indexes after a removal, entry by entry |
| Sessions.MoveAgrees | packages/hub-server/src/session-manager.ts:57-82 | a move keeps the indexes right |
| Sessions.RemoveAgrees | packages/hub-server/src/session-manager.ts:117-149 | a removal keeps the indexes right and leaves no empty set |
| Sessions.RunAgrees | packages/hub-server/src/session-manager.ts:24-149 | over every run with fresh numbers user sets and the sets of nonzero channels are exactly those of the table |
| Sessions.UserCount | packages/hub-server/src/session-manager.ts:199-201 | the user count is the number of distinct users with sessions |
| Sessions.ChannelSessionsExact | packages/hub-server/src/session-manager.ts:161-168 | for a nonzero channel the query gives exactly its sessions |
| Sessions.RootIndexOnlyGrows | packages/hub-server/src/session-manager.ts:57-149 | the entry of channel 0 never loses a number over any run |
| Sessions.RootSessionsExactly | packages/hub-server/src/session-manager.ts:161-168 | the query for channel 0 is right exactly when its entry holds the sessions there |
| Sessions.RootSessionsStale | packages/hub-server/src/session-manager.ts:57-82 | a session that went through channel 0 and is still listed there |
| Sessions.GlobalSessionManager.AllocateSessionId | packages/hub-server/src/session-manager.ts:24-26 | numbers are handed out in order |
| Sessions.GlobalSessionManager.ReportSession | packages/hub-server/src/session-manager.ts:31-52 | table and both indexes after a report |
| Sessions.GlobalSessionManager.UpdateSessionChannel | packages/hub-server/src/session-manager.ts:57-82 | table and channel index after a move |
| Sessions.GlobalSessionManager.RemoveSession | packages/hub-server/src/session-manager.ts:117-149 | table and both indexes after a removal |
| Sessions.GlobalSessionManager.Cleanup | packages/hub-server/src/session-manager.ts:213-231 | the sessions connected more than an hour before go, and indexes that were right stay right |
| RemoteUsers.RunExact | packages/edge-server/src/state/state-manager.ts:506-612 | after every run the query gives exactly the Edges with a tracked user in the channel |
| RemoteUsers.AddDone | packages/edge-server/src/state/state-manager.ts:524-533 | tracked users and the Edges of every channel after an addition |
| RemoteUsers.MoveDone | packages/edge-server/src/state/state-manager.ts:565-597 | the same after a move: the user is in the new channel, and the old one keeps the Edge if another of its users is there |
| RemoteUsers.RemoveDone | packages/edge-server/src/state/state-manager.ts:538-560 | the same after a removal |
| RemoteUsers.MoveExact | packages/edge-server/src/state/state-manager.ts:565-597 | a move, also to the same channel, keeps the routing sets exact |
| RemoteUsers.RemoveExact | packages/edge-server/src/state/state-manager.ts:538-560 | a removal keeps them exact: the Edge stays while another of its users is there |
| RemoteUsers.AddExactly | packages/edge-server/src/state/state-manager.ts:524-533 | adding keeps them exact exactly for an untracked session, a repeated record, or a session whose old Edge has another user in its old channel |
| RemoteUsers.AddedTwice | packages/edge-server/src/state/state-manager.ts:524-533 | a session added for two Edges in turn leaves both in the routing set |
| RemoteUsers.EdgeStateManager.AddRemoteUser | packages/edge-server/src/state/state-manager.ts:524-533 | tracked users and routing sets after an add |
| RemoteUsers.EdgeStateManager.RemoveRemoteUser | packages/edge-server/src/state/state-manager.ts:538-560 | tracked users and routing sets after a removal |
| RemoteUsers.EdgeStateManager.UpdateRemoteUserChannel | packages/edge-server/src/state/state-manager.ts:565-597 | tracked users and routing sets after a move |
| UserState.UserStateHandler.Handle | packages/hub-server/src/control-service.ts:222-453 | the verdict, the session afterwards, that something is broadcast exactly when the request asks for something, what it is, and that every receiver that applies it gets the Hub's session |
| UserState.AcceptedExactly | packages/hub-server/src/control-service.ts:222-441 | when a request is accepted: who may move whom where, whose fields may be set, and never suppression |
| UserState.RefusedFor | packages/hub-server/src/control-service.ts:222-441 | which reason a refusal gives |
| UserState.AcceptedDone | packages/hub-server/src/control-service.ts:316-441 | channel and every flag after an accepted request: deafening mutes, unmuting alone undeafens, other flags are the requested or the old |
| UserState.RefusedDone | packages/hub-server/src/control-service.ts:222-441 | channel and every flag after a refused one |
| UserState.StepKeepsCoupling | packages/hub-server/src/control-service.ts:338-441 | a request, refused or not, keeps deaf implying mute |
| UserState.RunKeepsCoupling | packages/hub-server/src/control-service.ts:172-453 | the same over any run of requests |
| UserState.RefusedUnchangedExactly | packages/hub-server/src/control-service.ts:222-441 | a refused request leaves the session as it was exactly when nothing before the failing check changes it |
| UserState.RefusedButMoved | packages/hub-server/src/control-service.ts:302-321 | a refused request that has moved the user |
| Framing.ConnectionManager.HandleTCPMessage | packages/client/src/core/connection.ts:270-295 | the buffer loop dispatches the complete messages in order and keeps the rest |
| Framing.DrainInParts | packages/client/src/core/connection.ts:270-295 | draining in two parts is draining at once |
| Framing.FeedIsDrain | packages/client/src/core/connection.ts:270-295 | any chunks dispatch what their concatenation does |
| Framing.ReassemblyIgnoresChunks | packages/client/src/core/connection.ts:270-295 | wrapped messages followed by an incomplete tail, cut anyhow, are dispatched exactly and in order, and just the tail stays |
| Framing.DrainOfWrapped | packages/client/src/core/connection.ts:548-554 | wrapping is undone |
| Framing.WrappedBytes | packages/client/src/core/connection.ts:548-554 | kind in two bytes and length in four, high bytes first, then the payload |
| Framing.DrainLosesNothing | packages/client/src/core/connection.ts:270-295 | the messages taken out, wrapped again, and the rest are the bytes that came in |
| Varints.MumbleRoundTrip | packages/edge-server/src/voice/voice-router.ts:503-627 | every 32-bit number is read back, whatever is before and after it, and just its bytes are consumed |
| VarintForms.WritesExactly | packages/edge-server/src/voice/voice-router.ts:503-545 | which form is written for which number, and its bytes |
| VarintForms.ReadsShort | packages/edge-server/src/voice/voice-router.ts:557-627 | what the forms of one to four bytes are read as |
| VarintForms.ReadsLong | packages/edge-server/src/voice/voice-router.ts:575-596 | what the 32-bit and the 64-bit form are read as: of the latter the low half |
| VarintForms.ReadsNegative | packages/edge-server/src/voice/voice-router.ts:597-603 | the complement of the number that follows |
| VarintForms.ReadsSmallNegative | packages/edge-server/src/voice/voice-router.ts:604-606 | the four small negative numbers |
| VarintForms.GivesUpExactly | packages/edge-server/src/voice/voice-router.ts:557-627 | nothing is read exactly when bytes of the form are missing |
| Varints.WriteClient | packages/client/src/audio/stream.ts:266-277 | the loop writes the groups of the signed 32-bit value |
| Varints.ReadVarint | packages/client/src/core/connection.ts:622-644 | the loop sums the groups and gives up after five bytes or at the end |
| Varints.ClientRoundTripExactly | packages/client/src/core/connection.ts:622-644 | the client reads back what it wrote, consuming just that, exactly for numbers below 2^31 |
| VarintForms.ClientWritesExactly | packages/client/src/audio/stream.ts:266-277 | for any integer, what is written: modulo 2^32 below 2^31 its groups, as few as it needs, else the low seven bits |
| VarintForms.ClientReadsExactly | packages/client/src/core/connection.ts:622-644 | on any bytes: the sum of the groups as a signed 32-bit number if the first that ends them is among five, else nothing |
| Varints.ReadVarintCommon | packages/common/src/utils/varint.ts:5-33 | the loop merges up to nine bytes by bitwise or, with JavaScript's shifts |
| Varints.WriteVarint | packages/common/src/utils/varint.ts:38-49 | the loop writes the groups |
| Varints.VarintLength | packages/common/src/utils/varint.ts:54-62 | the length is that of what the writer writes |
| Varints.CommonRoundTripExactly | packages/common/src/utils/varint.ts:5-49 | among 32-bit numbers the reader undoes the writer exactly below 2^31 |
| VarintForms.CommonWritesExactly | packages/common/src/utils/varint.ts:38-49 | the groups of every 32-bit number, as few as it needs |
| VarintForms.CommonReadsExactly | packages/common/src/utils/varint.ts:5-33 | on any bytes that end within nine: how many are consumed, and each bit of the value by the bytes that bring it, their shifts wrapping at 32 |
| Varints.HighNumbersLost | packages/client/src/audio/stream.ts:266-277 | at 2^31 the client writes the single byte 0, and the utility's reader turns negative |
| Voice.SerializeVoicePacket | packages/edge-server/src/voice/voice-router.ts:463-490 | the filled buffer is header, sender and payload |
| Voice.SenderRecovered | packages/edge-server/src/managers/voice-manager.ts:242-276 | from any forwarded packet a remote Edge recovers the sender, the codec and all of the payload, and the target is cleared |
| Voice.ReadersAgree | packages/edge-server/src/managers/voice-manager.ts:242-276 | the short reader agrees with the full one on all forms that are written |
| Voice.EdgeReadsExactly | packages/edge-server/src/voice/voice-router.ts:235-280 | which packets an Edge takes, and their codec, target and payload |
| VarintForms.ShortReader | packages/edge-server/src/managers/voice-manager.ts:242-276 | what the short reader makes of every first byte |
| Voice.AudioInputStream.BuildVoicePacket | packages/client/src/audio/stream.ts:205-238 | the buffer filled with a moving offset is header, session, sequence and audio |
| Voice.AudioInputStream.SendFrames | packages/client/src/audio/stream.ts:184-200 | frames are numbered one after another |
| Voice.ParseVoicePacket | packages/client/src/core/connection.ts:583-617 | the parser reads header, session, sequence and the rest |
| Voice.ClientVoiceExactly | packages/client/src/core/connection.ts:583-617 | session, sequence, target, codec and audio are all recovered exactly when both numbers are below 2^31 |
| Voice.ClientReadsHeader | packages/client/src/core/connection.ts:583-617 | of any packet it takes, codec, target and audio |
| Voice.ForwardReadExactly | packages/client/src/core/connection.ts:622-644 | the client recovers the sender of a forwarded packet exactly when it is below 128 |
| Voice.ForwardedAudioExactly | packages/client/src/core/connection.ts:583-617 | over all senders, sessions and sequence numbers, another client recovers the audio of a forwarded client packet exactly when no byte of the sender's form ends a number and it has five bytes at most together with the session, and then also the sequence number exactly below 2^31 |
| Voice.ForwardShiftsFields | packages/edge-server/src/voice/voice-router.ts:449-490 | for senders below 128 the speaker's session is read as the sequence, and the audio starts with the sequence number |
| Voice.ForwardShifts | packages/edge-server/src/voice/voice-router.ts:449-490 | session 1, forwarded as 1: the audio does not come out |
| Voice.ForwardSurvives | packages/edge-server/src/voice/voice-router.ts:449-490 | session 200, forwarded as 200: sequence and audio come out, the speaker does not |
| Voice.RouteToChannel | packages/edge-server/src/voice/voice-router.ts:305-398 | exactly the clients entitled to hear get the packet, none twice, and none when the sender is missing or silenced |
| Voice.HandleRemoteBroadcast | packages/edge-server/src/managers/voice-manager.ts:158-208 | all local clients that can hear get it, once, except one with the sender's number |
| Voice.HandleRemoteServerBroadcast | packages/edge-server/src/managers/voice-manager.ts:214-236 | a server-wide packet reaches all local clients that can hear, once, whatever their number |
| CrossEdge.RouteVoicePacket | packages/edge-server/src/voice/voice-router.ts:285-299 | target 0 goes to the speaker's channel unless silenced, 1 to the server even when silenced, others nowhere |
| CrossEdge.Transmit | packages/edge-server/src/managers/voice-manager.ts:57-122 | a channel's packet goes to each other registered Edge with a user in the channel, a server-wide one to each other registered Edge |
| CrossEdge.Deliver | packages/edge-server/src/managers/voice-manager.ts:124-146 | the receiving Edge tells the two apart by the target in the header |
| CrossEdge.AcrossEdges | packages/edge-server/src/managers/voice-manager.ts:57-236 | from a client's packet to another Edge, after any safe run of tracking: for target 0 its hearers, without the speaker's number, get it exactly when one of its users is tracked in the speaker's channel; for target 1 all its hearers do; otherwise nobody |

## Left out

- EncryptInto: the slices of the input and the output that the loop works on are offsets into the buffers.
- DecryptInto: the same slices as for EncryptInto.
- Crypt: `generateKey` and the time of the last good packet (randomness and the clock); AES itself is any bijection on blocks.
- HandleEdit: positions, descriptions, links and the broadcast are not modelled; trimming and case folding of names and the answers of the permission checker are parameters (`Rules`), and the acting session, the database and the permission checker are taken to be present.
- HasCircularReference: an error from the database counts as no row.
- Channel rows, edge records and sessions are values in maps rather than shared objects, so the aliasing of records handed out to callers is not captured.
- UpdateChannelId: called with the channel's own number on a channel linked to itself, the original never ends; that call is excluded by a precondition.
- RemoveChannel: asks that nothing the channel leads to leads back to itself; there the original recurses without end.
- UpdateChannel: overwriting the number, the children or the links of a record is modelled, and excluded from what keeps the records right.
- `addOrUpdateChannel` of the Edge (its update branch overwrites children lists), positions, descriptions and tree listings.
- `edge.saveChannel` of the Hub, which writes a parent without the circular check.
- AclFold: permission masks are sets of bit numbers instead of 32-bit integers; bits outside the named permissions behave alike.
- GetChannelACLs: the database is an abstract function from a channel to its list.
- Freshness of the group cache for subchannels and of the Hub's ACL cache after ACL edits, which the code does not clear.
- Groups: the order and the content of the database rows are the input; writing group definitions is left out.
- Handle: listening channels and the feature that hides channel changes are left out; texture and plugin fields count as one.
- ReportSession: the fields of a session other than user, channel and times are left out.
- Rebuilding the Edge's display tree from synchronised channels, and snapshots.
- RouteToChannel: sending and encryption for each receiver are left out; the clients are a list with one entry for each session.
- AcrossEdges: the transport between Edges delivers what is sent; its optional encryption is left out.
- HandleChannelRemove: cached permissions stay right for the users as they were; for a relocated session the answer for its new channel can change, as for every change of channel.
- DecodeMumble: the error path of an oversized number, which cannot occur after truncation to 32 bits, is merged with the five-byte form.
- TLS, sockets, RPC, protobuf, logging, bans, joins, timers, authentication, audio coding and mixing.
