# Verification model of the game server

A Dafny model of the four parts of the server whose promises span several functions, with
proofs of what those parts keep over whole runs.

- **The ProudNet wire stack** (`VarInt`, `ProudString`, `Frame`, `Rmi`, `Session`, `Stream`, and the
  number allocator in `RoomRegistry`; `WireLaws` for the bytes): signed varints in 32-bit arithmetic,
  UTF-16 strings, length-prefixed frames, the plain and the AES-ECB envelope, the mutex-guarded writer with its
  short-write loop, and the receive loop with its handshake. `Stream` puts senders, network and
  receiver together as a step system and shows that the session's sends are its steps.
- **Clan membership** (`ClanModel`, `ClanInvariant`, `ClanRuns`, `ClanNumbers`, `ClanRanks`, `ClanCounts`,
  `ClanEffects`; `ClanService`, over the slices of `GoSlice`, for the heap): rosters, application queues,
  ranks, the master on record and the link from each account, changed by actors whose session snapshot may be stale.
- **The account economy** (`Catalog`, `Inventory`, `Player`, `Economy`, `PlayerService`; `EconomyRuns`,
  `ItemUnits`, `Equipment`, `Rentals`, `LoginRepair`, `StoreLaws`, `LoginLaws`; `Items` and `ClientMirror`
  for what the client is told): serials, stacks, rentals, crafting, wallets, mounts and login repair.
- **The friend graph** (`Friends`, `FriendNumbers`, `FriendEffects`, `FriendService`): lists, requests and invitations.

Code that changes objects step by step is modelled by classes and methods with loops, each proved
against a function of the old state; the properties are lemmas about those functions and about runs
of them. `WireLaws`, `ClanEffects`, `FriendEffects`, `StoreLaws` and `LoginLaws` say what single calls
answer and leave behind in bytes, list places, catalog columns and numbers, without those functions'
own helpers. `Seqs`, `IdNumbers` and `Wrappers` hold what the parts share. Each service call is one atomic
step over the in-memory repositories, repository calls do not fail, and the clock is a parameter.
The block cipher is any pair of functions on 16-byte blocks that invert each other. The module of
`Player.dfy` is called `PlayerModel`.

## Where the code does not do what one might expect

Each of these is a theorem with its exact condition.

- The varint encoder is not minimal for four ranges of negative values (`VarInt.EncodeMinimal`).
- `EncodeFrame` writes payloads over 1 MiB that `ParseFrames` refuses (`Frame.FrameRoundTrip`).
- An encrypted body keeps its zero padding (`Rmi.EncryptedRoundTrip`), and the counter is spent even when
  the write then fails (`Session.Session.SendEncrypted`).
- On a malformed stream, frames that arrived in the same read as the bad bytes are dropped, though
  they would have been handled had they arrived earlier (`Session.ReceiveChunks`, with
  `Session.CutMatters` as a stream that shows it).
- `RoomRegistry.Open` does not return once 65535 rooms are open (`RoomRegistry.SearchEnds`), and opening
  rooms gets there (`RoomRegistry.OpensInTurn`, `RoomRegistry.SearchStuck`).
- Applicant and friend numbers wrap: a number is reused exactly when both 65535 and 0 are in use
  (`ClanInvariant.NextIDFresh`, `Friends.SocialIDFresh`), and runs get there
  (`ClanNumbers.NumbersRunOut`, `FriendNumbers.NumbersRunOut`). The run theorems are for runs that do not
  ask for a number in that state.
- `BuyCustomPart` is not all-or-nothing when a rented part runs out between its two clock readings: the
  account is charged, the call fails and the client is told nothing
  (`EconomyRuns.BuyCustomAllOrNothing`, `EconomyRuns.StrandedHappens`, `ClientMirror.MirrorsExactly`).
- A new account wears two items in one slot when the catalog puts two starter items there
  (`Equipment.NewAccountPlaces`, `Equipment.StartersCollide`).
- A purchase onto a stack at 2^32 - 1 wraps it to zero (`ItemUnits.BuyUnits`).

## Model

| member | source | states |
|---|---|---|
| VarInt.EncodeVarInt | server/internal/proudnet/varint.go:15-27 | the loop over 7-bit groups writes the specified encoding of any Go `int` |
| VarInt.DecodeVarInt | server/internal/proudnet/varint.go:31-49 | the loop reads, at any offset, exactly what the decoding function gives: value and length, incomplete, or overlong |
| VarInt.MergeIs32Bit | server/internal/proudnet/varint.go:36-45 | adding a group is addition in 32-bit arithmetic: bits past the top are lost, as in the code |
| VarInt.RoundTripModulo | server/internal/proudnet/varint.go:15-49 | decoding any encoded `int`, with any bytes before and after, gives it reduced to signed 32 bits and exactly the bytes written |
| VarInt.RoundTrip | server/internal/proudnet/varint.go:15-49 | the value comes back if and only if it fits in 32 bits |
| VarInt.ProperPrefixIncomplete | server/internal/proudnet/varint.go:31-49 | every proper prefix of an encoding is incomplete, never an error and never a value |
| VarInt.EncodedLength | server/internal/proudnet/varint.go:15-27 | the length by range of value: five bytes for every negative value |
| VarInt.EncodeMinimal | server/internal/proudnet/varint.go:15-49 | a shorter byte string decodes to the value exactly for four ranges of negative values, and never for a non-negative one |
| VarInt.ShorterFormInWindow | server/internal/proudnet/varint.go:31-49 | any shorter form puts the value in one of those ranges |
| WireLaws.EncodesNumber | server/internal/proudnet/varint.go:15-27 | encoding is positional notation in base 128 of the value cut to 32 bits, with continuation bits on every byte but the last and a last byte below 64 |
| WireLaws.DecodesNumber | server/internal/proudnet/varint.go:31-49 | decoding any such byte sequence is positional notation cut to signed 32 bits, complemented when bit 6 of the last byte is set |
| WireLaws.DecodesNothing | server/internal/proudnet/varint.go:31-49 | overlong exactly when five bytes all go on, incomplete exactly when fewer bytes all go on up to the end |
| ProudString.WriteProudString | server/internal/proudnet/string.go:10-17 | appends the unit count as a varint and the UTF-16 units, low byte first |
| ProudString.ReadProudString | server/internal/proudnet/string.go:21-36 | reads what the specification reads: negative or missing bytes are refused, lone surrogates become U+FFFD |
| ProudString.UnitsRoundTrip | server/internal/proudnet/string.go:10-36 | UTF-16 coding of any sequence of scalar values, surrogate pairs included, is inverted by decoding |
| ProudString.RoundTrip | server/internal/proudnet/string.go:10-36 | reading back at any offset gives the same string and end, if and only if it has fewer than 2^31 units |
| ProudString.ReadIsNormal | server/internal/proudnet/string.go:10-36 | whatever the reader accepted, ill-formed or not, its result written and read again is itself |
| WireLaws.StringBytes | server/internal/proudnet/string.go:10-17 | the number of code units, then every unit low byte first |
| WireLaws.StringReads | server/internal/proudnet/string.go:21-36 | a negative count or one past the end is refused; otherwise the units, low byte first, are decoded |
| WireLaws.UnitsAre | server/internal/proudnet/string.go:11-11 | a scalar below 2^16 is its own unit, a higher one the surrogate pair of RFC 2781 |
| WireLaws.FrontUnit | server/internal/proudnet/string.go:35-35 | a surrogate out of place decodes to U+FFFD, a pair to its scalar, any other unit to itself |
| Frame.EncodeFrame | server/internal/proudnet/frame.go:29-35 | marker, varint length, payload |
| Frame.ParseFrames | server/internal/proudnet/frame.go:40-68 | the loop over the buffer returns the frames, the remainder and the error of the front-by-front specification |
| Frame.FrontStable | server/internal/proudnet/frame.go:40-68 | a decided front (a frame or an error) is not changed by later bytes |
| Frame.ParseChunks | server/internal/proudnet/frame.go:40-68 | parsing a then the remainder with b is parsing a and b together: frames, remainder and error |
| Frame.RemainingBounded | server/internal/proudnet/frame.go:40-68 | an error-free remainder never exceeds the largest frame and its header |
| Frame.FrameRoundTrip | server/internal/proudnet/frame.go:29-68 | an encoded frame parses back if and only if its payload is at most 1 MiB: the encoder does not check what the parser refuses |
| Frame.PrefixOfEncoded | server/internal/proudnet/frame.go:29-68 | a cut frame is kept whole as remainder, without an error |
| WireLaws.ReliableBytes | server/internal/proudnet/frame.go:29-35 | a reliable frame is the bytes 0x13 0x57, the length and the payload |
| WireLaws.KnownMarkers | server/internal/proudnet/frame.go:43-46 | a marker is refused exactly when it is neither 0x5713 nor 0x5813 |
| WireLaws.LengthLimit | server/internal/proudnet/frame.go:55-65 | a payload of up to 1048576 bytes is taken, and a longer one refused as soon as its length is there |
| Rmi.AESECBEncrypt | server/internal/proudnet/crypto.go:47-58 | zero padding to 16 bytes, then the cipher block by block in place (ECB, section 6.1 of NIST SP 800-38A) |
| Rmi.AESECBDecrypt | server/internal/proudnet/crypto.go:62-75 | the inverse cipher block by block; ragged input and a bad key are refused |
| Rmi.EcbRoundTrip | server/internal/proudnet/crypto.go:47-75 | for any invertible block cipher, decrypting gives the plaintext and the zeros of its padding |
| Rmi.PlainRoundTrip | server/internal/proudnet/rmi.go:62-75 | a plain message comes back exactly |
| Rmi.EncryptedRoundTrip | server/internal/proudnet/rmi.go:30-59 | ID and counter come back exactly, the body with its padding, and exactly if and only if the plaintext was block aligned |
| Rmi.InvalidKeyRefused | server/internal/proudnet/rmi.go:30-59 | a key of the wrong size fails both ways |
| WireLaws.EncryptedBytes | server/internal/proudnet/rmi.go:47-59 | 0x26, then the encryption of counter, 0x01, id and body, low bytes first, with zeros up to whole blocks of 16 |
| WireLaws.EcbBlock | server/internal/proudnet/crypto.go:54-57 | every block of 16 is encrypted on its own and in its place |
| WireLaws.PlainBytes | server/internal/proudnet/rmi.go:70-75 | 0x01, the id low byte first, the body |
| Session.Session.WriteReliableLocked | server/internal/proudnet/session.go:56-69 | the short-write loop puts the whole frame on the wire when it reports no error, and a prefix of it otherwise, for every way the connection may accept bytes |
| Session.Session.SendEncrypted | server/internal/proudnet/session.go:32-42 | the counter moves by one modulo 65536 exactly when encoding succeeded, whether or not the write then fails |
| Session.Session.SendPlain | server/internal/proudnet/session.go:46-48 | a plain message leaves the counter alone and puts its frame on the wire |
| Session.Connection.HandleFrame | server/internal/proudnet/server.go:108-186 | the handshake frames change key and identifier or fail, replies may fail, and the envelope byte decides the rest, with every error that closes the connection |
| Session.Connection.OnRead | server/internal/proudnet/server.go:85-105 | one turn of the receive loop: buffer, parse, keep the remainder, handle the frames in order, close on the first error |
| Session.ReceiveDrains | server/internal/proudnet/server.go:82-105 | between reads the buffer never holds a whole frame, nor more than a frame |
| Session.ReceiveChunks | server/internal/proudnet/server.go:82-105 | cutting the bytes differently gives the same state, and the same events if and only if the stream is well formed or the first piece brought no event |
| Session.CutMatters | server/internal/proudnet/server.go:92-104 | on a malformed stream the cut does matter: valid frames before the bad bytes are dropped when they came in the same read |
| WireLaws.PlainFrame | server/internal/proudnet/server.go:174-186 | a frame 0x01 lo hi body is an application call when lo + 256 hi is below 0xFA00, and internal from there on |
| WireLaws.ShortPlainFrame | server/internal/proudnet/rmi.go:62-67 | a plain frame of fewer than three bytes is malformed, and ends nothing |
| WireLaws.EncryptedFrame | server/internal/proudnet/server.go:161-172 | an encrypted frame of an established session is the application call of its plaintext bytes, with its counter |
| WireLaws.EncryptedRefused | server/internal/proudnet/server.go:161-169 | it ends the loop when no session is established, the key has a wrong size, the ciphertext is ragged or there is none |
| WireLaws.HelloIs | server/internal/proudnet/handshake.go:11-17 | the opening probe is 0x32 and 0x4000000F or 0x40000010, on the reliable marker |
| WireLaws.AnsweredFrame | server/internal/proudnet/server.go:110-151 | probe and heartbeat are answered and change nothing; without an answer the loop ends |
| WireLaws.UnknownFrame | server/internal/proudnet/server.go:108-158 | a frame of any other kind is passed over |
| WireLaws.SetupFrame | server/internal/proudnet/handshake.go:54-71 | crypto setup establishes the session under the unwrapped key, if that has a valid size and the proof whole blocks, and otherwise changes nothing |
| WireLaws.ConnectFrame | server/internal/proudnet/connect.go:28-37 | client connect takes the 16 bytes behind the token as the identifier, or fails when they are not there |
| Stream.ReceiveCut | server/internal/proudnet/server.go:82-105 | whatever prefix of the sent stream has arrived, exactly the messages whole within it have been decoded |
| Stream.RunOk | server/internal/proudnet/session.go:32-69 | the wire is the frames of the messages in lock order and a prefix of the one being written, at every step of every interleaving |
| Stream.EndToEnd | server/internal/proudnet/session.go:32-69 | at every moment of every interleaving of senders, short writes and reads, what is decoded is a prefix of what was sent in lock order, message by message as the bytes arrive, and all of it once they have; encrypted messages carry the number of earlier encrypted sends modulo 65536 |
| Stream.SendTrace | server/internal/proudnet/session.go:56-69 | a frame written in pieces is a lock, writes and an unlock of the step system, or a break where the last write failed |
| Stream.Transmit | server/internal/proudnet/session.go:32-69 | every send of the session, plain, encrypted or raw, is such a trace, and session and system agree after it on wire, counter and log |
| Stream.MutualExclusion | server/internal/proudnet/session.go:50-54 | no two senders write at once |
| Stream.BufferBounded | server/internal/proudnet/server.go:82-97 | the receive buffer stays within one frame and its header |
| WireLaws.PlainExpected | server/internal/proudnet/server.go:181-185 | what a plain message sent is expected to arrive as: an application call below 0xFA00, internal from there on |
| WireLaws.EncryptedExpected | server/internal/proudnet/rmi.go:47-59 | what an encrypted message is expected to arrive as: its id, its counter, and its body with zeros up to whole blocks |
| RoomRegistry.EveryNumberTried | server/internal/proudnet/room_registry.go:26-33 | the cyclic search visits every number from 1 to 65535 |
| RoomRegistry.SearchEnds | server/internal/proudnet/room_registry.go:26-33 | a free number exists, so the search ends, if and only if fewer than 65535 rooms are open |
| RoomRegistry.SearchStuck | server/internal/proudnet/room_registry.go:26-33 | no try ever succeeds if and only if the open rooms are exactly 1 to 65535 |
| RoomRegistry.OpensInTurn | server/internal/proudnet/room_registry.go:22-38 | rooms opened one after the other are numbered 1, 2, 3, and so on up to that set |
| RoomRegistry.Registry.Open | server/internal/proudnet/room_registry.go:22-38 | issues the first free non-zero number after the last one issued, and records the room under it; the registry stays sound if and only if the room was not open already |
| RoomRegistry.Registry.Find | server/internal/proudnet/room_registry.go:40-45 | finds the room a number is open under |
| RoomRegistry.Registry.Close | server/internal/proudnet/room_registry.go:47-51 | removes that number alone |
| RoomRegistry.Registry.List | server/internal/proudnet/room_registry.go:55-65 | exactly the open rooms, in strictly increasing order of number |
| ClanInvariant.NextIDFresh | server/internal/services/clan_service.go:114-127 | the next applicant ID is unused if and only if the clan does not use both 65535 and 0 |
| ClanInvariant.AcceptOk | server/internal/services/clan_membership.go:22-51 | accepting keeps the invariant: queue to roster under the same ID, capacity respected, account linked |
| ClanInvariant.KickOk | server/internal/services/clan_membership.go:93-117 | a kick keeps the invariant: removal is by ID, unlinking by player, and they are the same member |
| ClanInvariant.LeaveOk | server/internal/services/clan_membership.go:119-133 | leaving keeps the invariant, the last master's included |
| ClanInvariant.ChangeMasterOk | server/internal/services/clan_membership.go:163-187 | the hand-over keeps exactly one rank-1 member, the recorded master |
| ClanInvariant.DisbandOk | server/internal/services/clan_membership.go:189-207 | disbanding unlinks every member's account, and keeps the link of everyone else |
| ClanInvariant.RequestJoinOk | server/internal/services/clan_service.go:78-112 | a join request keeps IDs and players distinct |
| ClanInvariant.CreateOk | server/internal/services/clan_service.go:129-147 | founding keeps the invariant, also under the name of a disbanded clan |
| ClanInvariant.StepOk | server/internal/services/clan_membership.go:22-214 | every operation, by any actor snapshot however stale, keeps the invariant |
| ClanEffects.AcceptEffect | server/internal/services/clan_membership.go:22-51 | ranks 1 and 2 accept while there is room: the old roster, then the applicant under the same ID, player and name at rank 8, the queue without the application, and the account linked |
| ClanEffects.RejectEffect | server/internal/services/clan_membership.go:53-67 | ranks 1 and 2 reject, and only the application goes |
| ClanEffects.CancelEffect | server/internal/services/clan_membership.go:69-91 | the player's application goes, and nothing else |
| ClanEffects.CancelRefused | server/internal/services/clan_membership.go:69-76 | without an application of the player there is nothing to withdraw |
| ClanEffects.KickEffect | server/internal/services/clan_membership.go:93-117 | rank 1 kicks anybody else, rank 2 only ranks 8 and 9; the member goes and his account is unlinked |
| ClanEffects.LeaveEffect | server/internal/services/clan_membership.go:119-133 | anybody leaves, the master only as the last member |
| ClanEffects.ChangePositionEffect | server/internal/services/clan_membership.go:135-161 | rank 1 gives anybody else rank 2, 8 or 9, and only that rank changes |
| ClanEffects.ChangeMasterEffect | server/internal/services/clan_membership.go:163-187 | rank 1 hands over: the successor has rank 1 and is the master on record, the old master has rank 2 |
| ClanEffects.DisbandEffect | server/internal/services/clan_membership.go:189-207 | rank 1 disbands: the clan is gone, and exactly its members' accounts are unlinked |
| ClanEffects.RequestJoinEffect | server/internal/services/clan_service.go:78-112 | the application goes to the end of the queue, numbered one past the highest ID in 16 bits, unless the player is a member or queued already |
| ClanEffects.CreateEffect | server/internal/services/clan_service.go:129-147 | a free name gets a clan for 50 with its founder alone, ID 1, rank 1, master on record |
| ClanEffects.StrangerRefused | server/internal/services/clan_membership.go:216-245 | who names no clan, one that is gone or one that does not list him is refused everything that takes a member |
| ClanRuns.ReachableClan | server/internal/services/clan_membership.go:22-214 | in every run from an empty store: IDs jointly distinct, nobody twice, ranks in {1, 2, 8, 9}, roster within capacity, and an empty roster or exactly one rank-1 member, the master on record |
| ClanRuns.ReachableLink | server/internal/services/clan_membership.go:209-214 | an account's clan name, when not empty, is a clan whose roster holds the account |
| ClanRuns.StepProper | server/internal/services/clan_membership.go:22-214 | each change of a roster, a queue or a master, and the end of a clan, is by right |
| ClanRuns.LostOnlyByRight | server/internal/services/clan_membership.go:93-207 | who disappeared from a roster was taken off it by one operation: their own leave, a kick of theirs by a strictly smaller rank number, or the master disbanding |
| ClanRuns.EnrolledOnlyByRight | server/internal/services/clan_membership.go:22-51 | who is on a roster was put there by one operation: founding the clan, or an acceptance by the master or a manager of an application of their own that had been in the queue ever since they made it |
| ClanRuns.QueuedOnlyByRequest | server/internal/services/clan_service.go:78-112 | who is in a queue was put there by their own request, and has been in it at every state since |
| ClanRuns.MasterOnlyByRight | server/internal/services/clan_membership.go:163-207 | a clan name with another master than before was handed over by the master of the moment, or disbanded by that master in between |
| ClanRanks.StepRank | server/internal/services/clan_membership.go:22-214 | one operation: a rank that changed was given by right, or the member was removed by right |
| ClanRanks.RankOnlyByRight | server/internal/services/clan_membership.go:22-187 | over a run: a player whose rank is another than before got exactly it at some step between: 1 as founder, 8 by acceptance, what the master of the moment assigned, or 1 and 2 by a hand-over |
| ClanRanks.RankWasGiven | server/internal/services/clan_membership.go:22-187 | over a run from an empty store every rank on a roster was so given |
| ClanNumbers.NumbersRunOut | server/internal/services/clan_service.go:114-127 | two players requesting and withdrawing in turn reach a clan that uses both 65535 and 0, and the next request is given a number twice |
| ClanRuns.EmptyForever | server/internal/services/clan_membership.go:119-133 | a clan whose last member left stays, and never gains a member again |
| ClanCounts.MakeClanMemberCounts | server/internal/proudnet/clan_member.go:152-174 | the counting loop gives the clamped count of each rank |
| ClanCounts.RowIsExact | server/internal/proudnet/clan_member.go:152-195 | for a reachable non-empty clan nothing saturates: the total is 1 + managers + members + associates |
| ClanCounts.RowIs | server/internal/proudnet/clan_member.go:152-195 | members of ranks 2, 8 and 9, each up to 255, and a capacity of 50 when none is stored, never below the total |
| GoSlice.Append | server/internal/models/clan.go:93-121 | Go's append: in place behind what the slice shows while capacity lasts, into a new array otherwise |
| GoSlice.RemoveAt | server/internal/models/clan.go:93-111 | removal through a capped slice never writes the array it shrinks |
| ClanService.RemoveApplicant | server/internal/models/clan.go:103-111 | the caller's struct loses the first application with the ID; no array is written |
| ClanService.RemoveMember | server/internal/models/clan.go:93-101 | the caller's struct loses the first member with the ID; no array is written |
| ClanService.SetRankInPlace | server/internal/models/clan.go:113-121 | the rank is written into the array the store shares |
| ClanService.MemoryClanRepository.Find | server/internal/repositories/memory_clan_repository.go:20-25 | hands out the stored struct itself, arrays shared |
| ClanService.MemoryClanRepository.SaveRoster | server/internal/repositories/memory_clan_repository.go:104-109 | one clan's roster and queue are replaced, the others keep their contents |
| ClanService.MemoryClanRepository.FindByApplicant | server/internal/repositories/memory_clan_repository.go:79-90 | some clan holding an application of the player, or proof that none does |
| ClanService.NextID | server/internal/services/clan_service.go:114-127 | the maximum loop and the wrap-around |
| ClanService.ClanService.AcceptApplication | server/internal/services/clan_membership.go:22-51 | on the heap, does what the value model says; when refused, after the applicant was already taken off the queue, the store and every roster array are as before |
| ClanService.ClanService.RejectApplication | server/internal/services/clan_membership.go:53-67 | as the model says, and writes no array |
| ClanService.ClanService.CancelApplication | server/internal/services/clan_membership.go:69-91 | withdraws the application from whichever clan was found; refused exactly when no clan holds one |
| ClanService.ClanService.KickMember | server/internal/services/clan_membership.go:93-117 | as the model says, and writes no array |
| ClanService.ClanService.Leave | server/internal/services/clan_membership.go:119-133 | as the model says, and writes no array |
| ClanService.ClanService.ChangePosition | server/internal/services/clan_membership.go:135-161 | as the model says; only the one roster array is written, and none when refused |
| ClanService.ClanService.ChangeMaster | server/internal/services/clan_membership.go:163-187 | as the model says, both ranks and the master field together; nothing is written when refused |
| ClanService.ClanService.Disband | server/internal/services/clan_membership.go:189-207 | deletes the clan and unlinks every account on its roster |
| ClanService.ClanService.RequestJoin | server/internal/services/clan_service.go:78-112 | as the model says; a refused request, or one already queued, leaves the store as it was |
| ClanService.ClanService.Create | server/internal/services/clan_service.go:129-147 | stores the founder's clan, or nothing when the name is taken |
| PlayerModel.Player.ConsumeMaterials | server/internal/models/inventory.go:43-71 | the check and the walk with its own list of what remains compute the specification by first stacks; on failure nothing changes |
| PlayerModel.TakeMaterials | server/internal/models/inventory.go:56-70 | zeroing an entry after the first stack makes every later stack of the item safe |
| Inventory.ConsumeConserves | server/internal/models/inventory.go:43-71 | over all stacks of any item, exactly the required units go |
| Inventory.ConsumeKeeps | server/internal/models/inventory.go:43-71 | items the recipe does not need stay, in order |
| Inventory.ConsumeDiff | server/internal/models/inventory.go:43-71 | with the distinct serials every run keeps, the deleted and updated lists are exactly the difference between old and new inventory, and the rest keeps its order |
| PlayerModel.Player.SpendUnit | server/internal/models/inventory.go:81-94 | one unit of the first stack with the serial goes, written in the shared array, or the stack itself, and then the array stays as it was |
| PlayerModel.Player.PurgeExpired | server/internal/models/player.go:39-74 | drops the expired items and everything that names their serials into new lists; nothing at all when none has expired |
| PlayerModel.Player.NextSerial | server/internal/models/player.go:76-87 | the search over a set of used serials gives the specified one |
| EconomyRuns.NextSerialLeast | server/internal/models/player.go:76-87 | the least free serial in 1..65534, and 0 exactly when all are taken |
| PlayerModel.Player.Debit | server/internal/models/player.go:104-111 | takes the amount from the one wallet, in 64-bit arithmetic |
| PlayerService.MemoryPlayerRepository.CommitInventory | server/internal/repositories/memory_player_repository.go:121-135 | price and inventory are stored together or not at all |
| PlayerService.PlayerService.Equip | server/internal/services/player_service.go:103-125 | stores the loadout with the owned, unexpired item in its slot, or nothing |
| PlayerService.PlayerService.ChangeWeapons | server/internal/services/player_service.go:127-157 | equips the whole list or nothing |
| Equipment.ArmedSets | server/internal/services/player_service.go:127-157 | each slot holds the last weapon listed for it, and other slots are untouched |
| StoreLaws.EquipEffect | server/internal/services/player_service.go:103-125 | an owned item that has not run out goes into its own slot, the entries of other slots stay in order |
| StoreLaws.WeaponsWhen | server/internal/services/player_service.go:127-157 | a weapon list goes through if and only if every serial but zero is owned and not run out |
| StoreLaws.AttachEffect | server/internal/services/player_service.go:159-188 | a part of slots 0x3D to 0x42 mounts only where the catalog lists it; the mount takes its place and the others stay in order |
| StoreLaws.DetachEffect | server/internal/services/player_service.go:190-209 | exactly the mounts of the pair go |
| PlayerService.PlayerService.Attach | server/internal/services/player_service.go:159-188 | stores the mount, or refuses in the order of the checks |
| PlayerService.PlayerService.Detach | server/internal/services/player_service.go:190-209 | stores the mounts without the pair |
| Equipment.DetachUndoesAttach | server/internal/models/inventory.go:113-131 | detaching restores the mounts if and only if the place was free and the pair not mounted already |
| Equipment.NewAccountPlaces | server/internal/services/player_service.go:431-460 | a new account has one item a slot if and only if the catalog puts its known starter items in different slots: the kit is appended, not equipped |
| Equipment.StartersCollide | server/internal/services/player_service.go:431-460 | a catalog that puts the first two starter items in one slot |
| Equipment.RunPlaces | server/internal/models/inventory.go:113-142 | with such a catalog, from a new account on, over any run no slot holds two items and no place on a parent two parts |
| PlayerService.PlayerService.AddToInventory | server/internal/services/player_service.go:353-387 | extends the first rental or grows the first stack, writing the shared array, or appends a row with the least free serial |
| PlayerService.PlayerService.Buy | server/internal/services/player_service.go:219-259 | charges and stores the purchase; when refused, store and arrays are as before |
| StoreLaws.BuyWhen | server/internal/services/player_service.go:219-259 | a purchase succeeds if and only if the item is sold, the level and the money suffice, exactly enough included, and there is a stack or a serial for it; otherwise the first check that fails answers |
| StoreLaws.BuyCharge | server/internal/services/player_service.go:389-404 | a purchase takes exactly what the catalog's columns ask, sale price included, from one wallet |
| StoreLaws.AskedIs | server/internal/services/player_service.go:389-404 | what they ask: cash for cash type 1, else the sale price, else the point price, else cash |
| StoreLaws.BuyEffect | server/internal/services/player_service.go:353-387 | a rental held runs longer from its end or from now, a stack grows by one in 32 bits, anything else is a new row with the least free serial |
| ItemUnits.BuyUnits | server/internal/services/player_service.go:353-387 | a purchase adds one unit of the item and of no other, or extends a rental; it fails to do so exactly for a full 32-bit stack |
| PlayerService.PlayerService.BuyCustomPart | server/internal/services/player_service.go:261-287 | purchase and mount as two stored steps, with the clock read twice |
| EconomyRuns.BuyCustomAllOrNothing | server/internal/services/player_service.go:261-287 | a failed call leaves the account changed if and only if a rented part ran out between the two clock readings; a successful one has charged exactly the price and mounted |
| EconomyRuns.StrandedHappens | server/internal/services/player_service.go:278-284 | such a failure exists: a part rented for one second, and a second between the readings |
| StoreLaws.PartRefused | server/internal/services/player_service.go:269-275 | without the weapon, or with a part the catalog does not list for it, nothing is bought |
| PlayerService.PlayerService.Craft | server/internal/services/player_service.go:297-351 | consumes into a new list, adds the output, charges and stores, or leaves the store alone; no stored array is written |
| StoreLaws.CraftWhen | server/internal/services/player_service.go:297-351 | crafting succeeds if and only if the recipe exists, level and points suffice, the first stack of every material holds what the rows add up to, and a serial is free afterwards |
| StoreLaws.CraftEffect | server/internal/services/player_service.go:297-351 | the first stack of every material pays, one unit of the output comes under the least free serial, and the recipe's points go |
| ItemUnits.CraftUnits | server/internal/services/player_service.go:297-351 | for every item: units before, less what the recipe's rows add up to, plus the output |
| ItemUnits.SpendUnits | server/internal/services/consumables.go:31-53 | one unit goes, of an item with the wanted function |
| PlayerService.PlayerService.FindConsumable | server/internal/services/consumables.go:21-29 | the first item with the function and something left |
| PlayerService.PlayerService.SpendConsumable | server/internal/services/consumables.go:31-53 | spends one unit and stores it; when refused, store and arrays are as before |
| StoreLaws.SpendEffect | server/internal/services/consumables.go:21-53 | one unit of the first usable item of the function goes, and with the last unit the item |
| StoreLaws.SpendRefused | server/internal/services/consumables.go:40-43 | without a usable item of the function nothing is spent |
| PlayerService.PlayerService.LoginBySteam | server/internal/services/player_service.go:43-97 | stores the repaired account, or opens a new one |
| PlayerService.PlayerService.OpenAccount | server/internal/services/player_service.go:431-460 | the starter items the catalog knows, numbered from 1, each equipped |
| StoreLaws.NewAccountIs | server/internal/services/player_service.go:431-460 | level 1, the starting balances, and items 11100101, 12100101 and 21102201 numbered 1 to 3 and worn in their slots |
| StoreLaws.NewAccountKit | server/internal/services/player_service.go:431-460 | in any catalog the kit is built from the three starter items in turn |
| StoreLaws.KitStep | server/internal/services/player_service.go:441-458 | each starter item the catalog knows is numbered next and worn in its slot, and one it does not know is passed over |
| EconomyRuns.RunOk | server/internal/services/player_service.go:43-387 | in every run serials are pairwise distinct and in 1..65534, and exactly the catalog's rentals carry an expiry |
| EconomyRuns.MoneyConserved | server/internal/services/player_service.go:219-404 | each balance is its start less the prices charged to it; none ever wraps |
| Rentals.RentalArithmetic | server/internal/services/player_service.go:353-387 | k purchases of a rental at times t1..tk, with purges and other calls between, end it between t1 + k*U and tk + k*U |
| Rentals.RunTracks | server/internal/services/player_service.go:353-387 | the stored expiry follows e' = max(e, t) + U at each purchase, extended or purged and bought again |
| LoginRepair.LoginPurges | server/internal/models/player.go:39-74 | with distinct serials, after a login nothing has expired and nothing names a purged serial |
| LoginRepair.LoginDresses | server/internal/services/player_service.go:64-78 | slots stay unique, slots 0x0B and 0x0C have an owned character equipped when there is one, and valid choices are kept |
| LoginLaws.LoginKeeps | server/internal/services/player_service.go:49-84 | the inventory is what has not run out, mounts and entries of other slots are those that name nothing that has, all in order |
| LoginLaws.LoginSlot | server/internal/services/player_service.go:64-78 | slots 0x0B and 0x0C: a valid choice leaves the slot as it was, without one it gets the first owned character of the type |
| LoginLaws.LoginEquips | server/internal/services/player_service.go:64-78 | with an owned character of type 0x0B or 0x0C that has not run out, the slot has an entry that names an owned one |
| LoginRepair.LoginIdempotent | server/internal/services/player_service.go:50-84 | a second login at the same time changes nothing |
| Items.Items.Buy | server/internal/proudnet/items.go:292-312 | sends the balance and the row of the purchase, and nothing when it is refused |
| Items.Items.CompleteDeltas | server/internal/proudnet/items.go:261-282 | the balance of the wallet charged, then a new row or a value |
| Items.Items.BuyCustom | server/internal/proudnet/items.go:219-252 | the same deltas with the mounted account; a stranded part is stored and nothing is sent |
| Items.Items.SendCraft | server/internal/proudnet/items.go:366-384 | deletions, then values, then the balance when something was paid, then the new row |
| Items.Items.Craft | server/internal/proudnet/items.go:350-394 | the session and the deltas after crafting |
| Items.Items.SpendMarkChange | server/internal/proudnet/clan_mark.go:99-113 | a deletion or a value for the consumable spent |
| ClientMirror.CraftMirror | server/internal/proudnet/items.go:366-384 | replaying a craft's deltas gives the stored inventory, also when the new item reuses a serial just deleted |
| ClientMirror.PartMirror | server/internal/proudnet/items.go:219-252 | so does replaying a part's purchase, unless it was stranded |
| ClientMirror.ClientMirrors | server/internal/proudnet/items.go:219-394 | from a login snapshot on, after any sequence of calls of which those since the last login stranded no part, the client holds exactly the stored inventory and balances |
| ClientMirror.MirrorMeans | server/internal/proudnet/items.go:219-394 | held is: both balances, a row for every owned serial and no other, and in it index, type, state, and the count or the whole seconds left when it was written |
| StoreLaws.WireIs | server/internal/models/inventory.go:21-30 | a row's value: the count, or for a rental the whole seconds left in 32 bits, zero when it has run out |
| ClientMirror.RowPinsExpiry | server/internal/models/inventory.go:21-30 | a rental's row determines the stored expiry to the second |
| ClientMirror.StepMirrorExact | server/internal/proudnet/items.go:219-394 | when the rows were written before the call and the seconds fit in 32 bits, a call keeps the mirror if and only if it does not strand a part |
| ClientMirror.StampsPast | server/internal/proudnet/items.go:219-394 | over any run, every row the client holds was written by the present |
| ClientMirror.MirrorsExactly | server/internal/proudnet/items.go:219-394 | over any run with ordered clocks, the client has held the stored account after every call since the last login if and only if none of them stranded a part: the mirror first breaks at the first stranded part |
| ClientMirror.StrandedBreaks | server/internal/services/player_service.go:278-284 | a stranded part leaves a wrong balance, a missing row, or a row with less time than is stored |
| FriendService.FriendService.Request | server/internal/services/friend_service.go:41-74 | stores the request on an account of the trimmed name, or refuses in the order of the checks; a pending request comes back with its refusal; a refusal leaves store and arrays unchanged |
| Friends.AskAgain | server/internal/services/friend_service.go:60-62 | asking twice changes nothing and gives the first request back, as the pending one |
| Friends.TrimSpaceIs | server/internal/services/friend_service.go:47-47 | the name looked up begins and ends with no white space, and only white space was cut off |
| FriendEffects.SpaceIs | server/internal/services/friend_service.go:47-47 | the characters that count as white space |
| FriendService.FriendService.Accept | server/internal/services/friend_service.go:76-110 | two stored steps: the request becomes an entry on each side, appended to arrays the store shares; a refusal leaves store and arrays unchanged |
| FriendService.FriendService.Reject | server/internal/services/friend_service.go:112-126 | the request goes, nothing else does, and no array is written |
| FriendService.FriendService.Delete | server/internal/services/friend_service.go:128-157 | the entry and one mirrored entry go, and no array is written |
| FriendService.FriendService.Befriend | server/internal/services/friend_service.go:97-109 | both appends, then both saves, also when the two structs share their arrays |
| FriendService.FriendService.InviteTarget | server/internal/services/friend_service.go:191-214 | the lookup on both lists |
| FriendService.Profile.RemoveFriendOf | server/internal/models/friend.go:53-61 | the first entry for the player goes from the struct, and no array is written |
| FriendService.Profile.NextSocialID | server/internal/models/friend.go:73-86 | the maximum loop over both lists and the wrap-around |
| Friends.SocialIDFresh | server/internal/models/friend.go:73-86 | the next number is unused if and only if the account does not use both 65535 and 0 |
| FriendNumbers.NumbersRunOut | server/internal/models/friend.go:73-86 | two players asking in turn, each rejected, reach an account that uses both 65535 and 0, and the next request is given a number twice |
| Friends.AcceptOk | server/internal/services/friend_service.go:76-110 | accepting keeps the invariant, crossed requests included |
| FriendEffects.AcceptEffect | server/internal/services/friend_service.go:76-110 | the request goes; the actor lists the sender under the request's number, the sender lists the actor under one past his highest, and nothing else changes |
| FriendEffects.AcceptCounts | server/internal/services/friend_service.go:76-110 | the two list each other exactly once more, and no other count moves |
| FriendEffects.RejectEffect | server/internal/services/friend_service.go:112-126 | exactly the request goes |
| FriendEffects.NoRequest | server/internal/services/friend_service.go:76-122 | an unknown account or request number is refused, and changes nothing |
| FriendEffects.AskEffect | server/internal/services/friend_service.go:41-74 | who may ask whom, and the request at the end of the other's list, numbered one past his highest in 16 bits |
| Friends.DeleteOk | server/internal/services/friend_service.go:128-157 | deleting keeps the invariant: by symmetry there is a mirrored entry |
| FriendEffects.DeleteEffect | server/internal/services/friend_service.go:128-157 | the entry goes, and the first entry for the actor on the other's list with it, and nothing else changes |
| FriendEffects.DeleteAlone | server/internal/services/friend_service.go:142-152 | without the other account, or its entry, only the actor's own entry goes |
| FriendEffects.NoFriend | server/internal/services/friend_service.go:128-200 | an unknown account or friend number is refused, and changes nothing |
| FriendEffects.DeleteCounts | server/internal/services/friend_service.go:128-157 | each lists the other exactly once less, and no other count moves |
| Friends.StepOk | server/internal/services/friend_service.go:41-157 | every operation keeps the invariant |
| Friends.RunOk | server/internal/services/friend_service.go:41-157 | in every run any two accounts list each other equally often, nobody lists or asks himself, and an account's numbers are all different |
| Friends.InviteResolves | server/internal/services/friend_service.go:191-214 | inviting any listed friend succeeds, and the number returned is the inviter's on the friend's own list |
| FriendEffects.InviteEffect | server/internal/services/friend_service.go:191-214 | the account of the friend under that number, and the actor's first number on that account's list; or which of the two is missing |

## Left out

- The mutexes of the repositories. The send lock is a step of `Stream`, where a failed write breaks the transport for good.
- Two service calls on the same clan or account interleaved between their reads and writes.
- The snapshots that sessions keep of an account: they share its arrays in the server and are values here. The player structs that accepting and inviting also return.
- Repository errors, contexts and timeouts, MongoDB, sockets, logging, and the services' HTTP side.
- RSA, X.509 and the inside of AES: unwrapping a session key is any function. The bytes of the handshake replies; whether a reply goes out is a parameter. `Stream` starts once the handshake is over, and its raw messages do not start another.
- What handlers do with a decoded message, except the item handlers' deltas; the answer codes and equipment rows these also send.
- `ChangeMark` and the mark lookups, clan search by name, `PendingApplication`, and the byte layout of the clan rows.
- Columns nothing here depends on: time stamps of entries, `LastLogin`, `InstanceAux`, experience, records, clan level and emblem. Each part keeps its own columns of the account.
- Catalog loading: a catalog is any map.
- Overflow of `time.Duration` and of summed material counts; Go's zero time is before every reading of the clock.
- Of several accounts with one name, or several clans with an application of one player, any may be found.
- How the real client treats a value for an item it does not hold: here it ignores it. A lost session is not modelled; the next login sends a new snapshot.
- Rentals.RentalArithmetic: is for runs in which crafting neither uses nor makes the item and no unit of it is spent, since those calls remove or add the row itself.
- Rooms' seats, matches, chat, presence and the session registry: each step is simple and keeps no invariant across calls.
