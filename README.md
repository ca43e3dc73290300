# PKr-Base workspace synchronisation, modelled in Dafny

PKr-Base is the background service of a peer-to-peer folder-sharing tool. A
user *shares* a workspace (a folder) and others *follow* it. Each push of the
owner records a list of file changes ("Updated" with the new hash, or
"Removed") in the workspace's `.PKr/workspace-config.json`. It also stores a
full-state zip of the workspace, encrypted with a per-push AES key.

A follower pulls in these steps:
- It asks the relay server to have the owner punch a UDP hole back
  (`ws/pull.go`, `dialer/nat-punching.go`, `handler/notify-punch.go`).
- It opens a KCP session on the punched socket and asks the owner's
  `GetMetaData` RPC what changed since its last push number
  (`handler/handler.go`).
- The owner merges the push records of the range (`config/pkr-config.go`).
  On a cache miss it builds a bundle: a zip of the updated files cut from the
  current full-state zip (`filetracker/zip.go`), encrypted with AES-CTR in
  1 KiB chunks (`encrypt/my-aes.go`).
- The follower fetches the bundle over a second, plain KCP session
  (`handler/share-data.go`) and decrypts it chunk by chunk. It then unzips
  the bundle and applies the changes to its copy of the workspace
  (`filetracker/files-and-folders.go`), and moves its bookmark in the
  user-config (`config/users-config.go`).

Snapshots of a workspace are hashed in parallel shards and compared path by
path (`config/file-tree.go`, `encrypt/my-hash.go`).

The model has one Dafny module per source file:
- **Common**: bytes, `Option`/`Result`, `strconv.Itoa`, range keys, paths.
- **Octets**: two bit-vector facts, kept apart so their proofs stay small.
- **FileSystem**: the `os` package, as a `Disk` class holding a map of files
  and a set of directories.
- **Hash**, **Aes**, **FileTree**, **PkrConfig**, **UsersConfig**, **Zip**,
  **FilesAndFolders**, **Handler**, **ShareData**, **NatPunching**,
  **NotifyPunch**, **Pull**.

The primitives the code calls but does not define are parameters of the
operations that use them:
- SHA-256 is a function from bytes to a 32-byte digest.
- The AES block cipher is a keystream function of key, IV and position, and
  counter mode XORs with it.
- RSA, base64, zip encoding and decoding, STUN and the private-address
  lookup.
- The random sources.
- The relay server's answers.

The network is modelled as queues:
- A KCP session is a queue of incoming messages, a log of sent messages and
  a budget of writes that still succeed. A read takes at most the buffer's
  size from the message at the head.
- A UDP socket is the queue of datagrams that arrive before the read
  deadline.

Where the code and its design notes disagree, the model follows the code:
- `MergeUpdates` keeps the **earliest** entry for a path. A later "Updated"
  does not refresh the hash. "Removed" after "Updated" deletes the entry, and
  the next change after a deletion is stored afresh. A file removed and then
  re-created within one range therefore stays "Removed"
  (`PkrConfig.RemovedThenUpdatedStaysRemoved`).
- `GetMetaData` answers every authentication failure with
  `ErrIncorrectPassword`: `errors.Is` against a fresh `errors.New` never
  matches, and both branches return the same error.
- On the listener's side, `net/rpc` turns the owner's error into a string
  error. So the `err == handler.ErrUserAlreadyHasLatestWorkspace` test at
  `ws/pull.go:421` never holds, and a pull that is already up to date
  reports a failure (`MetaDataFailed`).
- The bookmark update after a pull finds the followed workspace by name
  alone, while the credentials are those of the last entry matching name and
  owner. With two owners sharing a workspace name, the wrong entry moves
  (`Pull.PullFromSecondOwnerMovesFirst`).
- The receive loop treats a read as an owner's error only when it is shorter
  than 30 bytes. Only "Internal Server Error" qualifies. "Incorrect Workspace
  Name/Push Num Range" is decrypted as data (`Pull.RangeRefusalTakenForData`).
- The bundle's encrypted name comes from `strings.Replace(path, ".zip",
  ".enc", 1)` on the whole path. The size check reads a separately built
  name. The two disagree when a directory of the workspace path contains
  ".zip" (`Handler.ZipInWorkspacePathMisplacesBundle`).

## Model

| member | source | states |
|---|---|---|
| Common.RangeKeyInjective | handler/handler.go:178 | two push ranges with non-negative starts get the same cache key `a-b` only when both ends agree |
| Common.CloneKeyIsNotRangeKey | handler/handler.go:148-178 | the key of a clone (the push number alone) never equals the key of a pull range |
| Common.IntToStringInjective | handler/handler.go:148 | `strconv.Itoa` maps different numbers to different strings |
| Common.WireRoundTrip | ws/pull.go:226-241 | a string written as `[]byte` and read back with `string(buf)` is the same string |
| Common.SplitJoin | filetracker/files-and-folders.go:162-168 | splitting the '/'-joined form of a clean relative path gives back its components |
| Aes.AESGenerateKey | encrypt/my-aes.go:16-23 | the key is the first `length` random bytes, and the call fails (RandomFailed) exactly when the source has fewer |
| Aes.AESGenerateIV | encrypt/my-aes.go:25-31 | the IV is one 16-byte block, and the call fails exactly when the random source has fewer bytes |
| Aes.EncryptDecryptChunk | encrypt/my-aes.go:34-47 | fails with an invalid-key-size error exactly when the key is not 16, 24 or 32 bytes; otherwise keeps the length |
| Aes.EncryptDecryptInvolution | encrypt/my-aes.go:33-47 | one function both encrypts and decrypts: applied twice with the same key and IV it returns the data |
| Aes.ChunkedInvolution | encrypt/my-aes.go:66-106 | the chunk-by-chunk file transformation, the keystream restarting per chunk, is its own inverse |
| Aes.ChunkedByte | encrypt/my-aes.go:71-105 | byte `i` of the encrypted file is XORed with keystream position `i mod 1024` |
| Aes.FlushOffsetsAre | encrypt/my-aes.go:96-105 | the writer is flushed exactly at the multiples of 5 MiB below the file length |
| Aes.EncryptChunks | encrypt/my-aes.go:66-106 | the loop yields the chunk-wise encryption of the whole file and the flush offsets; it fails exactly when the key size is invalid and the file is non-empty |
| Aes.EncryptZipFileAndStore | encrypt/my-aes.go:49-126 | a missing zip fails with nothing written; with a valid key it succeeds exactly when the zip exists and the encrypted file can be created, and then the zip is gone and the encrypted file holds the chunk-wise encryption; an invalid key leaves an empty encrypted file |
| Aes.StoreEncrypted | encrypt/my-aes.go:66-124 | once both files exist: encrypted content stored and zip removed, or, for a bad key, files unchanged |
| Hash.UnhexHex | encrypt/my-hash.go:72-73 | hex encoding loses nothing: decoding the lowercase hex string gives back the bytes |
| Hash.HexDigest | encrypt/my-hash.go:87-88 | a digest's string form is 64 lowercase hex digits that decode to the digest |
| Hash.HashFile | encrypt/my-hash.go:38-89 | hashing by path succeeds exactly for a readable file, giving the hex SHA-256 of its content; otherwise the empty string and an error |
| Hash.HashOpenFile | encrypt/my-hash.go:91-108 | hashing an open file fails exactly when seeking or reading fails; otherwise it hashes the whole content |
| Hash.HashOpenFileAnyPosition | encrypt/my-hash.go:92-97 | the offset the file was left at does not change its hash |
| Hash.Sort | encrypt/my-hash.go:112 | `sort.Strings` yields a byte-wise sorted permutation of its input |
| Hash.SortedUnique | encrypt/my-hash.go:112 | two sorted arrangements of the same multiset of strings are equal |
| Hash.SortPermutationInvariant | encrypt/my-hash.go:112 | sorting forgets the input order |
| Hash.SortStrings | encrypt/my-hash.go:112 | the in-place sort leaves the sorted permutation of the old contents in the array |
| Hash.ConcatStrings | encrypt/my-hash.go:114-117 | the loop builds the concatenation of all strings, in order |
| Hash.GeneratHashFromFileNames | encrypt/my-hash.go:111-122 | sorts the caller's slice in place and returns the hex hash of the sorted strings concatenated |
| Hash.CombinedHashPermutationInvariant | encrypt/my-hash.go:111-122 | the combined hash depends only on the multiset of the input hashes |
| Hash.CombinedHashCollision | encrypt/my-hash.go:114-117 | with no separator, ["ab","c"] and ["a","bc"] hash alike |
| FileTree.WalkChildrenSpec | config/file-tree.go:56-81 | the walk over a directory's children fails exactly when one child is broken (an entry that cannot be stat'ed, or a directory that cannot be listed, whatever its name), and otherwise collects exactly their collectable files |
| FileTree.WalkSpec | config/file-tree.go:56-81 | the walk fails exactly when the tree holds an entry that cannot be stat'ed or a directory that cannot be listed, even one named `.PKr` or `tmp`, outside the skipped listable directories; otherwise every collected entry pairs its absolute and relative path, and the relative paths are exactly the collectable files |
| FileTree.CollectableNames | config/file-tree.go:61-66 | a collected path passes through no `.PKr` or `tmp` directory and does not end in one of the tool's binaries |
| FileTree.FetchAllFilesPaths | config/file-tree.go:53-90 | an error exactly for a broken tree; otherwise the relative paths collected are exactly the collectable files |
| FileTree.UnlistableTmpStopsWalk | config/file-tree.go:56-62 | a `tmp` directory that cannot be listed fails the walk, while a listable one is skipped whatever it holds |
| FileTree.PartitionCovers | config/file-tree.go:107-110 | the workers together have slots for every file |
| FileTree.ShardsCover | config/file-tree.go:110-122 | file `k` lies in shard `k / partitionSize`, which is a worker index |
| FileTree.ShardsDisjoint | config/file-tree.go:115-122 | no file lies in two shards |
| FileTree.InvertedShard | config/file-tree.go:115-122 | only the end of a shard is clamped: with 5 files and 4 workers the last shard is the slice [6:5] |
| FileTree.SlotZeroIffHashFails | config/file-tree.go:127-135 | a slot keeps the zero node exactly when its file could not be hashed; otherwise it holds a 64-digit hash |
| FileTree.HashShard | config/file-tree.go:124-138 | a worker fills exactly its own slots, slot `j` with job `j`'s node |
| FileTree.HashInShards | config/file-tree.go:107-140 | for a non-empty list split into in-range shards, after all workers slot `k` holds file `k`'s node (zero when hashing failed) |
| FileTree.GetNewTree | config/file-tree.go:99-146 | the walk's error exactly for a broken tree; the division-by-zero panic exactly when nothing is collectable; the slice panic exactly when the last shard starts past the end; otherwise one node per collected file in walk order |
| FileTree.OnlyPKrCollectsNothing | config/file-tree.go:61-110 | a workspace holding only `.PKr` is not broken and collects no file, so `GetNewTree` divides by zero on it |
| FileTree.ToMapKeys | config/file-tree.go:190-196 | the lookup map has exactly the paths of the snapshot's nodes |
| FileTree.ToMapLast | config/file-tree.go:190-196 | for a duplicated path, the last node's hash wins |
| FileTree.BuildMap | config/file-tree.go:187-196 | the filled map is the snapshot's path-to-hash map |
| FileTree.UpdatedChanges | config/file-tree.go:200-218 | an "Updated" change, with the new hash, for each path that is new or whose hash differs; each path once |
| FileTree.AppendRemoved | config/file-tree.go:220-230 | adding a "Removed" change, with the old hash, for each vanished path completes the change set |
| FileTree.CompareTrees | config/file-tree.go:185-231 | the result lists each entry of the change set between the two snapshots exactly once |
| FileTree.CompareSameTree | config/file-tree.go:185-231 | a snapshot compared with itself gives no changes |
| FileTree.ApplyEnumeration | config/file-tree.go:198-229 | applying a listing of a change set, in any order, has the change set's effect |
| FileTree.OverlayDiff | config/file-tree.go:200-229 | the change set between two maps, applied to the first, gives the second |
| FileTree.ApplyComparison | config/file-tree.go:185-231 | applying the result of `CompareTrees` to the old snapshot's map yields the new snapshot's map |
| FilesAndFolders.AreUpdatesCached | filetracker/files-and-folders.go:87-99 | fails when `Changes` cannot be read; otherwise true exactly when a directory of the range's name exists there |
| FilesAndFolders.CleanFilesFromWorkspace | filetracker/files-and-folders.go:19-35 | fails, changing nothing, exactly when the workspace is not a directory; otherwise removes everything under each top-level name except `.PKr` and the binaries |
| FilesAndFolders.ClearEmptyDir | filetracker/files-and-folders.go:101-139 | only directories under the root are removed and no files; the directories left that were there are not empty |
| FilesAndFolders.ApplyChange | filetracker/files-and-folders.go:161-195 | one change touches only its own target: "Removed" deletes it, removes only directories inside the workspace and, on success, leaves no empty one there; "Updated" creates the target's parent directories and copies the downloaded file there; other kinds do nothing. It fails exactly when the change is blocked: a non-empty directory or the root at a "Removed" target; an empty target, a file on the parent path, a missing download or a directory at an "Updated" target |
| FilesAndFolders.StepApplied | filetracker/files-and-folders.go:161-196 | when no two changes share a target, one more change keeps the earlier changes' effects |
| FilesAndFolders.UpdateFilesFromWorkspace | filetracker/files-and-folders.go:160-198 | files no change names are kept and no stray file appears; new directories are only parents of "Updated" targets and only directories inside the workspace disappear; with independent changes and no error, every change has its effect; an error leaves some change blocked |
| Handler.InitError | handler/handler.go:58-73 | an incorrect password and a missing workspace are reported as such; every other failure is an internal error |
| Handler.InitNewWorkSpaceConnection | handler/handler.go:44-92 | nothing is written unless the password decrypts and authenticates and the key decodes; then the key is stored as `<username>.pem` |
| Handler.EncPathOfBundle | handler/handler.go:235-245 | when no workspace directory contains ".zip", the replaced name is the `.enc` file later checked for size |
| Handler.ZipInWorkspacePathMisplacesBundle | handler/handler.go:235-253 | under a directory named "a.zip", the encrypted bundle is written to a path other than the one checked |
| Handler.BundleFilesDistinct | handler/handler.go:214-238 | the zip, its encrypted form and the key and IV files are four different files |
| Handler.Decide | handler/handler.go:97-160 | a request is served only when it authenticates, the config is read and its push number is behind; -1 is a clone, any other number a pull from that push |
| Handler.AuthFailureIsIncorrectPassword | handler/handler.go:105-115 | every authentication failure is refused as an incorrect password |
| Handler.UpToDateOrAheadRefused | handler/handler.go:135-144 | a request at the current push gets "already latest", one beyond it "invalid last push number" |
| Handler.RequestKeysDistinct | handler/handler.go:148-178 | pulls share a cache key exactly when they share the range, and no pull shares a clone's key |
| Handler.SealedKeys | handler/handler.go:256-293 | the key and IV can be sent exactly when both files, the listener's public key and both RSA encryptions exist |
| Handler.UpdatesMap | handler/handler.go:163-177 | the response maps each merged path to its change type, which is the kind map of the merged set |
| Handler.WriteKeyFiles | handler/handler.go:207-233 | succeeds exactly when there are 16 random bytes for the key, a block for the IV, and both files can be created; then the key file holds the 16 bytes and the IV file the block; a failure after the key write leaves the key file |
| Handler.BundleKeepsKeys | handler/handler.go:214-243 | the key and IV files survive the encryption step unchanged |
| Handler.BuildBundle | handler/handler.go:193-246 | succeeds exactly when the range directory is new and its parent exists, the current zip decodes, and the key files and encrypted bundle can be created; then it leaves the range directory, key, IV and encrypted bundle of the selected members; an existing directory fails with nothing changed |
| Handler.SealBundle | handler/handler.go:204-243 | succeeds exactly when the key and IV can be drawn and written and the encrypted file created; then fresh key and IV lie beside the zip and the zip is replaced by its encryption |
| Handler.ServePull | handler/handler.go:161-254 | the updates map is the kind map of the merged records, and the size is the bundle's length; a cached bundle changes nothing, a miss builds it |
| Handler.EnsureBundle | handler/handler.go:181-253 | no `Changes` directory is an error; a cached range changes nothing; a size is the encrypted bundle's length |
| Handler.GetMetaData | handler/handler.go:94-305 | refusals change nothing; a clone reads only; a pull returns the merged kinds, bundle size and sealed keys; later failures are internal errors |
| NatPunching.Received | dialer/nat-punching.go:47-55 | a datagram reads as its text, cut to the 512-byte buffer |
| NatPunching.ReceivedText | dialer/nat-punching.go:47-55 | a short protocol text arrives unchanged |
| NatPunching.SendPunches | dialer/nat-punching.go:26-28 | the burst writes the same datagram five times, failures ignored |
| NatPunching.OwnerConnectsIffAccepted | dialer/nat-punching.go:48-79 | the owner connects exactly when a datagram from the peer reads "Punch" (and the ack is written) or "Punch ACK" |
| NatPunching.OwnerSkipsOthers | dialer/nat-punching.go:58-78 | datagrams the owner does not accept change nothing |
| NatPunching.OwnerAwait | dialer/nat-punching.go:47-79 | the read loop's outcome is that of the datagrams it meets; the ack is sent exactly for an accepted "Punch" |
| NatPunching.WorkspaceOwnerUdpNatPunching | dialer/nat-punching.go:17-80 | an unresolvable address sends nothing; otherwise the burst, then the read loop, and the deadline is cleared |
| NatPunching.SecondField | dialer/nat-punching.go:126 | the text between the first and second ';', absent exactly when there is no ';' |
| NatPunching.SecondFieldOfPayload | dialer/nat-punching.go:126-137 | a name without ';' is recovered from `<prefix>;<name>` |
| NatPunching.AckBranchUnreachable | dialer/nat-punching.go:125-138 | every text starting with "Punch ACK" starts with "Punch", so the second branch is dead |
| NatPunching.ListenerSkipsOthers | dialer/nat-punching.go:123-144 | datagrams from other addresses, or without the "Punch" prefix, change nothing |
| NatPunching.ListenerReadsName | dialer/nat-punching.go:123-134 | a `Punch...;<name>` datagram from the peer connects the listener with that name |
| NatPunching.HandshakeCarriesName | dialer/nat-punching.go:27-137 | whichever of the owner's datagrams arrives first, the listener learns the owner's handler name |
| NatPunching.HandshakeCompletesOwner | dialer/nat-punching.go:58-71 | the owner accepts the listener's "Punch" (replying) and its "Punch ACK" |
| NatPunching.BarePunchPanics | dialer/nat-punching.go:92-126 | a bare "Punch" from the peer, as the listener itself sends, makes the listener index past the split and panic |
| NatPunching.ListenerAwait | dialer/nat-punching.go:112-145 | the read loop's outcome is that of the datagrams it meets; "Punch ACK" is sent exactly on connecting |
| NatPunching.WorkspaceListenerUdpNatHolePunching | dialer/nat-punching.go:82-146 | an unresolvable address sends nothing; otherwise the burst, then the read loop yields the owner's handler name |
| NatPunching.PunchTarget | handler/notify-punch.go:77-84 | peers behind the same public IP use the private address, others the public one |
| NatPunching.SplitHostPort | handler/notify-punch.go:41-43 | host and port around the first ':', absent when there is none |
| NatPunching.SplitHostPortRoundTrip | ws/pull.go:47-49 | an IPv4 `ip:port` splits back into its host and port |
| NotifyPunch.LocalPort | handler/notify-punch.go:29 | the local port lies in [16384, 32768) |
| NotifyPunch.HandlerNames.ChooseName | handler/notify-punch.go:67-70 | the name is the first draw not in use; none exactly when every draw is taken |
| NotifyPunch.ChosenIsFirstFresh | handler/notify-punch.go:67-70 | the first fresh draw is the one taken |
| NotifyPunch.HandleNotifyToPunchRequest | handler/notify-punch.go:28-100 | STUN, address split (the panic as `PublicIpPanicked`), private IP, listen and name failures in the source's order; once those steps pass it succeeds exactly when some draw is fresh, and the reply carries the owner's addresses and port while the goroutine targets the listener's route with the first fresh name |
| NotifyPunch.CallReachesService | dialer/kcp-rpc.go:65 | a call named `ClientHandler<name>.GetMetaData` reaches the service registered as `ClientHandler<name>` |
| NotifyPunch.RpcServer.RegisterName | handler/notify-punch.go:104-109 | registration succeeds exactly for a new name |
| NotifyPunch.AcceptLoop | handler/notify-punch.go:126-171 | every accepted session gets its own handler, in order, and the listener is closed when accepting fails |
| NotifyPunch.StartNewNewServer | handler/notify-punch.go:102-172 | a taken name or failed listen stops the server; otherwise all pending sessions are served |
| NotifyPunch.PunchAndServe | handler/notify-punch.go:72-96 | a failed punch starts no server; after a successful punch the handler's service is registered, and serving fails exactly on a name already registered or a failed listen, otherwise every pending session is served |
| NotifyPunch.SessionTag | handler/notify-punch.go:148-149 | the 3-byte type buffer holds what was read, zero-padded |
| NotifyPunch.DispatchSession | handler/notify-punch.go:144-170 | "KCP" goes to the data handler, "RPC" to the RPC server, anything else is dropped |
| NotifyPunch.ShortTagUnknown | handler/notify-punch.go:148-169 | a type message shorter than 3 bytes matches neither tag |
| PkrConfig.MergeChangesKeyed | config/pkr-config.go:191-202 | the merged map keeps every entry under its own path |
| PkrConfig.MergeLocal | config/pkr-config.go:189-204 | a path's merged entry depends only on that path's own changes, in order |
| PkrConfig.EntryNotRefreshed | config/pkr-config.go:191-195 | an entry stays as first stored unless it is "Updated" and a "Removed" follows |
| PkrConfig.UpdatedThenRemovedDeletes | config/pkr-config.go:193-194 | "Updated" then "Removed" deletes the entry |
| PkrConfig.ReinsertedAfterDeletion | config/pkr-config.go:196-201 | after a deletion, the next change is stored afresh |
| PkrConfig.RemovedThenUpdatedStaysRemoved | config/pkr-config.go:191-202 | a file removed in one push and re-created in the next merges to "Removed" |
| PkrConfig.MergeEmptyRange | config/pkr-config.go:189 | an empty push range merges to nothing |
| PkrConfig.MergeChangesAppend | config/pkr-config.go:189-204 | merging two lists of changes is merging one after the other |
| PkrConfig.MergeInto | config/pkr-config.go:190-203 | the inner loop applies one record's changes in order |
| PkrConfig.MergeRange | config/pkr-config.go:188-204 | the outer loop merges records `start+1..end` in order |
| PkrConfig.ListChanges | config/pkr-config.go:206-209 | the output lists each merged entry exactly once |
| PkrConfig.WorkspaceConfigs.MergeUpdates | config/pkr-config.go:180-211 | fails exactly when the config cannot be read; otherwise lists the merged change set of the range |
| PkrConfig.WorkspaceConfigs.AppendWorkspaceUpdates | config/pkr-config.go:162-178 | on success the push record is appended and nothing else changes; a read or write failure changes nothing |
| PkrConfig.WorkspaceConfigs.UpdateLastPushNum | config/pkr-config.go:121-143 | a failed path lookup changes nothing; an unreadable config is replaced by an empty one with the new push number |
| Pull.PollFromFinds | ws/pull.go:82-99 | a response is found exactly when one of the seven checks sees one, and it is the first such |
| Pull.LateResponseMissed | ws/pull.go:82-104 | a response arriving after the seventh check is never seen |
| Pull.AwaitPunchResponse | ws/pull.go:82-99 | the loop yields the polled response and deletes it from the table |
| Pull.ConnectToAnotherUser | ws/pull.go:34-158 | failures in the source's order (the address-split panic as `PublicIpPanicked`), the server's refusal text passed on, then the resolve, timeout and panic outcomes of the punch; on success the handler name the owner's handshake datagram carried and the agreed address, as `Connection` computes |
| Pull.ConnectionCarriesOwnerName | ws/pull.go:134-157 | when the owner's punch is the first datagram from its address and the listener can still write after its burst, connecting returns the name that punch carried |
| Pull.RouteAgreed | ws/pull.go:60-132 | with the listener's addresses relayed to the owner and the owner's reply relayed back, both punch private addresses exactly when their public IPs match, and public ones otherwise |
| Pull.OnlyInternalErrorRecognised | ws/pull.go:262-270 | of the owner's error texts only "Internal Server Error" is short enough to be recognised |
| Pull.ReadProgress | ws/pull.go:254-255 | a read loses no byte and makes progress |
| Pull.ReceivedEnough | ws/pull.go:254-299 | a finished receive has at least `LenData` bytes, and no byte is lost |
| Pull.AlignedStreamDecrypts | ws/pull.go:254-299 | received chunk by chunk as the owner sends it, the bundle decrypts to the original zip |
| Pull.ReadBoundariesMatter | ws/pull.go:272-277 | the same bytes decrypt differently when cut into reads differently |
| Pull.LongReadTakenForData | ws/pull.go:262-277 | a read of 30 bytes or more is always decrypted as data |
| Pull.RangeRefusalTakenForData | ws/pull.go:262-277 | the owner's range refusal is decrypted and stored as bundle data |
| Pull.ReceiveBundle | ws/pull.go:248-308 | the receive loop's outcome is `Receive` over the queued messages |
| Pull.PullRequestReachesOwner | ws/pull.go:215-245 | the four messages the listener writes are read by the owner as a KCP session asking to pull that range |
| Pull.Cleaned | ws/pull.go:340-354 | what is left once the zip and the staging directory are gone |
| Pull.ApplyBundle | ws/pull.go:318-355 | unpack, apply, remove the zip and staging directory, stopping at the first error; the staging directory fails exactly on a file in its path, unpacking exactly on a missing, undecodable or unwritable archive, applying only on a blocked change, and removing only on a zip already gone |
| Pull.CleanedInTwoSteps | ws/pull.go:340-354 | removing the zip and then the staging directory is the clean-up |
| Pull.PulledChangesLand | ws/pull.go:318-355 | after a successful pull, each changed file holds the owner's version or is gone |
| Pull.PullKeepsUntouched | ws/pull.go:318-355 | a file no change names survives a pull unchanged |
| Pull.SendPullRequest | ws/pull.go:215-246 | the four writes go out in order, stopping at the first failure |
| Pull.DownloadBundle | ws/pull.go:185-355 | create the zip, request, receive, decrypt, acknowledge and apply |
| Pull.ReceiveAndApply | ws/pull.go:248-355 | receive and decrypt into the zip, acknowledge, then apply |
| Pull.FetchAndStoreDataIntoWorkspace | ws/pull.go:160-356 | the key, the IV and the workspace lookup each fail in order with nothing written; a wrong-length IV fails before the zip is created |
| Pull.LastMatchIsLast | ws/pull.go:386-393 | the last followed workspace of that name and owner is found, and nothing is found exactly when none matches |
| Pull.FindCredentials | ws/pull.go:386-393 | the loop yields the password and push number of the last match |
| Pull.BookmarkSkipsPulledEntry | ws/pull.go:388-445 | when an earlier entry has the same name, the bookmark update misses the pulled entry |
| Pull.PullFromSecondOwnerMovesFirst | ws/pull.go:388-445 | pulling "w" from the second owner moves the first owner's bookmark |
| Pull.PullWorkspace | ws/pull.go:358-463 | the call is made exactly when everything before it succeeds, names the punched handler's service and uses the last matching credentials; without a call, or when the call fails, nothing on disk changes; success means data fetched and the bookmark moved; any failure keeps the user-config |
| Pull.RequestMetaData | ws/pull.go:362-427 | a connection failure is reported as such; the `GetMetaData` call is made exactly when connecting, the RPC tag, the config, the owner's key and the encryption all succeed; it names the service of the handler the punch reported and uses the last matching credentials; its error or answer is passed on |
| Pull.FetchThenBookmark | ws/pull.go:437-450 | the bookmark moves only after a successful fetch |
| ShareData.ReadMsg | handler/share-data.go:106-113 | a read yields at most the buffer's size, nothing exactly when the session is closed |
| ShareData.ReadKeepsStream | handler/share-data.go:106-134 | a read loses and reorders no byte |
| ShareData.ReadWholeIffFits | handler/share-data.go:106-134 | a read returns a whole message exactly when it fits the buffer |
| ShareData.SendErrorMessage | handler/share-data.go:18-24 | the error text is sent if a write still succeeds, failure only logged |
| ShareData.ChunksCover | handler/share-data.go:197-239 | the file's reads are non-empty, at most 1 KiB, full but the last, and together the file |
| ShareData.ClonedStreamIsChunked | handler/share-data.go:57-99 | the clone stream, read back to back, is the chunk-wise encryption of the file |
| ShareData.SendPlain | handler/share-data.go:204-239 | the pull loop sends the file's chunks unchanged, stopping at the first failed write |
| ShareData.SendEncryptedChunk | handler/share-data.go:83-97 | one chunk encrypted and written; a bad key abandons the session |
| ShareData.SendEncrypted | handler/share-data.go:57-99 | the clone loop sends each chunk encrypted, stopping at the first failed write |
| ShareData.ParseRequestRoundTrip | handler/share-data.go:106-134 | the three parts a listener writes are read back one by one |
| ShareData.AwaitAck | handler/share-data.go:60-75 | the transfer counts as acknowledged exactly when the next read is "Data Received" |
| ShareData.HandleClone | handler/share-data.go:26-100 | missing key files end silently; a missing zip sends the internal error; otherwise the encrypted stream, then the ack |
| ShareData.HandlePull | handler/share-data.go:171-239 | a missing bundle sends the range refusal; otherwise the plain stream, then the ack |
| ShareData.ReadRequest | handler/share-data.go:106-134 | the three reads yield the parsed request |
| ShareData.Dispatch | handler/share-data.go:137-239 | unknown workspace: internal error; "Clone": missing archive refused, missing key files end silently, a directory in place of the archive gets the internal error, an invalid key ends a non-empty stream silently, otherwise the encrypted stream and the ack; "Pull": missing bundle refused, a directory in its place gets the internal error, otherwise the plain stream and the ack; another mode is refused |
| ShareData.GetDataHandler | handler/share-data.go:102-240 | a session closing before the request is complete gets nothing; otherwise the request is answered as `Dispatch` states |
| ShareData.PullStreamIsFile | handler/share-data.go:197-239 | what a pull listener receives, back to back, is the bundle |
| UsersConfig.Message | config/users-config.go:253-256 | the error texts that callers compare against identify the two errors |
| UsersConfig.PublicKeyPathOfPlainName | config/users-config.go:291 | a plain user name gives the key file `<others_keys>/<username>.pem` |
| UsersConfig.GetPublicKeyUsingUsername | config/users-config.go:283-299 | the key file's bytes, or an error exactly when it is missing |
| UsersConfig.AuthenticatedPathFound | config/users-config.go:231-257 | a successful authentication and the path lookup agree on the workspace |
| UsersConfig.UserConfigFile.GetSendWorkspaceFilePath | config/users-config.go:223-237 | the path of the first shared workspace with the name |
| UsersConfig.UserConfigFile.GetGetWorkspaceFilePath | config/users-config.go:207-221 | the path of the first followed workspace with the name |
| UsersConfig.UserConfigFile.AuthenticateWorkspaceInfo | config/users-config.go:240-257 | the first shared workspace with the name decides: its path when the password matches, otherwise an incorrect password |
| UsersConfig.UserConfigFile.UpdateLastPushNumInGetWorkspaceFolderToUserConfig | config/users-config.go:260-281 | the first followed workspace with the name gets the push number; failures change nothing |
| UsersConfig.UserConfigFile.RegisterNewSendWorkspace | config/users-config.go:159-180 | appends one shared workspace, without a duplicate check |
| UsersConfig.UserConfigFile.RegisterNewGetWorkspace | config/users-config.go:182-205 | appends one followed workspace |
| UsersConfig.UserConfigFile.CreateUserConfigIfNotExists | config/users-config.go:14-103 | an existing file is left alone; otherwise both key directories are created, the config is written with the given identity and no workspaces, and the key pair is stored as `private.pem` and `public.pem`, each failure ending the call with the earlier steps' effects kept |
| UsersConfig.AuthenticationIgnoresLaterEntries | config/users-config.go:248-255 | once a workspace name is registered, later entries with that name never decide authentication |
| Zip.ReturnZipFileObj | filetracker/zip.go:136-143 | the first member with exactly that name |
| Zip.LookupFound | filetracker/zip.go:136-143 | a found member has the name asked for; none exactly when no member has it |
| Zip.SelectionFromSource | filetracker/zip.go:175-203 | every copied member is a source member named by an "Updated" change |
| Zip.SelectionComplete | filetracker/zip.go:175-203 | when the source holds every updated file, one member per "Updated" change, in order |
| Zip.MissingEntryTruncates | filetracker/zip.go:180-185 | a missing file silently ends the copy, later updates dropped |
| Zip.ZipUpdates | filetracker/zip.go:145-205 | the directory must be new; on success the zip holds the selected members |
| Zip.CopyUpdated | filetracker/zip.go:175-203 | the copy loop writes the selection |
| Zip.UnpackedKeys | filetracker/zip.go:90-131 | a file is unpacked exactly when a non-directory member targets it |
| Zip.UnpackedLastWins | filetracker/zip.go:90-131 | the last member with a target decides its bytes |
| Zip.UnzipEntry | filetracker/zip.go:91-127 | a directory member is skipped; a file member succeeds exactly when its target is not empty, no file lies on its parent path and no directory is at the target; then its parents exist and the file is written |
| Zip.UnzipData | filetracker/zip.go:82-134 | succeeds exactly when the archive opens and every member, in order, can be written over what the members before it left; then the destination holds the unpacked members and their parent directories over what was there |
| Zip.AddFilesToZip | filetracker/zip.go:16-50 | only members for readable files outside protected names; all of them when everything is readable |
| Zip.PackableAppend | filetracker/zip.go:24-48 | the members of two lists of children are those of each |
| Zip.ZipData | filetracker/zip.go:52-80 | succeeds exactly when no file lies on the destination path and no directory is at the zip path; the zip is written with the workspace's packable members, all of them when everything is readable |

## Left out

- FileSystem: the `os` calls are modelled on a map of files and a set of
  directories. Permissions, other OS errors, symbolic links, and "." and ".."
  components are not modelled.
- `FolderTree`, `SaveDataToFile`, `copyFile`, `CreatePKRConfigIfNotExits`,
  `StorePublicKeyOfOtherUser` and the read/write helpers of the config files
  are not part of this model. Config files are values that are present,
  corrupt or missing, and a write succeeds or fails as a parameter says.
- Hash.HashFile: the streaming and pooled hash reads the file the same way
  as the plain one. The pools and the buffering are not modelled.
- FileTree.GetNewTree: the workers run one after another. Goroutines and the
  wait group are not modelled, because the shards are disjoint.
  `runtime.NumCPU` is a parameter.
- FileTree.HashInShards requires a non-empty list and shards that start
  within it. `GetNewTree` reports the other inputs as the panics
  `DivisionByZero` and `SliceOutOfRange` (`FileTree.InvertedShard`,
  `FileTree.OnlyPKrCollectsNothing`).
- FileTree.FetchAllFilesPaths: the children are walked in the order given,
  not sorted by name as `filepath.Walk` does.
- FilesAndFolders.UpdateFilesFromWorkspace: Go's random map order is a
  parameter. Error texts are not modelled, and `ClearEmptyDir` after a
  removal is modelled by its contract.
- FilesAndFolders.UpdateFilesFromWorkspace: that each directory it prunes was empty is
  stated per change by `ApplyChange`, not for the whole map.
- FilesAndFolders.UpdateFilesFromWorkspace: a failure names a change blocked in
  the final state. That success follows when no change is blocked at its turn
  is stated per change by `ApplyChange` only, since the turns follow Go's
  random map order.
- FilesAndFolders.ClearEmptyDir: a directory that cannot be read or removed
  is skipped. The model removes every empty one.
- Aes: the block cipher and `crypto/rand` are parameters. `bufio` reads of a
  regular file are full chunks. Write and flush failures are not modelled.
- Aes.EncryptZipFileAndStore: a failed remove of the zip is not modelled.
- Handler.GetMetaData requires `lastPushNum >= -1`. A lower number makes
  `MergeUpdates` index a negative record, and the source panics.
- Handler.GetMetaData requires the push records to reach the current push,
  because the source indexes `AllUpdates[LastPushNum]` and panics otherwise.
- Handler.GetMetaData: after an internal error in the middle of building a
  bundle, only the error is stated, not the files left behind.
- RSA encryption and decryption and base64 decoding are parameters.
- PkrConfig.WorkspaceConfigs.MergeUpdates requires the record indexes of the
  range to exist. The source panics otherwise.
- Zip: the zip format is an encoder parameter and archives are lists of
  members. Errors while opening or copying a member are not modelled.
- Zip.AddFilesToZip: a writer that fails to create a member is not modelled.
- ShareData: each write is one message. A broken connection is a budget of
  writes that still succeed. A session that delivers a message in pieces is
  not modelled.
- NotifyPunch.DispatchSession requires every workspace's clone IV to be one
  block long. `cipher.NewCTR` panics otherwise.
- ShareData.HandleClone requires the clone IV of its workspace to be one block
  long, for the same reason.
- ShareData.Dispatch and ShareData.GetDataHandler require every workspace's
  clone IV to be one block long, for the same reason.
- Aes.EncryptDecryptChunk requires an IV of one block. `cipher.NewCTR` panics
  on any other length (encrypt/my-aes.go:43), and every caller passes a
  checked block.
- NotifyPunch.HandleNotifyToPunchRequest: a STUN address without ':' makes the source
  index out of range and panic. The model returns `PublicIpPanicked`.
- Pull.ConnectToAnotherUser: a STUN address without ':' makes the source index
  out of range and panic. The model returns `PublicIpPanicked`.
- UsersConfig.UserConfigFile.CreateUserConfigIfNotExists: the RSA key pair is a parameter. The panic
  when generation fails and `os.Stat` errors other than "not exist" are not
  modelled. The config file is its own value, not a file of the `Disk`.
- Zip.ZipData: the workspace tree it packs is a parameter. Nothing ties that tree
  to the `Disk` the archive is written to.
- Zip.AddFilesToZip: the tree is a parameter, as for `ZipData`.
- Timeouts and sleeps, the random local port, KCP's dial errors and its
  congestion parameters are not modelled; deadlines are the end of a queue.
  A failure to set the KCP listener's read deadline is not modelled.
- NotifyPunch.HandlerNames.ChooseName: the random draws are a finite list of
  candidates. No candidate being fresh stands for the loop that never ends.
- NatPunching.WorkspaceListenerUdpNatHolePunching: the index-out-of-range
  panic is the result `ListenerPanicked`.
- Pull.PullWorkspace: the desktop notification is not modelled. Only the
  tag of the RPC session is modelled, not `net/rpc` framing, and sessions
  are not closed.
- Pull.FetchAndStoreDataIntoWorkspace: a wrong-length IV fails before the
  zip file is created, where the source would panic in `cipher.NewCTR`.
- Pull.FetchAndStoreDataIntoWorkspace: after a receive failure the zip file
  is left empty. The partly flushed bytes are not modelled.
