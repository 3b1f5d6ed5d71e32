# Nuk4sd vault core: a verified model

This project models the stateful core of Nuk4sd, a vault and sandbox program written in C
and Rust, and proves what its parts promise about whole runs, round trips and refinements.
`dafny verify dfyconfig.toml` checks all of it.

The operating system, AES, SHA-256, the key derivation and the clock are parameters: a file
system answers each request with success or failure, a cipher is a key stream and a tag
function, a hash or a signature is any function, a clock reading is an argument. Code that
updates a record, an array or a file in place is a class whose methods are proved against a
function of its old and new state; the theorems about whole runs are lemmas about those
functions.

## The parts

- **FUSE layer.** `FuseCtr` has the seekable counter-mode stream with its byte-carry loop:
  below the point where the low counter half wraps, an encrypted file cannot be told from a
  plain byte array over any run of hole-free reads and writes. `FuseWorm` and
  `FuseWormProofs` have the WORM flags as a state machine that gates every file operation,
  and what each protection guarantees over all runs. `MountLifecycle` interleaves mount and
  unmount calls with the FUSE threads.
- **Launch handshake.** `LaunchHandshake` is the parent and the child of a sandbox with their
  up to four pipes, each a program counter: ordering, freedom from deadlock, an end, and
  exactly when the program runs.
- **Catalog.** `FileHashMap` is the chained hash map as a refinement of a finite map, and
  `TrackedFiles` joins it to the scan's records and the catalog's values; `ByteLayout`,
  `CatalogCodec`, `CatalogLayout` and `CatalogStream` are the catalog file with its printer, its
  parser and the offsets of its fields;
  `CatalogManager` the flat array of vaults with its names and ids.
- **Authentication and file encryption.** `Lockout` bounds password guessing; `FileCrypto` is
  one encrypted file, `VaultRekey` the change of password with the directory's state at every
  step, `VaultSealing` a whole directory encrypted and decrypted.
- **Integrity and versions.** `IntegrityScan` has the scan and its report, `Escalation` the
  repeated alerts, `TreeCopy` and `Snapshots` the recursive copy and the snapshots made with
  it, `Baseline` the signed manifest.
- **Algorithms.** `EditDistance` (two different matrices), `DecoyTree`, `Tokenizer`,
  `PathContainment`.

## Where the code differs from what it says

Each point names the members that state it: a concrete witness, an exact condition, or both.

- Under write protection a new file can be created but not populated, although the header says
  that it can (`FuseWormProofs.NewFileCannotBePopulated`), and a truncating create empties an
  existing file (`FuseWormProofs.WriteGate`).
- The carry loop stops at 64 bits while the cipher counts in 128, so a file may hold only as
  many bytes as fit before the low half wraps (`FuseCtr.CounterDependsOnPositionOnly`,
  `FuseCtr.WrapBreaksRefinement`). The counter block is hashed from the path, so a rename
  garbles a file (`FuseCtr.ReadAfterRename`).
- `vault_unlock` cannot unlock, because the password check refuses a locked vault first
  (`Lockout.UnlockNeverUnlocks`); an alert does lift the lock (`Lockout.AlertLiftsLock`).
- A change of password that is aborted preserves the data exactly if no file was moved yet
  (`VaultRekey.AbortPreservesIff`, `VaultRekey.AbortLosesMovedFile`); the others are under a
  key that is thrown away. A change that succeeds has moved all files exactly if it met them
  all (`VaultRekey.SuccessMovesWhatItMeets`): a directory that does not open, as after the
  `chmod` to 0000 of a repeated alert (vault_monitor.c:421), or a file that lstat fails on
  counts as done (`VaultRekey.UnopenedIsStranded`). What happens to the last flush of a file
  is reported by no one, so on a full disk a change that succeeds may leave a file under
  neither key (`VaultRekey.NothingIsDestroyedIff`, `VaultRekey.FullDiskDestroys`). If only the last derivation fails, the new
  salt stays with the old hash (`VaultRekey.LateFailureLocksOut`).
- A save keeps at most 1000 files of a vault (`CatalogCodec.ReloadKeepsFiles`). It looks at
  no write, so on a full disk it may report success and cost the whole catalog
  (`CatalogStream.SavedLoadsIff`).
- Ids are reissued after 2^32 of them, possibly to a second live vault
  (`CatalogManager.NeverReissued`, `CatalogManager.WrapDuplicatesIds`).
- Two scans within one second miss a deletion (`IntegrityScan.SameSecondMissesDeletion`); a
  report counts right only under the condition of `IntegrityScan.CountIsRight`.
- Verification follows links, so a file replaced by a link to equal content passes
  (`Baseline.LinkGoesUnnoticed`). An unchanged vault passes against its own baseline exactly
  under the condition of `Baseline.OwnBaselinePasses`: it fails if a path in it has a `|`, a
  line break or white space at its end (`Baseline.LineParsesExactly`), and also if its only
  file has a backslash in its name or bytes that are not UTF-8 (`Baseline.OnlyFileIsMissing`);
  beside a file of the same printed path such a file may change unnoticed
  (`Baseline.TwinGoesUnnoticed`). The recorded size is not compared
  (`Baseline.SizeGoesUnnoticed`).
- An accepted overlay or bind path is contained only as far as realpath resolves it: a `..` or
  a dangling link in the rest may lead out of the root, and nothing else may
  (`PathContainment.ContainedIff`, `PathContainment.MissingNameLeadsOut`,
  `PathContainment.DanglingLinkLeadsOut`).
- A restore ignores removals that fail and may still report success; `Snapshots.RestoredIff`
  says which leftovers then keep the vault from being the snapshot.
- Decryption refuses files over 512 MiB that encryption writes, and names that leave no room
  for its temporary suffix (`FileCrypto.OpenSeal`, `VaultSealing.ThereAndBack`). Encryption
  removes a plaintext of which only a part reached the disk
  (`VaultSealing.PlaintextIsKeptIff`).
- The decoy check's comment asks for regular files; the code looks at names only
  (`DecoyTree.CheckLayerFiles`).

## Model

| member | source | states |
|---|---|---|
| FuseCtr.AdvanceCounter | c_src/vault/vault_fuse.c:169-175 | the carry loop adds the block index to the low eight counter bytes modulo 2^64 and leaves the high eight alone |
| FuseCtr.CtrContext.Update | c_src/vault/vault_fuse.c:177-199 | the cipher context masks its input with the key stream from its position on, and moves on by the length of the input |
| FuseCtr.CryptStream | c_src/vault/vault_fuse.c:143-208 | the whole routine masks file byte j with the key byte of the block that the call reaches for j |
| FuseCtr.CipherFile.Write | c_src/vault/vault_fuse.c:343-418 | byte by byte: as many bytes as pwrite takes are on disk at their places under the key bytes, or as they are when the cipher could not be set up, with zeros in a gap and the rest untouched; an error leaves the disk alone |
| FuseCtr.CipherFile.Read | c_src/vault/vault_fuse.c:312-341 | byte by byte: the bytes of the asked range that pread delivers, each under its key byte, or the bytes themselves when the cipher could not be set up, or the error |
| FuseCtr.CounterDependsOnPositionOnly | c_src/vault/vault_fuse.c:169-199 | a call starting at an offset uses for byte j the block a call at j would use, exactly if no block in between wraps the low half |
| FuseCtr.CallKeyIsPositionKey | c_src/vault/vault_fuse.c:169-199 | below the limit where the low half wraps, the key stream depends on the position alone |
| FuseCtr.WriteRefines | c_src/vault/vault_fuse.c:343-418 | a write below the limit is a plain write of the plain file |
| FuseCtr.ReadRefines | c_src/vault/vault_fuse.c:312-341 | a read below the limit is a plain read of the plain file |
| FuseCtr.ChunkingIrrelevant | c_src/vault/vault_fuse.c:143-208 | however a buffer is cut into calls, the same bytes reach the disk |
| FuseCtr.RunRefines | c_src/vault/vault_fuse.c:312-418 | over every run of hole-free writes and reads below the limit, of any sizes and alignments, failing and short ones included, the file on disk cannot be told from a plain byte array |
| FuseCtr.ReadAfterRename | c_src/vault/vault_fuse.c:156-166 | the counter is hashed from the path: after a rename the file reads the same exactly where the two key streams agree |
| FuseCtr.FailedCipherWrite | c_src/vault/vault_fuse.c:343-418 | a write whose cipher set-up failed is on disk in the clear; it reads back right exactly where the key stream is zero |
| FuseCtr.WrapBreaksRefinement | c_src/vault/vault_fuse.c:169-199 | past the limit the refinement fails: a concrete cipher, counter and run |
| FuseWorm.Mount.OpenFile | c_src/vault/vault_fuse.c:285-310 | opening is denied under write protection when it asks for writing; otherwise it fails as open(2) does or, with truncation, empties the file, and no other path changes |
| FuseWorm.Mount.Read | c_src/vault/vault_fuse.c:312-341 | an undenied read of a file replies with the bytes of the asked range, as many as there are, through the codec; the tree stays |
| FuseWorm.Mount.Write | c_src/vault/vault_fuse.c:343-418 | an undenied write leaves the coded bytes at their places, zeros in a gap and every other byte and path alone; it creates a missing file, and under write protection it is denied for an existing path |
| FuseWorm.Mount.MakeDir | c_src/vault/vault_fuse.c:420-441 | a directory is made exactly if nothing is there, its parent is one and no scan is on |
| FuseWorm.Mount.Remove | c_src/vault/vault_fuse.c:443-459 | a file is removed exactly if it is one and deletion is not protected |
| FuseWorm.Mount.RemoveDir | c_src/vault/vault_fuse.c:461-482 | a directory is removed exactly if it is an empty one, not the root, and deletion is not protected |
| FuseWorm.Mount.RenameTo | c_src/vault/vault_fuse.c:484-520 | an undenied rename succeeds exactly under the conditions of rename(2), and then what was below one path is below the other, what was there is gone and the rest is as it was |
| FuseWorm.Mount.CreateFile | c_src/vault/vault_fuse.c:522-543 | a missing file is made empty in an existing directory, an existing one is truncated on request, unless a scan is on |
| FuseWorm.Mount.WormSetFlags | c_src/vault/vault_fuse.c:880-893 | the bits asked for go up, no other changes, and the scan bit is refused |
| FuseWorm.Mount.WormClearFlags | c_src/vault/vault_fuse.c:895-912 | the bits asked for go down and no other changes; the scan flag stays and forbids clearing |
| FuseWorm.Mount.WormSetScan | c_src/vault/vault_fuse.c:914-923 | the scan flag and all four protections go up |
| FuseWorm.WriteThenRead | c_src/vault/vault_fuse.c:312-418 | what an undenied write has put in a file is what a read at the same place returns |
| FuseWorm.RenameEffect | c_src/vault/vault_fuse.c:484-520 | a rename moves the whole subtree and nothing else, exactly when it may |
| FuseWormProofs.StepKeepsWellFormed | c_src/vault/vault_fuse.c:285-543 | every call keeps a tree whose nodes have directories above them and whose files have distinct identities |
| FuseWormProofs.DeleteGate | c_src/vault/vault_fuse.c:443-520 | under delete protection no call loses a file identity |
| FuseWormProofs.WriteGate | c_src/vault/vault_fuse.c:343-418 | under write protection a call changes the bytes of a live file exactly if it is a truncating create of an existing non-empty file |
| FuseWormProofs.AllThreeGates | c_src/vault/vault_fuse.c:285-543 | under delete, write and rename protection every existing path keeps its node |
| FuseWormProofs.ScanGate | c_src/vault/vault_fuse.c:285-543 | under the scan flag the tree changes exactly if a write names an absent path, and the flag stays |
| FuseWormProofs.ReadGate | c_src/vault/vault_fuse.c:312-341 | under read protection no call returns data |
| FuseWormProofs.HeldUnlessCleared | c_src/vault/vault_fuse.c:880-923 | a protection that is on stays on over any run that does not clear its bit |
| FuseWormProofs.DeleteProtectsRun | c_src/vault/vault_fuse.c:443-520 | over any run under delete protection no file identity is lost |
| FuseWormProofs.NoResurrection | c_src/vault/vault_fuse.c:285-543 | over any run dead identities stay dead |
| FuseWormProofs.WriteProtectsRun | c_src/vault/vault_fuse.c:285-543 | over any run under write protection a file alive at both ends has the same bytes at both ends, however it was renamed |
| FuseWormProofs.AllThreeProtectRun | c_src/vault/vault_fuse.c:285-543 | over any run under all three protections every existing path keeps its bytes |
| FuseWormProofs.ScanFreezesRun | c_src/vault/vault_fuse.c:285-543 | once the scan flag is on the tree never changes again and the flag is never cleared |
| FuseWormProofs.NewFileCannotBePopulated | c_src/vault/vault_fuse.c:343-418 | against the comment of the header: a file created under write protection stays empty |
| FuseWormProofs.ScanAdmitsWriteToAbsentPath | c_src/vault/vault_fuse.c:343-418 | without the order the kernel keeps, a write under the scan flag does create a file |
| LaunchHandshake.StepKeepsInvariant | c_src/cli/vault_cli.c:1860-2116 | every system call of parent or child, and the death of the child, keeps the invariant of program points, pipe contents and facts |
| LaunchHandshake.RunKeepsInvariant | c_src/cli/vault_cli.c:1860-2116 | so does every interleaving |
| LaunchHandshake.LaunchOrdering | c_src/cli/vault_cli.c:1911-2076 | a child past its sync read has its id maps and, if asked for, its control group; past its second read the set-up of a virtual network was tried; a program that runs is filtered exactly if a filter was asked for on a private network |
| LaunchHandshake.MapsAfterNamespace | c_src/cli/vault_cli.c:1911-1960 | the maps are written only into a namespace that exists |
| LaunchHandshake.NoDeadlock | c_src/sandbox/jail.c:589-721 | until the parent is done one of the two processes can move |
| LaunchHandshake.RunIsBounded | c_src/cli/vault_cli.c:1860-2116 | every step uses up one of the steps that are left |
| LaunchHandshake.EveryLaunchFinishes | c_src/cli/vault_cli.c:1860-2116 | a launch takes at most 33 steps, and when nothing can move any more the parent is past waitpid and the child is gone |
| LaunchHandshake.ProgramRunsIff | c_src/cli/vault_cli.c:1860-2116 | a launch that has come to its end has run the program exactly if nothing fatal happened, in any interleaving |
| LaunchHandshake.SmoothLaunch | c_src/cli/vault_cli.c:1911-2116 | if every system call works the program runs, in its user namespace with its maps, with a control group, a virtual network and a filter exactly as asked for |
| LaunchHandshake.SmoothLaunchExists | c_src/cli/vault_cli.c:1860-2116 | such a launch exists for every choice of options |
| MountLifecycle.StepKeepsInvariant | c_src/vault/vault_fuse.c:575-869 | every step of a mount or unmount call and of a FUSE thread keeps the invariant |
| MountLifecycle.RunKeepsInvariant | c_src/vault/vault_fuse.c:575-869 | so does every interleaving |
| MountLifecycle.MountSafety | c_src/vault/vault_fuse.c:575-869 | at most one FUSE thread is alive; the cipher directory is open exactly while it is between unlock and re-seal; not mounted means sealed and no thread |
| MountLifecycle.MountWorks | c_src/vault/vault_fuse.c:575-869 | a mount whose steps all work reports success at its sixth step and has started one thread; mounted from then on until the thread is over, open between its unlock and its re-seal |
| MountLifecycle.MountCanWork | c_src/vault/vault_fuse.c:632-804 | and such a mount is possible |
| MountLifecycle.FailureIsReported | c_src/vault/vault_fuse.c:632-804 | when binding, starting the thread or finding the mount point fails the call ends in an error, whatever the threads do |
| EditDistance.LevenshteinC | c_src/sandbox/jail.c:23-40 | the C matrix computes the edit distance |
| EditDistance.LevenshteinRust | rust/path_assistant.rs:9-33 | the Rust matrix, which takes the diagonal on equal characters, computes the same |
| EditDistance.NeighboursDifferByOne | c_src/sandbox/jail.c:30-37 | adjacent cells differ by at most one |
| EditDistance.DiagonalWins | rust/path_assistant.rs:22-30 | so on equal characters the diagonal is the least of the three |
| EditDistance.BestScript | c_src/sandbox/jail.c:23-40 | some edit script turns one word into the other at the cost of the distance |
| EditDistance.NoScriptIsCheaper | c_src/sandbox/jail.c:23-40 | and none is cheaper |
| EditDistance.Symmetric | c_src/sandbox/jail.c:23-40 | the distance is symmetric |
| EditDistance.ZeroIffEqual | c_src/sandbox/jail.c:23-40 | and zero exactly of equal words |
| EditDistance.LengthBounds | c_src/sandbox/jail.c:23-40 | and between the difference and the maximum of the lengths |
| EditDistance.Triangle | c_src/sandbox/jail.c:23-40 | and satisfies the triangle inequality |
| EditDistance.CellRecurrence | c_src/sandbox/jail.c:30-37 | a matrix cell is the distance of two prefixes |
| EditDistance.FindClosest | c_src/sandbox/jail.c:43-82 | the search returns the first executable entry of least distance within the bound, or none if there is none |
| FileHashMap.FileHashMap.constructor | c_src/vault/vault_core.h:222-227 | an empty map refines the empty finite map |
| FileHashMap.FileHashMap.Find | c_src/vault/vault_catalog.c:133-140 | finding walks the right chain to the entry of the name, or to its end |
| FileHashMap.FileHashMap.Insert | c_src/vault/vault_catalog.c:142-159 | inserting returns the entry there is, or pushes a new one on its chain; the map stays a finite map with its count exact |
| FileHashMap.PushRefines | c_src/vault/vault_catalog.c:152-158 | a new name pushed on its chain keeps entries in their own buckets and names distinct |
| FileHashMap.WalkEnumerates | c_src/vault/vault_monitor.c:343-361 | walking all chains comes to every entry of the map and to no name twice |
| TrackedFiles.ChainsListRecords | c_src/vault/vault_monitor.c:343-361 | the chains of the hash map list the records that the scan and the report work on, each name once |
| TrackedFiles.ChainsAreSound | c_src/vault/vault_catalog.c:118-175 | as values the chains are the sound map that the catalog file keeps, with the exact count |
| TrackedFiles.InsertsAgree | c_src/vault/vault_catalog.c:142-159 | inserting a new name into the linked chains is the insertion that a load makes on values |
| IntegrityScan.ScannedVault.Visit | c_src/vault/vault_monitor.c:305-337 | one directory entry: registered if new, flagged exactly if its hash changed, an alert only when the flag goes up |
| IntegrityScan.ScannedVault.Sight | c_src/vault/vault_monitor.c:288-340 | the pass over the directory compares every file with what was recorded before the scan |
| IntegrityScan.ScannedVault.Expire | c_src/vault/vault_monitor.c:346-358 | one tracked file: flagged if it was last seen before this scan |
| IntegrityScan.ScannedVault.Sweep | c_src/vault/vault_monitor.c:343-361 | the pass over the chains flags what was not seen |
| IntegrityScan.ScannedVault.Scan | c_src/vault/vault_monitor.c:270-365 | file by file: what is there is recorded with its hash and flagged exactly if it was recorded with another one, what is missing is flagged if it was last seen earlier, one alert for each flag that goes up; a deleted vault or one whose directory does not open is left as it is, the time of the last check included |
| IntegrityScan.SweepCompletesScan | c_src/vault/vault_monitor.c:288-361 | the second pass never touches what the first has seen |
| IntegrityScan.RaisedInTwoPasses | c_src/vault/vault_monitor.c:288-361 | no file is raised by both passes |
| IntegrityScan.RecordsTellHistory | c_src/vault/vault_monitor.c:270-365 | after any run of scans, whatever the clock: tracked is what was ever seen, the hash is that of the last sighting, and the flag is up exactly if that sighting differed from the one before or a later second missed it |
| IntegrityScan.FlagsAreExact | c_src/vault/vault_monitor.c:270-365 | with an advancing clock a file is flagged after a scan exactly if the scan missed it or saw it changed |
| IntegrityScan.SeenIff | c_src/vault/vault_monitor.c:288-306 | a scan takes up exactly the readable regular files without a dot in front |
| IntegrityScan.SameSecondMissesDeletion | c_src/vault/vault_monitor.c:343-361 | two scans within a second: the deletion in between goes unnoticed |
| IntegrityScan.PutName | c_src/vault/vault_ffi.c:460-466 | one flagged name goes into the buffer as far as it fits and is counted |
| IntegrityScan.ReportChain | c_src/vault/vault_ffi.c:459-468 | one chain, left when the buffer is full |
| IntegrityScan.ReportChains | c_src/vault/vault_ffi.c:455-470 | all chains; a buffer of one byte ends after the first |
| IntegrityScan.Report | c_src/vault/vault_ffi.c:452-474 | the report holds the flagged names cut where the buffer ends, and counts the lines begun |
| IntegrityScan.CountIsRight | c_src/vault/vault_ffi.c:455-470 | the count is the number of names exactly if every line but the last leaves room |
| IntegrityScan.LineIsThere | c_src/vault/vault_ffi.c:460-466 | each line of the report begins where the one before ends and is the name and a line feed |
| IntegrityScan.BegunIff | c_src/vault/vault_ffi.c:455-470 | a line is counted exactly if the lines before it leave room |
| IntegrityScan.AllFlaggedIff | c_src/vault/vault_ffi.c:459-460 | the names reported are those in the chains whose record is flagged |
| IntegrityScan.ReportCountsFlagged | c_src/vault/vault_ffi.c:455-470 | when the chains list each tracked file once the report counts exactly the flagged files if and only if every line but the last leaves room |
| ByteLayout.SignedRoundTrip | c_src/vault/vault_catalog.c:214-221 | a signed word survives its little-endian bytes |
| ByteLayout.SplitJoin | c_src/vault/vault_catalog.c:320-327 | fixed-size fields joined are read back one by one, and no further |
| ByteLayout.SplitExtends | c_src/vault/vault_catalog.c:320-327 | what was read stays the same when more follows |
| ByteLayout.ManyReadBack | c_src/vault/vault_catalog.c:345-404 | a list of records is read back record by record |
| CatalogCodec.IdentityRoundTrip | c_src/vault/vault_catalog.c:206-213 | the identity fields of a vault round-trip |
| CatalogCodec.ChecksRoundTrip | c_src/vault/vault_catalog.c:214-216 | so do its times and its failure count |
| CatalogCodec.AlertRoundTrip | c_src/vault/vault_catalog.c:218-222 | so does its alert state |
| CatalogCodec.AuthRoundTrip | c_src/vault/vault_catalog.c:224-228 | so do salt, hash and WORM flags |
| CatalogCodec.EntryRoundTrip | c_src/vault/vault_catalog.c:244-248 | so does a file entry with its zero-padded name |
| CatalogCodec.VaultRoundTrip | c_src/vault/vault_catalog.c:345-404 | a printed vault parses back with its map refilled from the printed entries, and no further |
| CatalogCodec.LoadOfImage | c_src/vault/vault_catalog.c:269-412 | a saved catalog loads as itself with its maps refilled; a version 2 image loads like its version 3 twin with mac_mode unset |
| CatalogCodec.FilledReverses | c_src/vault/vault_catalog.c:382-401 | entries of distinct names loaded in turn leave every chain in reverse |
| CatalogCodec.FilledCounts | c_src/vault/vault_catalog.c:142-159 | and each is counted once |
| CatalogCodec.ReloadKeepsFiles | c_src/vault/vault_catalog.c:231-251 | a reloaded vault tracks the same files with the same records exactly if at most FCOUNT_MAX are tracked |
| CatalogCodec.ReloadReversesChains | c_src/vault/vault_catalog.c:382-401 | a reload turns every chain around |
| CatalogCodec.ReloadFits | c_src/vault/vault_catalog.c:345-404 | a reloaded vault is sound again: entries in their buckets, no name twice, the count exact |
| CatalogCodec.ReloadTwiceIsIdentity | c_src/vault/vault_catalog.c:181-412 | saving and loading twice restores the very chains in their order |
| CatalogCodec.TruncationRejected | c_src/vault/vault_catalog.c:269-412 | no strict prefix of an image loads, in either version |
| CatalogCodec.TooManyVaultsRejected | c_src/vault/vault_catalog.c:338-343 | an image that claims more than MAX_VAULTS vaults is refused |
| CatalogCodec.LastEntryCounts | c_src/vault/vault_catalog.c:142-159 | of several entries with one name the last one read is the one that counts |
| CatalogLayout.IdentityLayout | c_src/vault/vault_catalog.c:206-213 | each identity field of a vault stands at its offset in 1165 bytes |
| CatalogLayout.ChecksLayout | c_src/vault/vault_catalog.c:214-216 | so do its times and its failure count in 20 |
| CatalogLayout.AlertLayout | c_src/vault/vault_catalog.c:218-222 | its alert state in 288 |
| CatalogLayout.AuthLayout | c_src/vault/vault_catalog.c:224-228 | salt, hash and WORM flags in 68 |
| CatalogLayout.EntryLayout | c_src/vault/vault_catalog.c:244-248 | a file entry takes 330 bytes, its name followed by zeros |
| CatalogLayout.VaultLayout | c_src/vault/vault_catalog.c:204-251 | the sections of a vault stand one behind the other, then the number of files, then the files |
| CatalogLayout.FileLayout | c_src/vault/vault_catalog.c:236-251 | the k-th file of the walk stands k times 330 bytes behind the start of the files |
| CatalogLayout.ImageLayout | c_src/vault/vault_catalog.c:193-200 | the file begins with the magic, the version, the number of vaults, the next id, the category and the mode |
| CatalogLayout.OtherFiles | c_src/vault/vault_catalog.c:285-316 | another magic is a failure, and exactly another version than 2 or 3 is a fresh start |
| CatalogLayout.LittleByte | c_src/vault/vault_catalog.c:193-200 | byte i of a printed word is its i-th digit to the base 256 |
| CatalogStream.Writer.PutFiles | c_src/vault/vault_catalog.c:236-251 | the nested loops print the first entries of the walk over the chains, as many as announced |
| CatalogStream.Writer.PutVault | c_src/vault/vault_catalog.c:204-251 | one vault is appended as the format says |
| CatalogStream.Writer.Save | c_src/vault/vault_catalog.c:194-252 | what is handed to the stream is the image of the catalog |
| CatalogStream.CatalogFile.Save | c_src/vault/vault_catalog.c:181-265 | catalog_save as a whole: no write is looked at, so success leaves some front of the image as the catalog file; failure leaves the old one |
| CatalogStream.SavedLoadsIff | c_src/vault/vault_catalog.c:254-265 | what a successful save leaves loads as the saved catalog exactly if all of it reached the disk, and otherwise not at all |
| CatalogStream.Reader.Fields | c_src/vault/vault_catalog.c:318-327 | checked reads of one field after the other either deliver all fields or fail |
| CatalogStream.Reader.Files | c_src/vault/vault_catalog.c:373-401 | the entries are read and inserted one by one; the map and its count are those of the format |
| CatalogStream.Reader.ReadVault | c_src/vault/vault_catalog.c:345-404 | one vault is read as the format says |
| CatalogStream.Reader.LoadCatalog | c_src/vault/vault_catalog.c:287-412 | what is loaded is what the format makes of the file: failure, a fresh start or a catalog |
| CatalogManager.CatalogArray.FindById | c_src/vault/vault_catalog.c:418-424 | the first vault with the id |
| CatalogManager.CatalogArray.FindByName | c_src/vault/vault_catalog.c:426-432 | whether the name is in use |
| CatalogManager.CatalogArray.AutoName | c_src/vault/vault_catalog.c:435-445 | the first free numbered name, found within count + 1 tries |
| CatalogManager.CatalogArray.CreateVault | c_src/vault/vault_catalog.c:447-600 | success exactly under all of its conditions, and then the vault with the name, the next id and the guard asked for stands last; otherwise the array is as it was; the next id moves exactly if the first directory was made |
| CatalogManager.CatalogArray.MoveDown | c_src/vault/vault_catalog.c:624-628 | the memmove: everything behind the vault moves down one place |
| CatalogManager.CatalogArray.DeleteVault | c_src/vault/vault_catalog.c:602-632 | success exactly if a vault has the id and the first such is unguarded or authorised; then that one is gone and those behind it are one place down; otherwise nothing changes |
| CatalogManager.CatalogArray.RenameVault | c_src/vault/vault_catalog.c:634-668 | success exactly if a vault has the id, the name is valid and free and the first such vault is unguarded or authorised; then its name and nothing else is changed; otherwise nothing is |
| Decimals.ValueOfDecimal | c_src/vault/vault_catalog.c:441 | a printed number has no leading zero and its digits have the number as their value, so printing is injective |
| CatalogManager.Pigeonhole | c_src/vault/vault_catalog.c:435-445 | names tried and taken are no more than the vaults |
| CatalogManager.AutoNameIsUnique | c_src/vault/vault_catalog.c:435-445 | there is one automatic name |
| CatalogManager.CandidateIsValid | c_src/vault/vault_crypto.c:246-262 | the automatic names that can come up pass the name check |
| CatalogManager.NamesAreSpelt | c_src/vault/vault_crypto.c:246-262 | a name is valid exactly if it is 1 to 127 of the 64 characters a-z, A-Z, 0-9, _ and - |
| CatalogManager.StepKeepsWellFormed | c_src/vault/vault_catalog.c:447-668 | create, delete and rename keep names valid and unique and the count within bounds |
| CatalogManager.RunIsWellFormed | c_src/vault/vault_catalog.c:447-668 | so does every run |
| CatalogManager.IdsInTurn | c_src/vault/vault_catalog.c:537 | the k-th id issued is k modulo 2^32 |
| CatalogManager.NeverReissued | c_src/vault/vault_catalog.c:537 | no id is issued twice exactly as long as at most 2^32 were issued |
| CatalogManager.IdsStayOrdered | c_src/vault/vault_catalog.c:447-632 | until next_id wraps, ids increase along the array and stay below next_id |
| CatalogManager.WrapDuplicatesIds | c_src/vault/vault_catalog.c:418-424 | after the wrap two live vaults can share an id, and the newer one is not found by it: a concrete run |
| FileCrypto.EncryptFile | c_src/vault/vault_crypto.c:464-557 | when success is reported 64 KiB chunks make one sealing of what was read, of which the disk keeps a front; of a file that was read and arrived whole that is the iv, each plaintext byte under its key byte, and the tag |
| FileCrypto.DecryptFile | c_src/vault/vault_crypto.c:559-732 | there is an output exactly if the size is between 28 bytes and 512 MiB and the tag is right; it is each byte under its key byte, and the disk keeps a front of it |
| FileCrypto.CryptConcat | c_src/vault/vault_crypto.c:505-523 | parts crypted in turn are the whole crypted at once |
| FileCrypto.OpenSeal | c_src/vault/vault_crypto.c:464-732 | what was encrypted decrypts exactly if it is within the limit of 512 MiB |
| FileCrypto.OnlySealedOpens | c_src/vault/vault_crypto.c:630-700 | only what was encrypted under the key decrypts |
| FileCrypto.ShortDoesNotOpen | c_src/vault/vault_crypto.c:509-552 | what was not read or did not arrive whole, which no one reports, opens to the plaintext under no key |
| FileCrypto.StoredBytes | c_src/vault/vault_crypto.c:489-552 | a file that arrived whole is iv, masked plaintext and tag, byte by byte |
| FileCrypto.OpenBytes | c_src/vault/vault_crypto.c:559-700 | a file opens exactly if it is authentic and of an accepted size, and it is then the sealing of what comes out |
| VaultRekey.VaultDir.DecryptTo | c_src/vault/vault_crypto.c:559-732 | decryption reaches its target only when it authenticates, as far as the disk keeps it, and touches only temporary names |
| VaultRekey.VaultDir.Reseal | c_src/vault/vault_crypto.c:753-778 | a re-encrypted copy under a temporary name, as far as the two steps read and kept it |
| VaultRekey.VaultDir.RekeyOne | c_src/vault/vault_crypto.c:753-785 | one file: replaced by what was resealed, whole or not, or nothing but temporary names changed and the error says which step reported failure |
| VaultRekey.VaultDir.RekeyFiles | c_src/vault/vault_crypto.c:735-790 | in every state of the directory the files taken up so far are replaced and the rest are as they were; it reports success exactly if the directory does not open or no file taken up reports an error, and otherwise stops at the first that does |
| VaultRekey.Account.ChangePassword | c_src/vault/vault_catalog.c:696-754 | succeeds exactly if the old password verifies, the keys and a salt can be had, rekeying reports success, the new hash can be had and the catalog is saved; the salt is replaced exactly if rekeying reports success; then all sealed files have moved exactly if rekeying met them all and they arrived |
| VaultRekey.TempsAreNotEnc | c_src/vault/vault_crypto.c:749-755 | temporary names are never taken for encrypted files |
| VaultRekey.SuccessMovesWhatItMeets | c_src/vault/vault_crypto.c:735-790 | when rekeying reports success, and none of the files opened under both keys, all sealed files are under the new key exactly if the directory opened, listed them, lstat worked on each and both outputs arrived whole, or there are none |
| VaultRekey.RekeyedOutright | c_src/vault/vault_crypto.c:749-786 | with no failing call, a rekeying that reports success has taken every listed regular .enc file that arrived whole from the sealing of its plaintext under the old key to one under the new |
| VaultRekey.RekeyWorksIff | c_src/vault/vault_crypto.c:749-786 | with no failing call rekeying reports success exactly if every .enc file it meets is authentic under the old key |
| VaultRekey.OthersStay | c_src/vault/vault_crypto.c:749-755 | what is not a listed regular .enc file is left as it is |
| VaultRekey.NothingIsDestroyedIff | c_src/vault/vault_crypto.c:751-786 | wherever rekeying is on its way, each sealed file opens to what it held under one of the two keys exactly if both outputs of every file taken up arrived whole |
| VaultRekey.FullDiskDestroys | c_src/vault/vault_crypto.c:552-779 | a full disk and a small file, whatever the cipher: success is reported and the file is empty |
| VaultRekey.UnopenedIsStranded | c_src/vault/vault_crypto.c:738-740 | a directory that does not open is success with its files left under the key that is forgotten: a concrete vault |
| VaultRekey.LateFailureLocksOut | c_src/vault/vault_catalog.c:743-749 | if only the old salt leads to the hash, no password verifies after the late failure, exactly if the salt is a new one |
| VaultRekey.AbortPreservesIff | c_src/vault/vault_crypto.c:761-784 | when none of the files that are left opens under both keys, a rekeying that stops leaves every sealed file to the old key exactly if none was taken up before the one that failed |
| VaultRekey.AbortLosesMovedFile | c_src/vault/vault_catalog.c:733-741 | against the comment: a concrete vault in which every aborted change loses the first file to a key that is thrown away |
| VaultSealing.VaultFolder.Encrypt | c_src/vault/vault_ffi.c:278-301 | the loop over the directory: each regular file is replaced by its encryption as it reached the disk, reported failures are left alone |
| VaultSealing.VaultFolder.Decrypt | c_src/vault/vault_ffi.c:373-396 | the loop back: each encrypted file replaced by its plaintext |
| VaultSealing.EncryptAllAt | c_src/vault/vault_ffi.c:278-301 | in a directory without .enc names exactly the regular, undotted names are encrypted, in any order |
| VaultSealing.DecryptAllAt | c_src/vault/vault_ffi.c:373-396 | and exactly those within the size limit come back, in any order |
| VaultSealing.PlainFileIsSealed | c_src/vault/vault_ffi.c:278-301 | a regular undotted file with a name of at most 251 characters ends up under its .enc name, byte by byte as sealed |
| VaultSealing.OtherEntryStays | c_src/vault/vault_ffi.c:278-292 | any other entry stays as it is |
| VaultSealing.SealedFileComesOut | c_src/vault/vault_ffi.c:373-396 | a sealed file with the right tag comes out byte by byte under its name without .enc; one with a wrong tag stays |
| VaultSealing.ThereAndBack | c_src/vault/vault_ffi.c:231-409 | encrypting and decrypting a directory without .enc names, with no error reported, gives back the same names and contents exactly if every encrypted file is within the size limit, leaves room for the temporary name and arrived whole both times |
| VaultSealing.PlaintextIsKeptIff | c_src/vault/vault_ffi.c:294-297 | an encryption that reports success removes the plaintext, and what it leaves opens to it exactly if all was read, all arrived and the size is within the limit |
| VaultSealing.NamesakeIsLost | c_src/vault/vault_ffi.c:283-301 | a file already under the .enc name of another is lost when that one is encrypted, whatever the order |
| VaultSealing.FailureKeepsPlaintext | c_src/vault/vault_ffi.c:294-300 | a file that stat or the encryption fails on keeps its plaintext |
| Lockout.Guard.VerifyPassword | c_src/vault/vault_crypto.c:411-462 | a locked vault and a failing derivation change nothing; the right password clears the count; the third wrong one in a row locks |
| Lockout.Guard.UnlockVault | c_src/vault/vault_catalog.c:670-694 | vault_unlock changes nothing and answers OK exactly if the vault was not locked |
| Lockout.Guard.RenameVault | c_src/vault/vault_catalog.c:634-668 | succeeds exactly with an accepted name and the right password for a vault that is not locked; a wrong one counts |
| Lockout.Guard.DeleteVault | c_src/vault/vault_catalog.c:602-632 | the vault goes exactly with the right password for a vault that is not locked; a wrong one counts |
| Lockout.Guard.TriggerAlert | c_src/vault/vault_monitor.c:371-387 | an alert takes the status, a lock included |
| Lockout.Guard.ResolveAlert | c_src/vault/vault_monitor.c:427-451 | resolving needs the password and clears the status |
| Lockout.RunIsBounded | c_src/vault/vault_crypto.c:411-462 | the invariant that ties status and failure count to the number of wrong, right and alert events |
| Lockout.GuessesAreLimited | c_src/vault/vault_crypto.c:411-462 | wrong guesses are at most two per right one, one per alert, and three |
| Lockout.BoundIsReached | c_src/vault/vault_crypto.c:411-462 | for any number of right ones and alerts some run reaches that bound |
| Lockout.LockedIffThreeFailures | c_src/vault/vault_crypto.c:443-457 | without alerts a vault is locked exactly after three failures in a row |
| Lockout.LockIsAbsorbing | c_src/vault/vault_crypto.c:426-433 | a locked vault stays as it is whatever is tried, until an alert comes |
| Lockout.UnlockNeverUnlocks | c_src/vault/vault_catalog.c:670-694 | vault_unlock changes nothing in any state |
| Lockout.AlertLiftsLock | c_src/vault/vault_monitor.c:371-387 | an alert lifts the lock: the right password then verifies |
| Escalation.Monitored.TriggerAlert | c_src/vault/vault_monitor.c:371-387 | the status is raised; the first trigger sets the time and the first interval, later ones keep both |
| Escalation.Monitored.CheckEscalation | c_src/vault/vault_monitor.c:389-425 | a poll repeats exactly if an alert is on and none was sent yet or the interval has passed; then time, count and interval index move on, and otherwise nothing does |
| Escalation.EscalationIsSpaced | c_src/vault/vault_monitor.c:389-425 | after k repeats the count is k and the index k - 1 up to 19, and successive repeats keep at least the interval of that index, triggers and lockouts in between or not |
| Escalation.IntervalsGrow | c_src/vault/vault_core.h:122-126 | the intervals grow from five minutes to a year and stay there |
| Escalation.RepeatsAreLimited | c_src/vault/vault_monitor.c:389-425 | the intervals that lie between the repeats fit into the time that has passed |
| Escalation.CountIsBounded | c_src/vault/vault_core.h:122-126 | so the repeats are bounded by prefix sums of the intervals |
| Escalation.BoundIsMet | c_src/vault/vault_monitor.c:389-425 | and polling when due meets the bound |
| Escalation.ClockZeroRepeatsAtOnce | c_src/vault/vault_monitor.c:396-403 | at clock zero nothing is kept apart |
| DecoyTree.EstimateNodes | c_src/vault/vault_engine.c:491-501 | the sum by levels is the number of nodes, with (b-1)*total = b^(d+1)-b |
| DecoyTree.NodesClosedForm | c_src/vault/vault_engine.c:491-501 | the closed form of the sum |
| DecoyTree.TablesFit | c_src/vault/vault_core.h:472-473 | the tables give 1, 6, 14, 120 and 363 nodes, all within the cap |
| DecoyTree.Labyrinth.PopulateLayer | c_src/vault/vault_engine.c:399-446 | a layer is populated exactly if all 26 files can be written; nothing but files of a letter, a dot and a pooled extension is added, and to no other directory |
| DecoyTree.Labyrinth.BuildNode | c_src/vault/vault_engine.c:521-572 | one node: built with its subtree, or failed and its subtree hidden |
| DecoyTree.Labyrinth.BuildSubtree | c_src/vault/vault_engine.c:514-573 | a failing node is counted and not descended into, its siblings go on; without failures the tree is full; nothing is added but decoys in its places |
| DecoyTree.BuildMeetsEstimate | c_src/vault/vault_engine.c:491-573 | whatever fails, nodes built, failed and hidden below failed ones add up to the estimate |
| DecoyTree.CheckLayerFiles | c_src/vault/vault_engine.c:728-775 | the number of letters without a file of a pooled extension |
| DecoyTree.ValidateSubtree | c_src/vault/vault_engine.c:781-816 | the missing layers and files of the whole tree |
| DecoyTree.ValidIffFull | c_src/vault/vault_engine.c:781-816 | nothing is reported missing exactly if the full tree is there, whatever seed picked its extensions |
| DecoyTree.FullIsEveryPlace | c_src/vault/vault_engine.c:514-573 | the full tree is every place of its levels, each with a pooled file for every letter |
| DecoyTree.LayersAreCounted | c_src/vault/vault_engine.c:781-816 | the missing layers counted are the places that are not there below places that all are |
| DecoyTree.MissingIff | c_src/vault/vault_engine.c:781-816 | which layers are missing: those not there, with every one on the way there |
| DecoyTree.FilesAreCounted | c_src/vault/vault_engine.c:781-816 | the missing files counted are the letters without a file in the places that are reached |
| DecoyTree.FileMissingIff | c_src/vault/vault_engine.c:728-816 | which files are missing: a letter in a layer that is reached, with none of the extensions |
| DecoyTree.ApplyThenValidate | c_src/vault/vault_engine.c:578-720 | a build without failures has every place of the tree with a file for each letter, the estimated number of nodes, and validates; nothing but decoys is added; no level is refused |
| Tokenizer.Normalized | rust/repl.rs:118-138 | the loop turns every continuation into a space |
| Tokenizer.PassContinuation | rust/repl.rs:122-135 | where a continuation ends |
| Tokenizer.Scanned | rust/repl.rs:140-162 | the loop is the fold of one character step |
| Tokenizer.Tokenize | rust/repl.rs:111-162 | both passes; no token is empty |
| Tokenizer.TokensAreNonEmpty | rust/repl.rs:149-160 | no token is ever empty |
| Tokenizer.TokensOfLine | rust/repl.rs:140-162 | words put together from bare, single-quoted and double-quoted pieces, with any separators around them, come out as one token each with the quotes off |
| Tokenizer.TokensOfUnclosed | rust/repl.rs:140-162 | a quote that is never closed runs to the end |
| Tokenizer.ContinuationIsSpace | rust/repl.rs:118-138 | a backslash, blanks and a line break of any kind count as one space |
| Tokenizer.NormalIff | rust/repl.rs:118-138 | the pass leaves a text as it is exactly if it has no continuation, and otherwise makes it shorter |
| Tokenizer.PrintReadsBack | rust/repl.rs:111-162 | tokens printed with every character quoted on its own read back, but for the empty ones |
| Tokenizer.RoundTrip | rust/repl.rs:111-162 | they read back as they were exactly if none is empty |
| Tokenizer.PrintIsRightInverse | rust/repl.rs:111-162 | what was tokenized survives being printed and tokenized again |
| Tokenizer.ContinuationInQuotesIsLost | rust/repl.rs:122-135 | a continuation is dropped even inside quotes, so quoting a token as a whole does not do |
| TreeCopy.VaultTree.CopyFile | rust/vault_ops.rs:92-142 | a file is copied, unless a link or a directory is in the way |
| TreeCopy.VaultTree.CopyDirAll | rust/vault_ops.rs:145-170 | the recursive copy, also into its own source: nothing changes but what it writes; on success everything but links and snapshot directories is there, except that what stands in the place of a directory stays and that a link to a directory is copied through, out of the tree; without conflicts and I/O errors it succeeds |
| TreeCopy.ChildWrites | rust/vault_ops.rs:151-167 | copying one entry writes what copying the directory writes below that entry |
| TreeCopy.EntriesAreAll | rust/vault_ops.rs:151-167 | with every entry done the directory is done |
| TreeCopy.CopyArrives | rust/vault_ops.rs:145-170 | where nothing stood before, exactly the directories and regular files outside snapshot directories arrive, as they were |
| Snapshots.Create | rust/vault_ops.rs:650-739 | only the new snapshot is touched and an existing tag is refused; with room and working I/O it succeeds, and on success the snapshot holds exactly the directories and regular files of the vault, as they were, and the meta file |
| Snapshots.StageSnapshot | rust/vault_ops.rs:818-848 | checks and staging touch nothing outside the stage |
| Snapshots.ClearVault | rust/vault_ops.rs:851-863 | every entry of the vault that can be removed is, snapshots and stage excepted |
| Snapshots.Restore | rust/vault_ops.rs:815-871 | no snapshot changes; nothing of the vault changes unless staging is complete; on success the vault is the snapshot exactly if the stage could be removed and every own entry that could not is in the snapshot too, and is a directory where that has one |
| Snapshots.RestoredIff | rust/vault_ops.rs:851-867 | removals that fail are ignored: which of them keep the vault from being the snapshot |
| Snapshots.RoundTrip | rust/vault_ops.rs:650-871 | create, any edits outside the snapshots, restore: exactly the directories and regular files of creation are back |
| Snapshots.Diff | rust/vault_ops.rs:933-962 | added, removed, modified and unchanged are the sizes of the sets of such paths; nothing differs exactly if both sides hold the same files with the same sizes |
| Snapshots.SizesAreKept | rust/vault_ops.rs:901-926 | the files compared are the regular files outside snapshot directories, with their sizes |
| Snapshots.RestoredHasNoDifference | rust/vault_ops.rs:901-926 | after a restore the diff is empty |
| Baseline.LineParsesExactly | rust/vault_ops.rs:1129-1220 | what the printed line of any path parses to: nothing with a vertical bar or a leading slash in it, and else the path without the white space at its end |
| Baseline.LineRoundTrip | rust/vault_ops.rs:1129-1220 | an entry reads back as it was exactly if its path has no vertical bar, no leading slash and no white space at its end |
| Baseline.SpacesAre | rust/vault_ops.rs:1195-1221 | what trimming takes off are the 25 white-space characters of Unicode |
| Baseline.BodyIsRebuilt | rust/vault_ops.rs:1172-1190 | verification signs byte for byte the body that was signed |
| Baseline.SignatureCoversManifest | rust/vault_ops.rs:1172-1221 | equal signed bodies hold equal entries, wherever the signature stands, so nothing goes unsigned |
| Baseline.BodyIsTheManifest | rust/vault_ops.rs:1172-1221 | the entries are those that the signed body holds |
| Baseline.LastSignatureCounts | rust/vault_ops.rs:1172-1190 | the signature is that of the last line that has one |
| Baseline.ManifestText | rust/vault_ops.rs:1122-1137 | the lines of a printed manifest, one by one |
| Baseline.ManifestRoundTrip | rust/vault_ops.rs:1091-1221 | the printed manifest parses back to the same entries |
| Baseline.KeysSurvive | rust/vault_ops.rs:1195-1221 | no other path ever comes out of a manifest |
| Baseline.PlainIff | rust/vault_ops.rs:1110-1110 | a printed path names the path it was printed from exactly if that has no backslash and is UTF-8 |
| Baseline.OwnBaselinePasses | rust/vault_ops.rs:1091-1336 | an unchanged vault verifies against its own baseline exactly if every path survives being printed and the look at the printed path finds the hash recorded for it |
| Baseline.OwnPlainBaselinePasses | rust/vault_ops.rs:1091-1336 | with plain names: exactly if every path survives being printed |
| Baseline.OnlyFileIsMissing | rust/vault_ops.rs:1110-1264 | a vault whose only file has a backslash in its name, or bytes that are not UTF-8, never verifies |
| Baseline.TwinGoesUnnoticed | rust/vault_ops.rs:1110-1305 | beside a plain file, another one that prints like it may change at will |
| Baseline.VerifiesIff | rust/vault_ops.rs:1091-1336 | verification against a baseline of surviving paths: every look finds what is recorded, and every file prints like one that was there |
| Baseline.SizeGoesUnnoticed | rust/vault_ops.rs:1261-1276 | the recorded size makes no difference |
| Baseline.SplitSignature | rust/vault_ops.rs:1172-1190 | the loop that takes the signature off the body |
| Baseline.ParseManifest | rust/vault_ops.rs:1195-1221 | the loop that parses the entries |
| Baseline.CheckEntries | rust/vault_ops.rs:1231-1278 | matched and missing are the sizes of the sets of entries found with their hash and not found, modified is the rest |
| Baseline.CountUntracked | rust/vault_ops.rs:1284-1312 | untracked is the number of files whose printed path has no entry |
| Baseline.Verify | rust/vault_ops.rs:1157-1336 | no signature exactly if no line has one; the counts are those of the entries and files exactly if the signature fits; it passes exactly if moreover every entry is found with its hash and every file has an entry |
| Baseline.VerifiesIffUnchanged | rust/vault_ops.rs:1091-1336 | without links, a vault with plain names verifies against its baseline exactly if its files are there with their hashes and no file is there that does not print like one of them; with plain names now too, exactly if paths and hashes are the same |
| Baseline.LinkGoesUnnoticed | rust/vault_ops.rs:1236-1276 | a file replaced by a link to equal content goes unnoticed |
| PathContainment.InsideIffPrefix | c_src/container/overlay.c:71-73 | the prefix test on resolved paths is containment, except that the file system root contains only itself |
| PathContainment.IsSafe | c_src/container/overlay.c:44-74 | the climb common to both checks: accepted is exactly what reaches, within the limit if there is one, an existing ancestor inside the root |
| PathContainment.OverlayPathIsSafe | c_src/container/overlay.c:44-75 | the overlay check, with 32 climbs as its limit and nothing of 4096 characters or more |
| PathContainment.BindPathIsSafe | c_src/cli/vault_cli.c:1241-1258 | the bind check, without a limit, on what its buffer holds of the path |
| PathContainment.ExistingPath | c_src/container/overlay.c:44-73 | a path that exists is accepted exactly if it resolves to the resolved root or to something behind it and a slash |
| PathContainment.MissingLeaf | c_src/container/overlay.c:52-70 | a missing name in an existing directory is judged by the directory |
| PathContainment.ContainedIff | c_src/container/overlay.c:32-75 | the promised containment: accepted is exactly what has its existing ancestor inside the root; and wherever links may lead, the path stays inside exactly if nothing that was cut off is a link and it never leads above the root |
| PathContainment.DanglingLinkLeadsOut | c_src/cli/vault_cli.c:1238-1258 | below every root a link that leads out to something not there yet is accepted |
| PathContainment.MissingNameLeadsOut | c_src/cli/vault_cli.c:1238-1258 | below every root a missing name followed by two parents is accepted and leads out |
| PathContainment.CleanRelative | rust/vault_ops.rs:9-29 | the components are accepted exactly if they never lead above their start, and then lead to the same place below any root |
| PathContainment.NamesAreKept | rust/vault_ops.rs:12-29 | names alone are kept as they are and in their order |

## Left out

- FuseCtr.CryptStream: an offset is a natural number whose block index fits 64 bits, and an iv is the hash of the path; the all-zero iv used when no digest context can be had is not modelled.
- FuseCtr.RunRefines: the calls on a file are taken one after the other; holes are excluded because a hole reads back as key bytes; `FuseCtr.WriteRefines` says so exactly.
- FuseWormProofs.WriteProtectsRun: for runs as the kernel makes them, create on absent paths and write after open; `FuseWormProofs.WriteGate` has the exact exception without that.
- FuseWorm.Mount.OpenFile: permissions, getattr, readdir and links inside the FUSE tree are not modelled.
- LaunchHandshake.EveryLaunchFinishes: the parent is not killed and waitpid returns once the child is gone; namespaces, capabilities, mounts, control groups and filters are outcomes of a system call. The `--nfilter` check is counted as one step.
- MountLifecycle.MountSafety: only mount calls, unmount calls and FUSE threads; the chmod of `vault_sandbox_open` is outside the model, since its early returns skip the re-seal. The chmod calls that open and re-seal the directory, whose results are not acted upon (vault_fuse.c:594, 619, 783), are taken to work.
- FileHashMap.FileHashMap.Insert: the bucket of a name is any function, so FNV-1a is not modelled; memory does not run out.
- IntegrityScan.ScannedVault.Scan: the hash map is the finite map that `FileHashMap` refines, and what its chains list is a parameter; the saves inside alert_trigger are not modelled. The catalog's DELETED status is never set by the code.
- IntegrityScan.Report: the caller gives a buffer of at least one byte, as the code checks before.
- CatalogCodec.LoadOfImage: for a little-endian host with 8-byte time_t and size_t; only persisted fields; what a failing load leaves in memory is not modelled, nor is a name that fills its 256 bytes without an end.
- CatalogManager.NeverReissued: within one process; an id lost to a vault that was not finished is not saved, so a restart hands it out again.
- CatalogManager.CatalogArray.CreateVault: sanitize_arg and validate_path are outcomes; an automatic name is resolved before the value-level step.
- FileCrypto.EncryptFile: when success is reported; reported failures are outcomes in `VaultRekey` and `VaultSealing`.
- VaultRekey.VaultDir.RekeyFiles: readdir delivers no name twice; POSIX leaves open whether a name renamed into place is listed again. An entry that has one of the process's temporary names beforehand is taken to be a regular file.
- VaultSealing.ThereAndBack: no name ends like the temporary names of the process, which decryption would overwrite; special files, dangling links and links between files of one directory are not modelled. The directory opens, since the code has just set its mode, and an input whose output is complete can be removed.
- Lockout.GuessesAreLimited: within one process; a restart reads the counter of the last save.
- Escalation.RepeatsAreLimited: alert_resolve, which resets the state, is not an event.
- DecoyTree.ApplyThenValidate: the clean-up by `rm -rf` after a failed build and the contents of decoys are not modelled.
- Tokenizer.Tokenize: characters are code points; nothing is said about grapheme clusters.
- Snapshots.Restore: an entry is removed as a whole or not at all; the snapshot holds no entry named `.vault_restore_stage` at its root, because the copy would then run into its own source; tags are taken as sanitized, and the text of meta.txt is left open. Links to directories lead out of the vault and not back into it; a restore does not follow a `.vault_snapshots` that is one itself. Special files and permissions are not modelled.
- Snapshots.Diff: a file is its path as a list of names; names with a backslash, which the printed form turns into a slash, are not told apart there.
- Baseline.VerifiesIffUnchanged: for plain paths that survive being printed and a vault without links to files; `Baseline.VerifiesIff`, `Baseline.OwnBaselinePasses` and `Baseline.Verify` need no such condition.
- PathContainment.IsSafe: what realpath resolves and which paths are links are parameters, and nothing changes in between. Of safe_vault_path only the lexical part is modelled.
- AES, GCM, SHA-256, PBKDF2 and Argon2 themselves, the CLI's option parser, dispatch, logging, JSON output, seccomp and network filters, the overlay mounts, the daemon, OCI import and the experimental programs.
- vault_key_rotate and the two-directory vault_diff do something other than their names say and are not modelled; the leaky-bucket helpers of the monitor are unreferenced.
