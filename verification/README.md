# Verified model of freens

freens is a naming system on a distributed hash table: names are claimed with proof of work and
witness signatures, held as signed records with sequence numbers, recovered by key quorums, and
served by a daemon that also upgrades itself over a peer swarm and edits web-server
configuration. This project models its hardest logic in Dafny and proves what that logic promises.
`dafny verify dfyconfig.toml` checks all of it.

| part | files | main results |
|---|---|---|
| Swarm download | `Manifest`, `Swarm*` | every interleaving of workers keeps every chunk accounted for, ends within N(3N+1) pops, and leaves the release on disk; a peer is dropped exactly for one wrong chunk or two failures |
| nginx installer | `Nginx*` | rescanning an edited file finds the same blocks, with the exact condition; installing twice or n times is installing once, with the exact condition; every outcome of an install with its final files; a failed validation restores every scanned file, with the exact condition |
| INI editor | `Confedit*`, `Text` | read after write and idempotence, with the exact condition for all files and keys; the one slot an edit can change |
| Claims | `Claims`, `ClaimOrder`, `Quorum`, `FreshQuorum`, `ProofOfWork`, `Retarget` | every client converges on one winner; a quorum is that many different signing keys; zero-bit counting is a numeric bound; the difficulty rule in integers |
| Verification caches | `VerifyCache` | no interleaving, eviction or reset changes a verdict or delays one beyond five own steps |
| Violation ledger | `Ledger`, `LedgerRuns` | a recorded peer stays flagged over every run of several processes; what overlapping records do to the shared file, exactly |
| Record lifecycle | `Records`, `Recovery`, `Lifecycle`, `Store`, `Reconciler*` | laws of every chain of hand-offs and recoveries; a quorum's evidence installs the recovered record in every store; sequences never fall; renewals never share a sequence; an owner's updates converge in any order |
| Command suggestions | `EditDistance` | the table method computes the least number of edits |

Hashes, Ed25519, canonical CBOR, the clock, randomness, disk and network outcomes are parameters:
every statement holds for all of them. Where a statement needs a hash without collisions, it
either says so for the inputs concerned or names the collision. Integer widths are written out
wherever they can wrap (`Wrap64`, `WrapU64`).

Where code and comments disagree the model follows the code:

- The swarm drops a peer at two strikes (internal/cli/upgrade.go:736); a later comment says three.
- The INI editor's removal drops only the last assignment of a key
  (`ConfeditLaws.RemovedIffAssignedOnce`, `ConfeditLaws.RemoveTwice`). A header followed by text is
  recognised by the reader but not by the search for the section's end, so a write is read back,
  and a second write changes nothing, exactly when the line lands (`ConfeditLaws.GetAfterSet`,
  `ConfeditLaws.SetTwice`). Rewriting a file with two trailing blank lines is not a no-op
  (`ConfeditFile.ReprintStable`).
- The nginx installer can insert lines after a block whose `server_name` stands on its closing
  line, and can write a path that does not read back; such a block is edited again by every later
  install (`NginxRepeat.InstallsSettleIff`). A certificate line that also closes its block takes
  the brace along (`NginxRescan.RescanIff`, `NginxRepeat.ClosingCertExample`).
- A scanned symbolic link to a `.freens-pre` file defeats the restore: the file that is planned
  and the one that is its backup can both lose their text (`NginxRestore.ScannedRestoredIff`,
  `NginxRestore.RegularRestoredIff`, `NginxTree.ClashLosesTheOriginal`).
- The check for fresh attestations spends its sixteen evaluations on failing duplicates too,
  although its comment speaks of deduplicated ones (internal/claims/claims.go:477-509).
- `verify-recovery` says it applies the acceptance predicate; it differs for a threshold of zero
  or from 2^63 on, for a bound that overflows, and for an unknown creation time
  (`Recovery.VerdictsAgree`, `Recovery.VerdictsDiffer`).
- The ledger's `Entries` has a save that cannot happen, saves other than `Record`'s do not merge
  (`LedgerRuns.PlainSaveLosesRow`), and `Record`'s merge does not protect rows written between its
  read and its write (`LedgerRuns.RecordMergesIff`, `LedgerRuns.OverlappingRecordsLoseRow`).
- A renewal reaches "all its keys" except those where another owner's live record stands
  (`ReconcilerRuns.RaisedIff`). A store that lost everything and takes back an old record signs a
  used sequence again (`ReconcilerSequences.ReplayRepeatsASequence`).

## Model

| member | source | states |
|---|---|---|
| `Manifests.Validate` | internal/blobman/blobman.go:97-117 | accepts exactly the well-formed manifests; every refusal names the first violated rule, each with its exact condition |
| `Manifests.WantedChunksIsCeiling` | internal/blobman/blobman.go:97-117 | the chunk-count check is exactly "n chunks cover the size", and a size whose 64-bit sum wraps is refused |
| `Manifests.ChunksAbut` | internal/blobman/blobman.go:120-126 | chunk lengths are positive and at most the chunk size; consecutive chunks abut and the last ends at the size |
| `Manifests.ChunksPartition` | internal/blobman/blobman.go:120-126 | every byte position of the file lies in exactly one chunk |
| `Manifests.Compute` | internal/blobman/blobman.go:43-69 | for every file below 2^63 bytes: the manifest of a non-empty file describes it exactly when the size plus one chunk less a byte stays below 2^63; an empty file yields a manifest the checker refuses |
| `Manifests.StreamFrom` | internal/cli/upgrade.go:2317-2363 | a stream is accepted exactly when the announced total is the size and every chunk arrives, hashes and is written; every refusal names the first chunk at fault and why |
| `Manifests.AcceptedStreamIsTheFile` | internal/cli/upgrade.go:2317-2363 | what an accepted stream wrote is byte for byte the file the manifest was computed from, or a named chunk is a hash collision |
| `Manifests.SameChunksSameFile` | internal/blobman/blobman.go:120-126 | two byte strings of the manifest size that agree chunk by chunk are equal |
| `Swarm.DropAddress` | internal/cli/upgrade.go:732-749 | the in-place filter keeps, in order, exactly the peers of other addresses |
| `Swarm.Rotation.constructor` | internal/cli/upgrade.go:692-709 | a transfer starts with cursor, retries and strikes at zero and the given peers in rotation |
| `Swarm.Rotation.Pop` | internal/cli/upgrade.go:710-719 | hands out the cursor and advances it, or reports the end without changing anything |
| `Swarm.Rotation.NextPeer` | internal/cli/upgrade.go:720-729 | round-robin over the rotation; nothing when it is empty |
| `Swarm.Rotation.StrikeN` | internal/cli/upgrade.go:732-749 | the address gains exactly n strikes and no other address any; at two, every entry of that address leaves the rotation |
| `Swarm.Rotation.Requeue` | internal/cli/upgrade.go:750-760 | counts a retry and, within the budget of three per chunk, rewinds the cursor to the chunk if it is past it |
| `SwarmRuns.TransferStep` | internal/cli/upgrade.go:769-858 | every event of every worker keeps: bytes about to be written are the true bytes of a chunk of the manifest, and what is on disk stays |
| `SwarmRuns.NoChunkLostStep` | internal/cli/upgrade.go:750-858 | while the retry budget is unspent, every chunk below the cursor is on disk or held by a running worker |
| `SwarmRuns.StrikeKeepsRotation` | internal/cli/upgrade.go:732-749 | the rotation is always exactly the starting peers with fewer than two strikes, in their starting order |
| `SwarmRuns.RotationStep` | internal/cli/upgrade.go:710-858 | every event keeps that description of the rotation |
| `SwarmRuns.PopsPaidStep` | internal/cli/upgrade.go:710-760 | every pop is paid for by a chunk above the cursor or by a rewind the budget allows |
| `SwarmRuns.StepsPaidStep` | internal/cli/upgrade.go:769-858 | every event is paid for by a pop |
| `SwarmRuns.ExitsStep` | internal/cli/upgrade.go:769-858 | a worker leaves only with the cursor at the end, with the rotation empty for good, or after a failed write |
| `SwarmRuns.InvariantStep` | internal/cli/upgrade.go:698-858 | every enabled event keeps the whole invariant |
| `SwarmRuns.EveryInterleaving` | internal/cli/upgrade.go:698-858 | every state of every interleaving of any number of workers satisfies the whole invariant, whatever the peers serve |
| `SwarmRuns.FinishedSwarmHasTheFile` | internal/cli/upgrade.go:859-884 | when all workers have left with the budget unspent and the cursor at the end (or a live peer left and no failed write), the file on disk is the release and the final digest check passes |
| `SwarmRuns.RunsAreBounded` | internal/cli/upgrade.go:698-858 | with N chunks any run has at most N(3N+1) pops and a bounded number of events |
| `SwarmRuns.NeverStuck` | internal/cli/upgrade.go:769-858 | while a worker has not left, some event is enabled |
| `SwarmRuns.StruckPeerNeverReturns` | internal/cli/upgrade.go:732-749 | a peer with two strikes is not in the rotation then or at any later state of the run |
| `SwarmStrikes.StrikesMove` | internal/cli/upgrade.go:732-749 | an event changes the strikes of an address exactly by the penalty of the strike it delivers to it |
| `SwarmStrikes.StrikesAreEarned` | internal/cli/upgrade.go:732-858 | in every state of every interleaving, the strikes counted and still owed to an address are exactly five per wrong chunk, two per missing blob and one per failed fetch it answered with |
| `SwarmStrikes.OutIff` | internal/cli/upgrade.go:732-858 | with no strike under way, a peer is out of the rotation exactly when its address once served a wrong or missing chunk or failed twice |
| `SwarmStrikes.OneFailureRemovesNobody` | internal/cli/upgrade.go:732-858 | a peer with at most one failed fetch and no wrong chunk is in the rotation in every state |
| `SwarmStrikes.HardReplyRemoves` | internal/cli/upgrade.go:800-858 | after a wrong or missing chunk the worker's next event strikes, and from then on the peer is out |
| `SwarmStrikes.TwoFailuresRemove` | internal/cli/upgrade.go:800-858 | after two failed fetches, of any two workers, the peer is out for good |
| `SwarmStrikes.EveryPeerIsAsked` | internal/cli/upgrade.go:720-729 | while nobody is struck, as many picks as there are peers ask every one of them, whichever workers pick |
| `SwarmStrikes.PatienceIs` | internal/cli/upgrade.go:788-821 | a worker that hears nothing but throttling from the peer it picked asks up to 200 times more and then gives the chunk back without a strike |
| `SwarmStrikes.BudgetIs` | internal/cli/upgrade.go:750-760 | a chunk given back is handed out again exactly for the first three times the number of chunks |
| `EditDistance.NewTable` | internal/cli/cli.go:211-218 | row 0 and column 0 of the table count up |
| `EditDistance.FillRow` | internal/cli/cli.go:219-234 | one pass over a row computes the recurrence from the row above |
| `EditDistance.Distance` | internal/cli/cli.go:209-236 | the table method returns the recurrence's value on the lower-cased inputs |
| `EditDistance.Symmetric` | internal/cli/cli.go:209-236 | the distance is symmetric |
| `EditDistance.ZeroIffEqual` | internal/cli/cli.go:209-236 | it is zero exactly on equal strings |
| `EditDistance.Triangle` | internal/cli/cli.go:209-236 | it satisfies the triangle inequality |
| `EditDistance.NoShorterChain` | internal/cli/cli.go:209-236 | no chain of single-character insertions, deletions and replacements is shorter than it |
| `EditDistance.ShortestChain` | internal/cli/cli.go:209-236 | some chain of single-character edits has exactly that length |
| `EditDistance.DistanceIsLeast` | internal/cli/cli.go:209-236 | it is the least length over all chains of edits |
| `Confedit.Get` | internal/confedit/confedit.go:35-68 | returns the last value assigned to the key under the section, and whether there is one |
| `Confedit.Locate` | internal/confedit/confedit.go:108-133 | one pass finds the first header of the section and the last line of the key |
| `Confedit.FindEnd` | internal/confedit/confedit.go:150-157 | finds the first later line that starts with an opening and ends with a closing bracket |
| `Confedit.Set` | internal/confedit/confedit.go:92-180 | refuses exactly keys and values with line breaks; writes nothing exactly when a removal finds nothing; otherwise writes the edited lines |
| `ConfeditReading.HeaderIff` | internal/confedit/confedit.go:48-58 | a line opens a section exactly when it starts, after blanks, with a bracketed name that normalises to it, whatever follows |
| `ConfeditReading.AssignIff` | internal/confedit/confedit.go:244-265 | a line assigns a value exactly when it is no comment and no bracketed line and splits at its first separator into that key and value |
| `ConfeditReading.LookupIs` | internal/confedit/confedit.go:35-68 | a lookup has a value exactly when some line assigns it under the section in force there and no later line assigns the slot |
| `ConfeditReading.CommentsNeverMatch` | internal/confedit/confedit.go:35-68 | a blank or commented line anywhere changes no lookup |
| `ConfeditReading.EndsIff` | internal/confedit/confedit.go:150-157 | the search for a section's end stops exactly at a bracketed name with only blanks around it |
| `ConfeditReading.TidyFilesLand` | internal/confedit/confedit.go:142-165 | in a file in which nothing follows a header's bracket every written line lands in its section |
| `ConfeditLaws.NewLineAssigns` | internal/confedit/confedit.go:104-131 | a written line reads back as that key and the trimmed value exactly when the key has no separator and opens no comment or header |
| `ConfeditLaws.UnwritableNeverFound` | internal/confedit/confedit.go:35-68 | a key with a separator or an opening bracket or comment sign is never found, in any file |
| `ConfeditLaws.SectionLineOpens` | internal/confedit/confedit.go:159-165 | an appended header opens the wanted section exactly when the name has no closing bracket |
| `ConfeditLaws.EditedKindsRead` | internal/confedit/confedit.go:92-180 | what an edit does to later reads, of its own slot and of every other, for all files |
| `ConfeditLaws.EditReads` | internal/confedit/confedit.go:92-180 | the same for edits of text lines |
| `ConfeditLaws.NewSectionLands` | internal/confedit/confedit.go:159-165 | for a section new to the file (no closing bracket in its name) the written line always lands in it |
| `ConfeditLaws.TidyHeadersLand` | internal/confedit/confedit.go:142-165 | if no header has text after its bracket the written line always lands in its section |
| `ConfeditLaws.TrailingTextMisplacesKey` | internal/confedit/confedit.go:145-158 | a header with trailing text is skipped by the end search: a concrete file in which the key lands in the next section |
| `ConfeditLaws.GetAfterSet` | internal/confedit/confedit.go:35-180 | reading after writing a non-empty value returns it trimmed exactly when the key can be read from a line and the line lands in its section |
| `ConfeditLaws.NotLandedNotFound` | internal/confedit/confedit.go:35-180 | a written line that does not land leaves the wanted slot without any value |
| `ConfeditLaws.OtherSlotsUntouched` | internal/confedit/confedit.go:92-180 | for every file, key and value an edit changes at most one slot: what its new line reads as, in the section in force where it is put |
| `ConfeditLaws.WrittenSlotIs` | internal/confedit/confedit.go:142-165 | which slot that is for a writable key, and that it is the wanted one exactly when the line lands |
| `ConfeditLaws.SetTwice` | internal/confedit/confedit.go:92-180 | the same write a second time changes no line exactly when the key can be read and the line lands in its section |
| `ConfeditLaws.RemoveTwice` | internal/confedit/confedit.go:127-141 | a second removal changes no line exactly when the key was assigned at most once |
| `ConfeditLaws.RemovedIffAssignedOnce` | internal/confedit/confedit.go:127-141 | after a removal the key is gone exactly when it was assigned at most once |
| `ConfeditFile.PrintedFileReads` | internal/confedit/confedit.go:167-197 | every lookup through the printed and re-read file sees what it sees on the lines |
| `ConfeditFile.FileGetAfterSet` | internal/confedit/confedit.go:92-197 | through the file text: a written value is read back trimmed exactly when the key can be read and its line lands |
| `ConfeditFile.ReprintStable` | internal/confedit/confedit.go:167-197 | printing, reading and printing again gives the same text exactly when no line ends in a carriage return and the lines do not end in two empty ones |
| `NginxLines.WrittenDirective` | internal/certmgr/nginx.go:619-635 | a written "name value;" line keeps its name; it leaves the brace depth alone exactly when the value, comments cut, balances; and besides gives the value back exactly for values that are one word without comment or quote effects |
| `NginxLines.WrittenListen` | internal/certmgr/nginx.go:619-635 | the written listener line is neutral and names an SSL listener |
| `NginxScan.ScanFile` | internal/certmgr/nginx.go:270-299 | the loop finds exactly the blocks of the brace-depth specification |
| `NginxScan.ScanShape` | internal/certmgr/nginx.go:270-299 | found blocks are disjoint, in order and start at a server line |
| `NginxScan.ScanExact` | internal/certmgr/nginx.go:270-299 | counted from the start of a found block the depth is positive until its last line and zero there; a server line outside all found blocks closes nowhere |
| `NginxRebuild.EndRebuilt` | internal/certmgr/nginx.go:270-299 | replacing every block by another closed block, followed by neutral lines, changes for no starting depth where a walk over the rest of the file comes to rest |
| `NginxRebuild.ScanRebuilt` | internal/certmgr/nginx.go:270-299 | scanning a file in which every block was replaced by any closed block, followed by neutral lines, finds exactly the replacements at their computed places, none added or lost |
| `NginxRebuild.PlacesHold` | internal/certmgr/nginx.go:270-299 | block k of the rebuilt file is replacement k, line for line |
| `NginxEdit.ParseBlock` | internal/certmgr/nginx.go:316-351 | one pass collects the names, certificate pair, SSL listener and indentation of a block |
| `NginxEdit.PlanFacts` | internal/certmgr/nginx.go:619-635 | for all paths: the planned lines name no server and bring a TLS listener if needed; they are neutral exactly when both paths are, and then carry exactly the certificate exactly when its path is plain |
| `NginxSplice.Mark1` | internal/certmgr/nginx.go:640-660 | finds exactly the certificate lines of a block, in ascending order, and its last server_name line |
| `NginxSplice.ApplyBlockEdit` | internal/certmgr/nginx.go:640-675 | replaces exactly the block by its rewritten form and leaves every line outside alone |
| `NginxFile.NextBlockUp` | internal/certmgr/nginx.go:503-516 | rewriting the next block up does not disturb the blocks below it |
| `NginxFile.ApplyEdits` | internal/certmgr/nginx.go:503-516 | applying recorded edits bottom-up equals rewriting every block independently |
| `NginxFile.RewrittenBlock` | internal/certmgr/nginx.go:640-675 | in a rewritten block the new lines stand together once after the last server_name (or opening) line, no other certificate line is left and the rest keeps its order |
| `NginxFile.OpensNotCert` | internal/certmgr/nginx.go:270-299 | an opening line is never a certificate line |
| `NginxFile.EditsForOrdered` | internal/certmgr/nginx.go:480-518 | the edits recorded for a file are disjoint and in order |
| `NginxRescan.RewriteIsRebuilt` | internal/certmgr/nginx.go:503-516 | rewriting the edited blocks one by one is rebuilding the file from the parts of all blocks |
| `NginxRescan.CoreClosed` | internal/certmgr/nginx.go:640-675 | what a block becomes is a closed block exactly when the block is closed without its old certificate lines |
| `NginxRescan.RescanFindsBlocks` | internal/certmgr/nginx.go:270-299 | after an install the scan finds every block again, rewritten, at its new place, if every edited block stays closed without its certificate lines |
| `NginxRescan.RescanIff` | internal/certmgr/nginx.go:270-299 | exactly then: for every file and all paths that leave the brace depth alone |
| `NginxRescan.BlockAfterInstall` | internal/certmgr/nginx.go:640-675 | each block as the next scan sees it: rewritten, only cleared if the new lines fell outside it, or untouched |
| `NginxRescan.RewrittenServes` | internal/certmgr/nginx.go:316-351 | a rewritten block keeps its server names, and serves exactly the new certificate exactly when its path is plain |
| `NginxRescan.WantsAgain` | internal/certmgr/nginx.go:480-518 | after an install a block still wants an edit exactly if it was edited and its new lines fell outside it or the certificate path does not read back |
| `NginxRescan.SecondInstallQuiet` | internal/certmgr/nginx.go:428-604 | a second install with the same certificate edits nothing, exactly when every edited block could hold its lines and the path reads back |
| `NginxRepeat.ClosingName` | internal/certmgr/nginx.go:640-675 | in a block that wants an edit and cannot hold the new lines nothing that stays follows the last server_name line |
| `NginxRescan.InstalledSource` | internal/certmgr/nginx.go:503-516 | every line of an installed file is an old line or one planned for a named block |
| `NginxRepeat.StuckStays` | internal/certmgr/nginx.go:640-675 | a block its edit does not settle is found again after an install, wants an edit again and is not settled again |
| `NginxRepeat.RegularStays` | internal/certmgr/nginx.go:428-604 | an install keeps the conditions under which the next one is characterised |
| `NginxRepeat.NeverSettles` | internal/certmgr/nginx.go:428-604 | after any number of installs such a block still wants its edit |
| `NginxRepeat.InstallsSettleIff` | internal/certmgr/nginx.go:428-604 | after one or more installs nothing is left to edit exactly when every edited block could hold its lines and the path reads back, and then further installs change nothing |
| `NginxRepeat.ClosingNameExample` | internal/certmgr/nginx.go:640-675 | a concrete two-line file with a block that cannot hold its lines |
| `NginxRepeat.ClosingCertExample` | internal/certmgr/nginx.go:640-675 | a concrete file whose certificate line also closes the block: the install takes the brace along and the next scan does not find the block |
| `NginxRepeat.NeutralIsSound` | internal/certmgr/nginx.go:640-675 | a block whose certificate lines carry no brace imbalance stays closed without them |
| `NginxRepeat.SoundBalances` | internal/certmgr/nginx.go:640-675 | a block that stays closed without its certificate lines has lost no brace on balance |
| `NginxRepeat.BalanceKeptIff` | internal/certmgr/nginx.go:640-675 | an install keeps the brace balance of a file exactly when the dropped certificate lines balance |
| `NginxPlan.ReadBack` | internal/certmgr/nginx.go:681-712 | writing lines and reading the file back gives the same words and braces line by line; only a carriage return before a break is lost |
| `NginxTree.BackupsAreNotScanned` | internal/certmgr/nginx.go:223-236 | a file whose name does not end in .freens-pre is not the backup of any path |
| `NginxTree.RestoredExactly` | internal/certmgr/nginx.go:535-584 | the text a write and restore leave at every path: a file whose backup was written too gets that one's new text, other written files and their backups get the original text of the first file of their chain, everything else is unchanged |
| `NginxTree.RestoreUndoesWrite` | internal/certmgr/nginx.go:535-584 | after backups, writes and restores every watched file, backups among them included, has its original text exactly when the texts around each chain of backups coincide and no unwritten watched backup held another text |
| `NginxTree.ClashLosesTheOriginal` | internal/certmgr/nginx.go:535-584 | in every tree: when a written file is the backup path of an earlier one, restoring gives the earlier one the other's new text |
| `NginxRestore.ScannedRestoredIff` | internal/certmgr/nginx.go:535-584 | for the planned files of any tree: all scanned files have their original text after the restore exactly when each scanned backup of a planned file is planned too and the texts around each chain coincide |
| `NginxRestore.WrittenGrows` | internal/certmgr/nginx.go:428-604 | a file the installer wrote and still wants to edit has more lines after the next install |
| `NginxRestore.NoCoincidence` | internal/certmgr/nginx.go:535-584 | so around a chain of backups the texts never coincide, however long the chain |
| `NginxRestore.RegularRestoredIff` | internal/certmgr/nginx.go:535-584 | hence all scanned files are put back exactly when no scanned file is the backup of a planned one |
| `NginxTree.WrittenText` | internal/certmgr/nginx.go:535-552 | after all writes every planned file has its planned text, later backups included |
| `NginxTree.AscendingBackups` | internal/certmgr/nginx.go:223-236 | in path order a backup of a planned path can only come later in the plan |
| `NginxTree.FirstDifference` | internal/certmgr/nginx.go:217-217 | the path order is byte order: the first differing character decides (and a path comes before its extensions) |
| `NginxTree.StoppedFrame` | internal/certmgr/nginx.go:535-552 | a write pass that stops anywhere touches only planned files and their backups |
| `NginxTree.FailedRestoreFrame` | internal/certmgr/nginx.go:560-584 | a restore pass that fails anywhere touches only planned files and their backups |
| `NginxInstall.ConfigTree.WriteAll` | internal/certmgr/nginx.go:535-552 | succeeds exactly when every copy and write does; the files after success and after a stop at the first failing step, exactly |
| `NginxInstall.ConfigTree.RestoreAll` | internal/certmgr/nginx.go:560-584 | succeeds exactly when every read and write does; in every case exactly the backups that could be read and written are copied back |
| `NginxInstall.ConfigTree.Install` | internal/certmgr/nginx.go:428-604 | each of the eight outcomes with its exact condition and final files; without force no file changes while a block of a wanted name serves only other certificates; nothing but planned files and their backups ever changes; after a failed validation every scanned file has its original text exactly when no scanned file is the backup of a planned one (in a tree that is not regular: or the texts coincide) |
| `NginxPlan.PlanFile` | internal/certmgr/nginx.go:480-518 | for one file: whether a block has the wanted name, whether such a block serves certificates and not ours, and the new text exactly when some block wants an edit |
| `NginxPlan.PlanAll` | internal/certmgr/nginx.go:480-518 | the same over all files, in path order |
| `NginxPlan.MatchIsNamed` | internal/certmgr/nginx.go:480-518 | the tree matches exactly when some scanned file has a block with a wanted name |
| `NginxPlan.ForeignIsOthers` | internal/certmgr/nginx.go:480-518 | it is foreign exactly when some such block has certificates and ours is not among them |
| `NginxPlan.SecondInstallOfFile` | internal/certmgr/nginx.go:428-604 | on file text, carriage returns included: a second install leaves the written file alone exactly when every edited block was settled |
| `NginxInstall.AfterFile` | internal/certmgr/nginx.go:428-604 | for each file of the tree, exactly when the next plan leaves it alone: edited files by whether their blocks were settled, others by whether a backup replaced them |
| `NginxInstall.SecondInstallPlansNothing` | internal/certmgr/nginx.go:428-604 | after an install over the whole tree, planning again with the same certificate finds nothing to write, exactly when each file meets that condition |
| `NginxReading.CommentsEndTheLine` | internal/certmgr/nginx.go:238-252 | a line is read up to its first comment sign outside quotes |
| `NginxReading.ReadIs` | internal/certmgr/nginx.go:239-350 | what a line reads as, from its characters: braces counted, a server line recognised, its words without the closing semicolon |
| `NginxReading.LeadIs` | internal/certmgr/nginx.go:353-360 | its indentation is the blanks before its first other character |
| `NginxReading.NamedIff` | internal/certmgr/nginx.go:316-350 | a block has a server name exactly when one of its server_name lines lists it, as stripped of quotes |
| `NginxReading.ServesIff` | internal/certmgr/nginx.go:316-350 | a block serves a certificate exactly when one of its ssl_certificate lines names it |
| `NginxReading.TlsWordIff` | internal/certmgr/nginx.go:364-385 | a listen word means TLS exactly when it is ssl, or the number after its last colon is 443 or 8443 |
| `NginxReading.ListenerPlannedIff` | internal/certmgr/nginx.go:619-638 | a TLS listener is added exactly when no line of the block already is one |
| `Retarget.NoTies` | internal/constants/constants.go:150-170 | for positive spans the rounding never meets a tie |
| `Retarget.StepByIntegers` | internal/constants/constants.go:150-170 | over any true base-2 logarithm the clamped rounded step equals one decided by integer comparisons of squares |
| `Retarget.StepMonotone` | internal/constants/constants.go:150-170 | a faster block never takes a smaller step |
| `Retarget.StepAntisymmetric` | internal/constants/constants.go:150-170 | swapping actual and target span flips the step |
| `Retarget.RetargetByIntegers` | internal/constants/constants.go:150-170 | the whole rule in integers for all spans, zero and negative included |
| `Retarget.RunBounded` | internal/constants/constants.go:150-170 | every run stays at or above the floor and moves by at most two bits a block |
| `Retarget.FasterRunsHarder` | internal/constants/constants.go:150-170 | of two runs from one difficulty, the one with pointwise faster blocks ends at least as hard |
| `ProofOfWork.BitLen` | internal/crypto/crypto.go:120-127 | the bit length of a byte: the least n with the byte below 2^n |
| `ProofOfWork.LeadingZeroBits` | internal/crypto/crypto.go:106-117 | the count n for which the digest, as a big-endian number, lies just below 2^(bits - n) |
| `ProofOfWork.MeetsDifficulty` | internal/crypto/crypto.go:131-133 | true exactly when the digest as a number is small enough |
| `ProofOfWork.MeetsByValue` | internal/crypto/crypto.go:106-133 | counting zero bits and comparing numbers agree on every digest and difficulty |
| `ProofOfWork.MeetsMonotone` | internal/crypto/crypto.go:131-133 | meeting a difficulty implies meeting every easier one |
| `ProofOfWork.MinePoW` | internal/crypto/crypto.go:168-202 | the search ends at the first draw that hits or fails, or after the last miss: each outcome with its exact condition; a found nonce is that draw's, has the asked size and difficulty byte, and its digest meets the difficulty |
| `ProofOfWork.MinedWorkPasses` | internal/claims/claims.go:95-101 | mined work passes at the inferred difficulty exactly when mined at the baseline or the digest meets the baseline |
| `ProofOfWork.InferredIsBoth` | internal/claims/claims.go:95-101 | meeting the inferred difficulty is meeting the baseline and the nonce's own byte |
| `Claims.VerifyPoW` | internal/claims/claims.go:328-350 | true exactly when the stored hash is the recomputed one and has the asked zero bits, or when none are asked those of the baseline and of the nonce byte |
| `Claims.MineAliasClaim` | internal/claims/claims.go:597-627 | a claim is mined exactly when the arguments are valid and a draw hits before one fails; it binds its key, its hash is the recomputed one, and it passes at the inferred difficulty exactly when mined at the baseline or above, or lucky |
| `Claims.BigEndianValue` | internal/crypto/crypto.go:231-244 | the eight time-stamp bytes are the time stamp |
| `Claims.MessageBinds` | internal/crypto/crypto.go:231-244 | a witness message determines the claim identity hash and the time: it cannot serve another claim |
| `ClaimOrder.CompareZero` | internal/claims/claims.go:638-646 | byte comparison is zero exactly on equal strings and antisymmetric |
| `ClaimOrder.LessIsStrictTotal` | internal/claims/claims.go:638-646 | a strict total order: the earlier time stamp first, then the work hash that comes first in byte order, then the identifier |
| `ClaimOrder.NotBelowIsNotAfter` | internal/claims/claims.go:638-646 | the comparison said without it: the time stamp is earlier, or equal and the hash before at the first differing byte, or equal and the identifier so |
| `ClaimOrder.CheckValid` | internal/claims/claims.go:654-656 | a claim passes exactly when its identifier is the hash of a 32-byte key and its stored work hash is the recomputed one with enough zero bits |
| `ClaimOrder.SelectWinner` | internal/claims/claims.go:665-677 | returns nothing exactly when no claim is valid, else the first of the valid claims that no valid claim precedes in time, hash and identifier |
| `ClaimOrder.WinnerIsEarliest` | internal/claims/claims.go:665-677 | no valid claim comes before the winner |
| `ClaimOrder.WinnerKeyConverges` | internal/claims/claims.go:632-677 | lists with the same claims, in any order and multiplicity, have winners with the same key |
| `ClaimOrder.WinnerOfMerge` | internal/claims/claims.go:665-677 | the winner of merged lists is the winner of their winners, the left one on equal keys |
| `ClaimOrder.OrderClaims` | internal/claims/claims.go:683-694 | lists every valid claim exactly once and nothing else, earliest first, in stable order |
| `ClaimOrder.ListIsEarliestFirst` | internal/claims/claims.go:683-694 | a stable order has exactly the valid claims, none after one that it precedes |
| `ClaimOrder.WinnerIsFirst` | internal/claims/claims.go:665-694 | the linear winner is the first of the sorted list, on equal keys too |
| `ClaimOrder.StableOrderUnique` | internal/claims/claims.go:683-694 | there is one stable order, so every stable sort returns the same list |
| `Quorum.BandExact` | internal/claims/claims.go:423-434 | for all time stamps, read as signed: exactly the intended corroboration band, except that it is empty where one of its ends overflows |
| `Quorum.EvaluatedIff` | internal/claims/claims.go:398-412 | an attestation is evaluated exactly when it is the first of its node and fewer than sixteen nodes come before it |
| `Quorum.FrontHides` | internal/claims/claims.go:398-412 | sixteen different nodes at the front hide everything behind them |
| `Quorum.Deduplicate` | internal/claims/claims.go:398-412 | the loop with its early stop keeps exactly the evaluated attestations |
| `Quorum.ValidWitnesses` | internal/claims/claims.go:398-419 | returns, in order, exactly the evaluated attestations of a 32-byte key hashing to the node and with a signature over tag, identity hash and time |
| `Quorum.CorroboratingWitnesses` | internal/claims/claims.go:423-434 | keeps exactly those dated inside the band |
| `Quorum.QuorumFromHash` | internal/claims/claims.go:454-464 | true exactly when enough different admitted nodes corroborate |
| `Quorum.HasQuorum` | internal/claims/claims.go:444-450 | true exactly when the identity can be hashed and enough different admitted nodes have an evaluated attestation with such a key, such a signature and a time inside the band |
| `Quorum.QuorateIff` | internal/claims/claims.go:444-464 | the same as a count of vouching nodes, for every member set and threshold |
| `Quorum.UnsignedNeverCounts` | internal/claims/claims.go:208-225 | a node none of whose attestations carries a verifying signature is never counted |
| `Quorum.VerifyFull` | internal/claims/claims.go:712-729 | with the prefix built once: exactly key consistency, the proof of work and that count of vouching nodes |
| `Quorum.QuorumMeansKeys` | internal/claims/claims.go:444-464 | a quorum yields that many different 32-byte public keys, each of an admitted node and with a verifying signature over exactly this claim identity, dated inside the band |
| `Quorum.KeysMakeQuorum` | internal/claims/claims.go:444-464 | conversely such keys make a quorum when the list has at most sixteen attestations, one per node |
| `Quorum.AppendKeepsQuorum` | internal/claims/claims.go:398-464 | attestations added at the end never undo a quorum |
| `Quorum.FrontDefeatsQuorum` | internal/claims/claims.go:398-464 | sixteen unusable nodes at the front defeat any quorum behind them |
| `FreshQuorum.FreshAttestations` | internal/claims/claims.go:482-509 | the loop with its two exits computes the specified scan |
| `FreshQuorum.ScanSound` | internal/claims/claims.go:482-509 | at most sixteen signatures are checked; the result is fresh, from the input, one per node |
| `FreshQuorum.ScanGrows` | internal/claims/claims.go:482-509 | evidence added at the end loses none of the result |
| `FreshQuorum.WithinCap` | internal/claims/claims.go:482-509 | while the list asks for at most sixteen checks every fresh node is counted |
| `FreshQuorum.BeyondCap` | internal/claims/claims.go:482-509 | a list that asks for sixteen or more checks uses exactly sixteen |
| `FreshQuorum.CountedIff` | internal/claims/claims.go:482-509 | a node's first fresh attestation puts it among the counted nodes of the whole list exactly when fewer than sixteen checks, failed repetitions included, come before it |
| `FreshQuorum.CopiesExhaustTheCap` | internal/claims/claims.go:477-509 | sixteen copies of one unusable attestation hide a usable one that the mint check would evaluate |
| `FreshQuorum.HasFreshQuorum` | internal/claims/claims.go:519-528 | a fresh quorum yields that many different 32-byte keys, each with a verifying signature over this identity dated inside the window |
| `VerifyCache.SlotIs` | internal/crypto/verify_cache.go:72-76 | the slot is bits 51 to 63 of the first eight key bytes, read big-endian, times the golden constant |
| `VerifyCache.KeyNamesTriple` | internal/crypto/verify_cache.go:57-67 | fixed key and signature lengths make the cache key unambiguous when digests do not collide |
| `VerifyCache.GateNeeded` | internal/crypto/crypto.go:78-83 | without the length gate two different triples would share a key |
| `VerifyCache.Table.constructor` | internal/crypto/verify_cache.go:55-55 | a new table has 8192 empty slots |
| `VerifyCache.Table.Verify` | internal/crypto/verify_cache.go:79-88 | returns the pure verdict, keeps every entry honest, and leaves this verdict in its slot and no other slot changed |
| `VerifyCache.NextKeeps` | internal/wire/sigmemo.go:53-72 | every atomic step of every caller keeps all entries and intermediate verdicts honest |
| `VerifyCache.EveryRun` | internal/wire/sigmemo.go:53-72 | the invariant holds after every interleaving of any number of callers |
| `VerifyCache.EveryVerdictIsPure` | internal/wire/sigmemo.go:53-72 | in every interleaving, evictions and resets included, a finished call returns what Ed25519 says of a 32-byte key and a 64-byte signature, and false for other sizes; both tables stay within 8192 entries |
| `VerifyCache.RepeatedCallsAreFree` | internal/wire/sigmemo.go:53-72 | until the memo and the verdicts stored since exceed 8192, a call for a remembered triple is answered by its first step, in every interleaving |
| `VerifyCache.MemoHoldsAnswers` | internal/wire/sigmemo.go:53-72 | in every interleaving the memo holds only answers given to calls through it |
| `VerifyCache.AnsweredInFiveSteps` | internal/wire/sigmemo.go:53-72 | in every interleaving a call is answered after at most five steps of its own, whatever the others do |
| `Ledgers.AdoptIsLatest` | internal/blacklist/blacklist.go:239-262 | the merge is the pointwise latest of the table and the live file rows; ties keep the table's copy |
| `Ledgers.Newest` | internal/blacklist/blacklist.go:152-155 | keeps at most the 32 most recent violations |
| `Ledgers.OpenRestores` | internal/blacklist/blacklist.go:96-119 | opening a saved file restores exactly the live part of the saved table |
| `Ledgers.Open` | internal/blacklist/blacklist.go:96-119 | a corrupt file is refused, a missing one is empty, otherwise the live rows are loaded |
| `Ledgers.Ledger.constructor` | internal/blacklist/blacklist.go:96-119 | the loaded table is the specified one and the file is not touched |
| `Ledgers.Ledger.Save` | internal/blacklist/blacklist.go:268-284 | the file holds exactly the rows of the table, or is unchanged if the write fails |
| `Ledgers.Ledger.AdoptFromFile` | internal/blacklist/blacklist.go:239-262 | computes the merge |
| `Ledgers.Ledger.Record` | internal/blacklist/blacklist.go:127-161 | refuses identifiers that are not 32 bytes; otherwise merges, appends, re-arms the row for exactly 24 hours and saves |
| `Ledgers.Ledger.FlaggedID` | internal/blacklist/blacklist.go:174-190 | flagged exactly when present and not past expiry; an expired row is dropped and the table saved |
| `Ledgers.Ledger.Remove` | internal/blacklist/blacklist.go:218-233 | removes exactly that row and saves if it was there |
| `Ledgers.Ledger.Entries` | internal/blacklist/blacklist.go:194-214 | lists exactly the live rows, each once, oldest flag first; the guarded save never happens |
| `LedgerRuns.RecordHolds` | internal/blacklist/blacklist.go:127-161 | recording never shortens a flag and re-arms its own |
| `LedgerRuns.RecordedStaysFlagged` | internal/blacklist/blacklist.go:127-190 | over every run of any number of processes whose reads and writes of the file interleave, a recorded identity stays flagged in that process until its time is up, unless removed there or restarted |
| `LedgerRuns.SaveHoldsIff` | internal/blacklist/blacklist.go:268-284 | a save leaves in the file exactly what the saving process holds |
| `LedgerRuns.AdoptHoldsIff` | internal/blacklist/blacklist.go:239-262 | after a record has read the file its process holds exactly what it or the file held, besides what it records |
| `LedgerRuns.StepKeepsFileIff` | internal/blacklist/blacklist.go:127-233 | one step keeps a live file row exactly when it does not save, or its process knows the row and is not dropping it |
| `LedgerRuns.RecordMergesIff` | internal/blacklist/blacklist.go:127-161 | a record from its read to its write, with other processes in between: the file then flags another identity exactly when the process or the file did at the read |
| `LedgerRuns.RunKeepsFile` | internal/blacklist/blacklist.go:127-233 | over every run a row stays in the file if no record was under way without it and no plain save comes from a process that does not know it |
| `LedgerRuns.RestartRecovers` | internal/blacklist/blacklist.go:96-119 | a process that restarts while the file holds a live row flags it |
| `LedgerRuns.OverlappingRecordsLoseRow` | internal/blacklist/blacklist.go:127-161 | a run from an empty start in which two overlapping records lose a flag inside its time, although every save merges |
| `LedgerRuns.PlainSaveLosesRow` | internal/blacklist/blacklist.go:174-190 | a run from an empty start in which another process's save without a merge loses a flag inside its time |
| `Recovery.DeclarationBinds` | internal/wire/recovery.go:127-144 | a signed declaration determines the record, the new owner and the start time |
| `Recovery.CountSigners` | internal/wire/recovery.go:216-234 | the nested loops count exactly the different policy keys with a valid signature |
| `Recovery.CountIgnoresOrder` | internal/wire/recovery.go:216-234 | the count depends only on which keys and signatures there are, and more signatures never lower it |
| `Recovery.VerifyRecovery` | internal/wire/recovery.go:187-240 | true exactly when enough different 32-byte policy keys have a verifying signature over tag, record hash, new owner and start; the start is at least creation plus timelock (the end of time where that overflows) and has come |
| `Recovery.AcceptsIff` | internal/wire/recovery.go:187-240 | the acceptance predicate is that condition |
| `Recovery.AcceptanceIgnoresOrder` | internal/wire/recovery.go:187-240 | reordering or repeating signatures or policy keys changes nothing |
| `Recovery.Report` | internal/cli/lifecycle.go:645-693 | the command-line verdict as a function of its inputs |
| `Recovery.VerdictsAgree` | internal/cli/lifecycle.go:645-663 | on ordinary policies the report says executable exactly when acceptance does |
| `Recovery.VerdictsDiffer` | internal/cli/lifecycle.go:645-663 | on every other policy whose keys can reach the threshold they differ on some evidence |
| `Recovery.CheckSigners` | internal/cli/lifecycle.go:383-412 | signers pass exactly when all are in the policy and none is repeated; a refusal names the first at fault and why |
| `Recovery.Assemble` | internal/cli/lifecycle.go:381-439 | every outcome with its exact condition for every policy, creation time and clock; evidence of enough distinct policy keys is accepted from now + timelock on and at no earlier instant |
| `Recovery.OneExplanation` | internal/cli/lifecycle.go:381-439 | the conditions of the outcomes exclude each other, so they determine the outcome |
| `Recovery.StartInTime` | internal/cli/lifecycle.go:417-420 | for all clocks and creation times: the start clears the bound exactly when the sum did not wrap and the clock is not behind (up to saturation), or creation is unknown |
| `Records.WinsIsStrictOrder` | internal/wire/wire.go:594-615 | the winner rule is a strict order, total up to equal sequence and hash |
| `Records.WinsIs` | internal/wire/wire.go:594-615 | the winner has the higher sequence, or the same and the hash that comes later in byte order |
| `Lifecycle.RecoveredLifetime` | internal/cli/lifecycle.go:545-551 | for all clocks and expiries: which of the old expiry and one hour from now a recovered record gets, wrap-around included |
| `Lifecycle.LinkMadeIff` | internal/cli/lifecycle.go:250-582 | for all inputs exactly when a hand-off or recovery can be made: a usable name and key, room in the sequence, parseable arguments, an expiry that does not wrap, the right consent |
| `Lifecycle.ChainLaws` | internal/cli/lifecycle.go:250-582 | along every chain: name, claim and policy fixed, sequence counting links, predecessor hashes, the right signer, delegation to the owner or the first delegate |
| `Lifecycle.DelegationExactly` | internal/cli/lifecycle.go:283-293 | the delegation is the owner exactly if authority followed anywhere before, else the first delegation |
| `Lifecycle.FollowsForGood` | internal/cli/lifecycle.go:283-293 | once authority has followed the owner it always does |
| `Lifecycle.ChainWins` | internal/wire/wire.go:594-694 | every later envelope of a chain wins over every earlier one and links to its predecessor |
| `Lifecycle.StoreTakesLink` | internal/dht/evidence.go:189-228 | a store holding the predecessor installs the successor exactly for a hand-off, a recovery by the same owner, or evidence naming the new key that the predecessor's policy accepts |
| `Lifecycle.EvidenceInstalls` | internal/dht/store.go:237-290 | accepted evidence that names the new key makes a store holding the predecessor install the recovered record |
| `Lifecycle.Recover` | internal/cli/lifecycle.go:381-582 | end to end: ready exactly when there is a policy, its signers are distinct policy keys, the self-check has no objection and the record can be made, otherwise the first reason; then, with enough signers, every store that holds the live predecessor installs the recovered record with that evidence |
| `Lifecycle.RecordsCarried` | internal/cli/lifecycle.go:555-565 | without an address change resource records are carried verbatim, a recovery only filling in absent TTLs |
| `Store.PutNeverLowers` | internal/dht/store.go:218-327 | a put leaves at a live key the old envelope or one with a higher sequence, or the same and a later hash |
| `Store.PutOrigin` | internal/dht/store.go:218-327 | what a put leaves at a key is the newcomer at its key or what was there |
| `Store.TakenIff` | internal/dht/store.go:218-327 | the store takes an envelope exactly when the slot is free or lapsed by more than a day, or it is another, newer envelope with consent of the owner there, of a parent (no predecessor asserted), or of a recovery quorum over the predecessor it names |
| `Store.NeverFalls` | internal/dht/store.go:218-327 | over every history of puts and losses, (sequence, hash) never falls at a key that stays live |
| `Store.DeliverIsBest` | internal/dht/store.go:218-327 | delivering any list of an owner's updates leaves one of them or the incumbent, and nothing among them beats it |
| `Store.DeliverIsNewest` | internal/dht/store.go:218-327 | that one has the highest sequence, and among those the latest hash |
| `Store.UpdatesConverge` | internal/dht/store.go:218-327 | two stores that get an owner's updates in any two orders and multiplicities end with the same envelope |
| `Reconcilers.RenewIsNext` | internal/renewal/renewal.go:62-114 | a renewal is the whole record with sequence + 1, created now, expiring a day later, no predecessor and everything else as it was (apex records re-bound), signed by its owner, at the same keys; it beats its predecessor |
| `Reconcilers.RenewIff` | internal/renewal/renewal.go:62-114 | there is a renewal exactly for the owner's key, of a record not revoked, with a name and a 32-byte owner, whose sequence and expiry do not overflow |
| `Reconcilers.DueIff` | internal/renewal/renewal.go:42-56 | a record is due exactly when it has expired or less than a whole fifth of its lifetime is left |
| `Reconcilers.DueStays` | internal/renewal/renewal.go:42-56 | a record that is due stays due as the clock goes on |
| `Reconcilers.Reconciler.Snapshot` | internal/dht/store.go:463-479 | the listing has every live entry once, keys ascending in byte order |
| `Reconcilers.Reconciler.RenewOnce` | cmd/freens/main.go:1640-1720 | the scan renews and installs exactly as the specification fold says |
| `Reconcilers.Reconciler.InstallAll` | cmd/freens/main.go:1714-1716 | the local puts of one renewal, key by key |
| `Reconcilers.Reconciler.ReconcileLeases` | cmd/freens/main.go:1534-1615 | the check publishes and arms exactly as specified and leaves the store alone |
| `ReconcilerRuns.ScanLegal` | cmd/freens/main.go:1652-1700 | every renewal is the successor of a listed own record that is due and not revoked; an identity is renewed at most once a tick |
| `ReconcilerRuns.DueIsRenewed` | cmd/freens/main.go:1652-1700 | the first listed record of a signer and name that is own, due, not revoked and signable (earlier ones of that name may be revoked) is renewed when its own publish attempt works |
| `ReconcilerRuns.NothingDueIsLeft` | cmd/freens/main.go:1640-1720 | if publishing works, a signer and name whose live records in the store, revoked ones aside, are all due and renewable gets a renewal in this tick |
| `ReconcilerRuns.AttemptedOnce` | cmd/freens/main.go:1652-1700 | at most one publish attempt a tick per own signer and name, failed ones included; exactly those of listed records not revoked are handled |
| `ReconcilerRuns.RaisedIff` | cmd/freens/main.go:1701-1716 | after a renewal a key holds it exactly when its slot was free, expired or held the same envelope, or held one it beats whose owner signed it or whose parent vouches; otherwise the key keeps what it had |
| `ReconcilerRuns.RenewalRaisesItsKeys` | cmd/freens/main.go:1701-1716 | every key that holds the renewed record ends one sequence higher |
| `ReconcilerSequences.RenewedAlive` | internal/renewal/renewal.go:62-114 | a renewal is alive when signed exactly when the clock is two days short of 2^63 |
| `ReconcilerSequences.ScanHolds` | cmd/freens/main.go:1640-1720 | a scan never lowers (sequence, hash) at a live key, whoever owns it |
| `ReconcilerSequences.RunNeverFalls` | cmd/freens/main.go:1378-1388 | over every run of ticks, incoming puts and losses sequences never fall at a key that stays live |
| `ReconcilerSequences.RenewalLifts` | cmd/freens/main.go:1701-1716 | after a renewal no own record of that name below its sequence is left in the store |
| `ReconcilerSequences.FloorKeptIff` | internal/dht/store.go:218-327 | an incoming put keeps the floor of an identity's sequences exactly when the store does not take it, it is not of that identity, or it is current |
| `ReconcilerSequences.RenewalsNeverShareASequence` | cmd/freens/main.go:1640-1720 | over every run, stale copies that the store refuses included, the later of two renewals of an identity has the higher sequence, unless the store takes back an older own record |
| `ReconcilerSequences.RenewalsCarryTheLease` | cmd/freens/main.go:1640-1720 | over every run, each renewal is the next lease of a record that lay live in the store |
| `ReconcilerSequences.NoSetIsInvented` | cmd/freens/main.go:1640-1720 | over every run with the apex binding off, each resource-record set in the store is one that was there or came in, under its name; renewals sign the set unchanged |
| `ReconcilerSequences.ReplayRepeatsASequence` | cmd/freens/main.go:1640-1720 | if everything local is lost and an old record returns, a later tick signs a different envelope with the same sequence again, for every renewable record |
| `ReconcilerLeases.CheckIsSafe` | cmd/freens/main.go:1534-1615 | for every network: only existing own records that are not revoked are published, and a new throttle mark means a question asked in this pass for that key was answered with the same hash |
| `ReconcilerLeases.PublishedAreRepairs` | cmd/freens/main.go:1568-1615 | for every network and throttle: what the pass publishes is, in order, one publication per question that was conclusively answered with something else |
| `ReconcilerLeases.RepublishedIff` | cmd/freens/main.go:1568-1615 | a record is published again exactly when a question asked for it in this pass was answered conclusively with something else |
| `ReconcilerLeases.EveryLeaseIsChecked` | cmd/freens/main.go:1534-1580 | every key of every own record that is not revoked is asked for, unless a mark from before the pass was under an hour old or the network showed the record of that name at that key in this pass |
| `ReconcilerLeases.AskedHourly` | cmd/freens/main.go:1534-1580 | for every network and clock no key is asked for within an hour of its mark or of an answer that showed the record |
| `ReconcilerLeases.LostLeasesAreRepublished` | cmd/freens/main.go:1568-1615 | a network that lost everything gets back, in one pass, every own record with a key not marked within the hour |

## Left out

- Swarm: peers' replies, the error value shared by workers and the scheduling are arbitrary inputs; time-outs and progress output are not modelled.
- Manifests.Compute: file sizes are 64-bit signed in the source, so files from 2^63 bytes on do not occur.
- NginxInstall.ConfigTree.Install: directory walking, file modes and the reload command are not modelled; what `nginx -t` answers is an input; the text left behind by a copy or write that fails half-way is not described.
- Cloning a server block for a name that has none, and recording the deployment for later renewals.
- NginxInstall.SecondInstallPlansNothing: stated for paths without a line break that leave the brace depth alone, and for files whose edited blocks stay closed without their certificate lines (`NginxRescan.RescanIff`: exactly the files in which every block is found again). Both plans are over the same scanned paths: a symbolic link that dangled to a `.freens-pre` path becomes scannable after the first install, and that second, longer list is not modelled.
- Confedit.Set: file permissions and the atomic replacement of the file are not modelled.
- ConfeditFile.FileGetAfterSet: stated for section names without a line break, which the editor does not check. For keys that cannot be read from a line this and the laws above assume that lower-casing maps no other character to a separator, bracket or comment sign.
- Retarget.StepByIntegers: over the exact logarithm; the rounding of the floating-point logarithm near its thresholds is not modelled.
- Claims.MineAliasClaim: alias validation is a parameter assumed to be stable under repetition; the internals of label checking are not modelled.
- ReconcilerSequences.ScanHolds: stated for clock readings two days short of 2^63; beyond them a renewal is born expired (`ReconcilerSequences.RenewedAlive`).
- CBOR decoding and its length checks: inputs start at the decoded values.
- VerifyCache.EveryVerdictIsPure: assumes that no two of the triples asked about collide under SHA-256.
- Ledgers.Ledger.Record: its clock readings are one instant; the read and the write of the file, which other processes can separate, are two steps in `LedgerRuns`.
- Ledgers.Ledger.Remove: trimming and lower-casing of the typed identifier are not modelled.
- Ledgers.Ledger.Entries: the sharing of violation lists between the table and the returned copies is not modelled.
- Recovery.Assemble: seed parsing and writing the evidence file are not modelled; signing is assumed to verify under its own key; the exact conditions are for policies of fewer than 2^63 keys, which is all that fit in memory.
- Lifecycle.ChainLaws: the signature self-check of a recovered record is taken to succeed; address parsing is an input.
- Store.PutNeverLowers: the byte budget's choice of victims is an input, and so is whether evidence comes with a put or from the retained table; the superseded history is left out.
- Reconcilers.RenewIsNext: the owner-certificate binding added to apex records is a parameter; the 0.8 threshold is the exact fifth of the lifetime, without floating-point rounding.
- ReconcilerSequences.RenewalsNeverShareASequence: assumes that the envelopes one tick handles do not collide, one set of storage keys per name, and that the store takes no own record older than its last renewal; without the last it fails (`ReconcilerSequences.ReplayRepeatsASequence`).
- ReconcilerSequences.NoSetIsInvented: stated for a binding rule that leaves the record set alone; what the certificate binding adds to an apex record is a parameter (`Reconcilers.RenewIsNext` carries it).
- The DHT routing and transport, the resolver, DNS serving, the web interface, trust synchronisation and the keychain files.
