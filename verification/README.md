# Verified model of the backup archive, the utility algorithms and the history load

This project models three parts of the repository in Dafny and proves what they
promise:

* **The backup archive** (`src/clawt-backup.c`): collecting a state directory into a
  list of members under name, size, entry and depth limits, framing the list,
  verifying an archive, and replaying its members into a new directory. The main
  result is the round trip: whatever create wrote, restore accepts, and what it
  restores is exactly the kept files, byte for byte. Kept are the regular files with no
  excluded name on their path and not at or below an `agents/X/config.yaml`.
* **Path, tree, process and byte algorithms** (`src/clawt-util.c`): lexical path
  normalisation and containment, link resolution, removing and copying a tree, the
  process tree seen downwards and upwards, the shell quoting scanner, UTF-8 cuts,
  the folded comparison, sortable ids, phrase quoting, and atomic replacement.
* **The nested history load** (`clients/gtk/gtk-chat.c`): which load owns the view when
  loads run inside each other's waits, and the merge of messages with steps.

## How it is laid out

`Strings`, `Arithmetic` and `Files` hold what the rest share. `Files` is the file system:
a finite map from canonical paths (lists of names) to `Dir | File | Link | Other`, and a
class `Disk` whose methods are the system calls. Each call may also fail for reasons of
its own, unless the disk is `sound`; a read or write may move any part of what was asked
for, or be interrupted by a signal; and `Disk` remembers every tree it has held, so a
property can be stated about every moment of a call. On a `Smooth` disk no call fails for
reasons of its own and no signal is pending.
Functions of the source that loop or change state are methods over `Disk`, `Collector`,
`Walker` or `Window`; each is proved against a specification function or relation, and
the theorems are lemmas about that specification. Directory listings are sets from which
names are taken in an arbitrary order, so every result holds for every listing order.

A `char` stands for one byte of a C string, except in `Phrase`, where it stands for one
character of the query. SHA-256 and the serialised member list are the functions of a
`Codec`; the round trip asks only that digests have 64 hexadecimal digits and that reading
back what was written works. A C function that is long is several methods here, one per
stage.

Where the code does less than a wish, the exact condition is proved instead:

* The folded comparison is equality on all C strings of two given lengths if and only if
  the lengths are equal, or unequal modulo 2^24, or one of them is zero (`SecureEquals.Told`);
  `LongStringsCanCollide` gives a pair that is not told apart.
* Ids sort by time as long as the milliseconds fit the digits; `StampOrder` says how they
  sort beyond that.
* The downward process walk sees levels 1 to 33 and the upward one 64 steps: their answers
  differ if and only if the root is 34 to 64 steps up (`WalksDisagree`).
* A tree copy follows a link to a directory that stands where it would make a directory. With
  source and target kept apart, a copy that succeeds is the overlay if and only if no directory
  to be copied meets a link; `CopyEscapes` and `WhereItEscapesTo` show one that does.
* Canonicalising a path gives the part it cannot resolve a fresh budget of links, so a path with
  more links than the kernel follows can pass the fence of tree removal and lead out of the root.
  `Strays` is exactly when what is removed lies outside; `StrayInput` gives such a path for every
  limit.
* The room after a run is the newest load's, unless the view was cleared after it was taken.
  Clearing does not count as beginning a load, so a clear inside the newest load's wait is
  undone (`ClearInsideWaitIsLost`). A load that runs inside another's second wait can leave a
  mixed transcript (`LateLoadMixesTranscripts`); `FinalView` says what the view is after every
  run and exactly when it is the newest load's own.
* The string `""` has no components, so the path check says nothing about it
  (`EmptyPathIsSafe`). The collision theorem is about non-empty member paths; a member with
  an empty path ends a replay with the fault `PastEnd`. Collecting never emits one.

## Model

| member | source | states |
|---|---|---|
| BackupRoundTrip.CreateThenRestore | src/clawt-backup.c:155-369 | For every state tree, listing order and pattern of call failures: an archive create wrote is refused by restore only for input or output, and on success the new directory holds exactly the kept regular files, byte for byte, and the directories that lead to one; nothing else on disk differs but the archive and the lock file. When no call fails for reasons of its own, a state that can be backed up is, and restoring it under a parent that is there succeeds |
| BackupRoundTrip.CreatedIsAccepted | src/clawt-backup.c:194-346 | Every snapshot within the limits, once framed, passes the magic, checksum, size, path, duplicate and parent checks and is read back as the same member list |
| BackupRoundTrip.SnapshotNames | src/clawt-backup.c:95-152 | The member paths of a snapshot are exactly the paths of the kept files |
| BackupRoundTrip.SnapshotIsAntichain | src/clawt-backup.c:316-346 | No member of a snapshot is at or below another, because a file has nothing below it, so the collision checks pass |
| BackupRoundTrip.LaidIsRestored | src/clawt-backup.c:243-281 | A directory laid out from a snapshot has the kept files and nothing else, only empty or fully filtered directories being lost |
| BackupRoundTrip.LockIsNotKept | src/clawt-backup.c:172-182 | The lock file create leaves behind changes nothing a backup keeps |
| BackupReplay.CollisionCheckIsExact | src/clawt-backup.c:243-369 | For safe non-empty paths, the duplicate and parent checks pass if and only if replaying all members into an empty directory never meets a taken name, and then the directory holds exactly the members and the directories above them |
| BackupReplay.PlaceResult | src/clawt-backup.c:243-281 | Restoring one member succeeds exactly when no component is taken by something else and the last is free, and then adds that file and the missing directories above it |
| BackupReplay.FreeMeansClear | src/clawt-backup.c:243-281 | After some members were laid out, the next one is free exactly when its components neither extend nor begin those of an earlier one |
| BackupReplay.CutIsPrefix | src/clawt-backup.c:338-345 | Cutting a path at one of its slashes reaches another path exactly when that path's components come first |
| BackupReplay.ChecksAreAntichain | src/clawt-backup.c:316-346 | The two string checks together say that no member's components begin another's |
| BackupReplay.ReplayFrom | src/clawt-backup.c:358-366 | Continuing a replay succeeds exactly when the members done and to come collide nowhere |
| BackupArchive.Verify | src/clawt-backup.c:300-346 | The verdict on an archive's bytes, with the checks in the order the code makes them; what the verdicts mean is in the next three rows |
| BackupArchive.AcceptedMeans | src/clawt-backup.c:300-346 | An archive is accepted as a list of members if and only if its bytes are the magic, the checksum of the body, a newline and the body; the body reads back as that list; and every member is safe, within its size, of its own checksum and apart from the others. No other test and no missing one |
| BackupArchive.FaultMeans | src/clawt-backup.c:300-346 | A refusal names the first thing that is wrong: the header, the checksum of the body, the list, a member, a conflict |
| BackupArchive.BodyDecides | src/clawt-backup.c:300-309 | Two accepted archives with the same body are the same bytes, so nothing in an accepted archive can be changed without changing the body |
| BackupArchive.VerifyMembers | src/clawt-backup.c:316-331 | The member loop accepts exactly the lists whose members are each safe, small and intact with no path twice, and its manifest names every member once |
| BackupArchive.MembersMean | src/clawt-backup.c:316-331 | A list passes the member checks if and only if no path comes twice and every member is safe, at most 64 MiB and of its own checksum |
| BackupArchive.VerifyParents | src/clawt-backup.c:332-346 | The in-place truncation loop accepts exactly the lists in which no path cut at a slash is a member |
| BackupArchive.LastSlash | src/clawt-backup.c:339 | The last slash of a string, or that there is none |
| BackupArchive.ManifestLines | src/clawt-backup.c:329-330 | The lines of the manifest are the member paths in order, so a preview cannot show other names |
| Backup.Restore | src/clawt-backup.c:283-369 | Nothing is written before the verdict, and only below a destination that was not there; a refusal changes nothing; success means an accepted archive and a directory of exactly its members; no accepted archive ever fails on a taken name. When no call fails for reasons of its own, it succeeds if and only if the archive is readable and accepted and, to write, the destination is a new name in a directory that is there and no member is without a path. What success says of the bytes is spelt out: the magic, the checksum of everything after the header, a newline and that body; a body that reads back as at most 100000 members, each safe, at most 64 MiB and of its own checksum, apart from one another; a manifest that names them |
| Backup.ReplayMembers | src/clawt-backup.c:358-366 | Replaying under the destination ends in the replayed tree, a fault of input or output, or at an empty path |
| Backup.RestoreFile | src/clawt-backup.c:243-281 | One member is placed as the specification says, or the fault tells why, and only the destination changes |
| Backup.EnterDirectory | src/clawt-backup.c:255-265 | A component is made or entered; a name taken by something else is a clash |
| Backup.CreateFile | src/clawt-backup.c:266-281 | The file is created only where nothing was, and success means its whole contents |
| Backup.WriteAll | src/clawt-backup.c:270-279 | However writes are cut up or interrupted, success means all bytes in order, and they are all written unless a call fails |
| Backup.AcceptedReplays | src/clawt-backup.c:316-366 | Whatever passed verification replays up to its first empty path |
| Backup.Create | src/clawt-backup.c:155-213 | Success adds one new file that frames a snapshot of the state directory within every limit restore applies; a refusal that blames the tree has something in it to blame; any outcome changes at most the archive and the lock file. When no call fails for reasons of its own, it succeeds if and only if the state can be locked, nothing in it is in the way, the list serialises within the limit, and the archive has a place |
| Backup.CollectState | src/clawt-backup.c:183-193 | The whole state is collected, or something in it is in the way, or a call failed |
| Backup.WriteArchive | src/clawt-backup.c:200-212 | The archive is written whole under a name that was free, and anything else leaves other paths alone, and it is written whenever no call fails and the name is new in a directory that is there |
| Backup.TakeLock | src/clawt-backup.c:175-182 | The lock file is made when it is missing and must be a regular file |
| BackupCollect.Collector.Collect | src/clawt-backup.c:95-152 | For any listing order: success means the members added are exactly the kept files below the directory, each once with its checksum, no link and no unsafe name among what is kept; total is the sum of size, path length and 128 over all members and within 256 MiB, members are at most entries, and entries is exactly the number of names that are not excluded in the directories entered, at most 100000. A refusal that blames depth, a name or a link has such a thing in the tree, and a count or size refusal has gone over its limit. It blames input or output only when a call failed or was interrupted |
| BackupCollect.Collector.CollectEntry | src/clawt-backup.c:109-151 | One name: counted, filtered or refused, with the accounts in order |
| BackupCollect.Collector.CollectKept | src/clawt-backup.c:123-150 | A kept name: link, directory, file or something else |
| BackupCollect.Collector.CollectFile | src/clawt-backup.c:140-150 | A file becomes one member with its checksum; one that is too long, alone or with what is there, is refused as such, and a total over the limit is too |
| BackupCollect.ReadFile | src/clawt-backup.c:52-92 | However reads are cut up or interrupted, the whole regular file within the limit or nothing; a file over the limit is told from what is no file |
| BackupPolicy.DepthIsComponents | src/clawt-backup.c:95-238 | A kept path that can be spelled passes the path check if and only if it has at most 65 components, what a recursion of depth 64 can reach; so collecting never refuses a name for the number of components above it |
| BackupCollect.ChildText | src/clawt-backup.c:120 | The slash-joined path of a child is that of its components |
| BackupCollect.GathersDirectory | src/clawt-backup.c:129-139 | What is gathered below one child and before it is together what is gathered after it |
| BackupCollect.GathersFile | src/clawt-backup.c:142-150 | A file's record adds exactly that child to what is gathered |
| BackupCollect.GathersDropped | src/clawt-backup.c:116-122 | A filtered child takes with it everything below it |
| BackupCollect.RefusedIsUnfit | src/clawt-backup.c:104-147 | Whatever a refusal blames is in the way of any backup of the tree |
| BackupCollect.SnapshotIsFit | src/clawt-backup.c:95-153 | And where a collection went through, nothing is: no link, no name that cannot be spelled, no directory too deep, no file too long, and no choice of kept files over the size limit or of entries over theirs |
| BackupCollect.SeenDirectory | src/clawt-backup.c:116-139 | An entered directory counts for itself and for what is seen in it, so the counter of the recursion is the size of one set |
| BackupCollect.SeenAlone | src/clawt-backup.c:116-150 | A name that is not entered, a generated configuration included, counts once |
| BackupCollect.JustifiedThrough | src/clawt-backup.c:129-136 | What a refusal blames below a child is to blame in the directory |
| BackupPolicy.CheckSafePath | src/clawt-backup.c:216-238 | The loop accepts exactly the well-formed UTF-8 paths of at most 4096 bytes, without control characters, of at most 65 components with none empty or excluded, other than a generated configuration |
| BackupPolicy.SafePathMeans | src/clawt-backup.c:216-238 | A non-empty path passes if and only if it is the slash-joined spelling of 1 to 65 file names that are never excluded, in at most 4096 bytes of well-formed UTF-8 without control characters, and is no generated configuration |
| BackupPolicy.GeneratedMeans | src/clawt-backup.c:22-29 | The generated configuration is exactly `agents/X/config.yaml` with no slash in X |
| BackupPolicy.KeptMeans | src/clawt-backup.c:40-50 | A path is kept if and only if nothing on it, from the top down to it, is one of the twelve names that are dropped or a generated configuration |
| BackupPolicy.SafePathParts | src/clawt-backup.c:216-238 | A safe non-empty path is a list of 1 to 65 file names and is spelled by them |
| BackupPolicy.PathTextSplits | src/clawt-backup.c:226 | Splitting the slash-joined path of some names gives the names back |
| BackupPolicy.KeptChild | src/clawt-backup.c:116-122 | The per-name filters of the recursion together are the filter on whole paths |
| BackupPolicy.EmptyPathIsSafe | src/clawt-backup.c:226-236 | The empty path passes the check, having no components |
| Strings.PiecesOfJoin | src/clawt-backup.c:226 | Splitting what was joined gives the parts back |
| Strings.JoinOfPieces | src/clawt-backup.c:226 | Joining what was split gives the string back |
| Paths.NormalizePathLexically | src/clawt-util.c:278-337 | The stack loop computes the normal form, and nothing for a missing path |
| Paths.WriteOut | src/clawt-util.c:319-336 | The kept components are written with single slashes, `/` and `.` for the empty cases |
| Paths.NormalizedMeansTheSame | src/clawt-util.c:278-337 | From every starting directory, walking the output ends where walking the input ends (section 4.13 of POSIX.1-2017 Base Definitions, without links), and an absolute path stays absolute |
| Paths.NormalizedIsCanonical | src/clawt-util.c:278-337 | Two paths denote the same walk from every start if and only if their normal forms are equal strings |
| Paths.NormalizedIsIdempotent | src/clawt-util.c:278-337 | Normalising twice is normalising once |
| Paths.AbsoluteShape | src/clawt-util.c:278-337 | A normalised absolute path spells the names of the place it leads to |
| Paths.RelativeShape | src/clawt-util.c:278-337 | A normalised relative path is `.` or a run of `..` followed by names |
| Paths.ReduceKeepsMeaning | src/clawt-util.c:294-317 | Every turn of the stack keeps the walk and the normal form |
| Paths.WithinIsComponentPrefix | src/clawt-util.c:339-359 | On canonical absolute paths, `/` included, the string test holds if and only if the root's components begin the path's |
| Paths.WithinDecidesWalkTargets | src/clawt-util.c:278-359 | On normal forms, the test decides whether one walk ends at or below the other's end |
| Paths.WithinIsPartialOrder | src/clawt-util.c:339-359 | Reflexive, antisymmetric and transitive on normalised absolute paths |
| Paths.NothingIsWithinNone | src/clawt-util.c:344 | A missing path or root is within nothing, and nothing is within a longer path |
| Resolve.CanonicalizeMissing | src/clawt-util.c:227-276 | The loop gives the place of the longest part of the path that resolves, followed by the rest as written |
| Resolve.CanonicalIsDeepest | src/clawt-util.c:227-276 | In terms of what resolves alone: every path has exactly one longest part that resolves, and the canonical form is the place of that part followed by the rest as written |
| Resolve.WalkStands | src/clawt-util.c:244-255 | A resolved path is in the tree and is no link |
| Resolve.RealPathOfCanonical | src/clawt-util.c:244-255 | A resolved path resolves to itself and follows no link |
| Resolve.CanonicalWalksOn | src/clawt-util.c:227-276 | For every path: walking the canonical form is walking the path itself with up to twice the links, the part left unresolved having a budget of its own |
| Resolve.CanonicalOfMissing | src/clawt-util.c:227-276 | What leads nowhere leads nowhere in canonical form too, and what resolves stays where it is; only a path with too many links can come to lead somewhere |
| RemoveTree.CanonicalIsPlain | src/clawt-util.c:227-276 | Canonicalising keeps components free of separators, so the containment test applies |
| RemoveTree.RemoveTree | src/clawt-util.c:882-990 | For every path: only things at and below where the canonical form leads go, nothing is added or rewritten, so what links inside point at stays; success leaves nothing there; the fence turned away changes nothing. Something outside the root changes if and only if the path strays and the call succeeds. When no call fails for reasons of its own, a path that strays, or one that resolves inside the root, is removed. The recursion ends. In terms of what resolves alone: a path that is no link is refused, with nothing changed, exactly when the root does not begin the place of its longest part that resolves followed by the rest; where nothing is, that alone decides; a link is refused exactly when the root does not begin the directory it sits in, and only the link goes; what resolves inside the root goes with everything below it; and after success nothing is found at the path any more |
| RemoveTree.StraysPastTheLimit | src/clawt-util.c:939-946 | Only a path with more links than the kernel follows can stray |
| RemoveTree.StrayInput | src/clawt-util.c:939-960 | Whatever the limit on links, there is a path that resolves to nothing, whose canonical form is inside the root, and whose removal takes a file outside it |
| RemoveTree.AimOfResolved | src/clawt-util.c:907-952 | Any other path is acted on where it leads |
| RemoveTree.AimOfChild | src/clawt-util.c:968-978 | A child of the listed directory is acted on where it is or not at all, whatever was removed before it |
| RemoveTree.ChildAim | src/clawt-util.c:968-978 | A child of a canonical directory names itself, so the recursion stays inside the root |
| RemoveTree.RemoveChild | src/clawt-util.c:968-978 | One turn of the loop removes at most that child and nothing outside the root |
| RemoveTree.EmptiedInside | src/clawt-util.c:980-989 | A directory outside the root that was not empty is never removed, whatever the path |
| RemoveTree.RemovedIsGone | src/clawt-util.c:980-989 | An emptied directory has nothing below it, so removing it leaves nothing there |
| RemoveTree.RemoveDirectory | src/clawt-util.c:963-989 | The children in any order, through the path, and then the directory itself; nothing outside the root goes unless the directory lies there and is empty |
| RemoveTree.RemoveNode | src/clawt-util.c:924-961 | Unlinking removes one node that has nothing below it |
| RemoveTree.RemoveEmptied | src/clawt-util.c:980-989 | The directory goes only when it is empty and the path still leads to it |
| RemoveTree.GoneMeansNotFound | src/clawt-util.c:882-990 | Whatever the path was, after success nothing is found there, neither by walking it nor as a link |
| CopyTree.CopyTree | src/clawt-util.c:816-878 | For any listing order and any links: nothing disappears, and nothing turns into a directory or stops being one. With source and target kept apart, a success has overlaid the target with the source minus `.git` unless kept, links as links, if and only if no directory to be copied meets a link there; when none does, the count is the entries that are no directories, and any outcome leaves the source, everything away from the target, and whatever the target holds that is not taken, as they were. When no call fails for reasons of its own, such a copy succeeds if the target can be made by making directories alone and what is taken holds only files, links and directories, none where there is the other kind. Path by path: what is in the source, with no `.git` on its way unless kept, arrives as it is, and everything else in the target stays |
| CopyTree.CopyAll | src/clawt-util.c:834-878 | The loop, for every listing order |
| CopyTree.CopyNext | src/clawt-util.c:834-875 | One turn of the loop takes over one child, or skips it and changes nothing |
| CopyTree.CopyEntry | src/clawt-util.c:849-875 | A child directory is overlaid; anything else goes to the entry its path leads to, and nothing beside it changes |
| CopyTree.CopyNode | src/clawt-util.c:857-872 | One node is copied between the entries the two paths name, links not followed, over anything but a directory |
| CopyTree.EnsureDir | src/clawt-util.c:94-124 | On success the path leads to a directory, through links too; only directories where some part of the path leads are made, and nothing else changes. When no call fails for reasons of its own, a path succeeds whose first part leads to a directory and whose other names are not there yet |
| CopyTree.MakeParents | src/clawt-util.c:103 | Directory by directory along the path: only missing ones are made, an existing one may be reached through links, and where the first part leads to a directory and the other names are missing, all of them are made unless a call fails |
| CopyTree.CalmStays | src/clawt-util.c:834-875 | While a copy goes on, both paths keep leading where they led |
| CopyTree.ChildSeparate | src/clawt-util.c:849-855 | A child directory and the place it goes to are again kept apart, so the recursion meets its own terms |
| CopyTree.NamesAreDirect | src/clawt-util.c:826-827 | A target whose first part leads to a directory and whose other names are not there yet leads where it says |
| Overlay.LinkedIsNeverOverlaid | src/clawt-util.c:849-855 | Where a directory to be copied meets a link, no outcome is the overlay |
| CopyTree.CopyEscapes | src/clawt-util.c:826-855 | A source and a target kept apart, with a link in the target where the source has a directory: no outcome is the overlay |
| CopyTree.WhereItEscapesTo | src/clawt-util.c:826-872 | There, copying the directory overlays what the link leads to, outside the target |
| Overlay.CopyingStep | src/clawt-util.c:834-875 | Overlaying one child advances the overlay of the whole |
| Overlay.LeavesChild | src/clawt-util.c:873-874 | The entries counted for a child are counted once in the whole |
| Overlay.AllTaken | src/clawt-util.c:834-875 | The children together are everything the copy takes |
| Processes.ProcessDescendants | src/clawt-util.c:1119-1181 | The recursion over a shared array and the reversal compute the descendants list |
| Processes.Walker.CollectChildren | src/clawt-util.c:1119-1153 | The recursion appends the walk below a process and touches nothing already there |
| Processes.ProcessIsDescendantOf | src/clawt-util.c:1086-1112 | The upward loop answers whether the root is at most 64 steps up |
| Processes.DescendantsAreLevels | src/clawt-util.c:1119-1181 | Exactly the processes 1 to 33 levels below a root over 1, and none below any other, whatever the parent map |
| Processes.DescendantsInKillOrder | src/clawt-util.c:1156-1181 | For a root on no cycle: nothing twice, never the root, every process before all its ancestors |
| Processes.WalksAgree | src/clawt-util.c:1086-1181 | For chains of at most 33 levels, being listed and the upward walk are the same |
| Processes.OnlyTheUpwardWalk | src/clawt-util.c:1086-1181 | From 34 to 64 levels only the upward walk sees the process |
| Processes.WalksDisagree | src/clawt-util.c:1086-1181 | The two answers differ if and only if the root is 34 to 64 steps up |
| ShellScan.CommandShellSyntaxRefusal | src/clawt-util.c:1213-1303 | The loop with its quoting state computes the scan |
| ShellScan.ScanIsFirstConstruct | src/clawt-util.c:1213-1303 | For every way to read a command as quoted and unquoted pieces (section 2.2 of the POSIX Shell Command Language), the scan finds the first active construct, and none if there is none |
| ShellScan.RefusedIffActive | src/clawt-util.c:1213-1303 | Every command can be read so, and every reading gives the scan's verdict |
| ShellScan.AcceptedIffQuiet | src/clawt-util.c:1213-1303 | However a command is read, it is accepted if and only if no unquoted character is one of `;`, a pipe, `&`, `<`, `>`, a newline or a backquote, no backquote stands inside double quotes, and no dollar sign, bare or inside double quotes, stands before `(`, `{`, `_` or a letter |
| ShellScan.FirstBare | src/clawt-util.c:1256-1288 | The first active character of a command, when it is not quoted, decides the refusal: each of the seven characters as what it is, and a dollar sign by the character after it |
| ShellScan.FirstInDouble | src/clawt-util.c:1234-1250 | The same inside double quotes, where only the backquote and the dollar sign are active |
| ShellScan.FirstInOpenDouble | src/clawt-util.c:1234-1250 | And inside double quotes the command never closes |
| ShellScan.SingleTextKeepsVerdict | src/clawt-util.c:1213-1303 | Other quote-free text between single quotes never changes the verdict |
| ShellScan.SingleQuotedIsAccepted | src/clawt-util.c:1213-1303 | The usual single-quote encoding of any string is accepted and hides nothing of what follows |
| Utf8.Utf8Truncate | src/clawt-util.c:593-636 | For well-formed text and any budget: a well-formed prefix or suffix within the budget, the longest there is, losing fewer than 4 bytes of a positive budget |
| Utf8.FindNextChar | src/clawt-util.c:619-622 | The next byte that begins a character |
| Utf8.CutsAreBoundaries | src/clawt-util.c:593-636 | A cut leaves well-formed text exactly at a byte that continues no character (section 3 of RFC 3629) |
| Utf8.BoundaryNearby | src/clawt-util.c:593-636 | A boundary is never more than three bytes away on either side |
| Scalars.WellFormedMeans | src/clawt-util.c:593-636 | Well-formed text is exactly the encodings of sequences of scalar values, U+0000 to U+10FFFF without the surrogates, in one to four octets each (section 3 of RFC 3629) |
| SecureEquals.SecureEqual | src/clawt-util.c:501-547 | The accumulator loop answers true exactly when the folded lengths and all indexed bytes match, and never for a missing string |
| SecureEquals.TrustedExactlyWhenTold | src/clawt-util.c:501-547 | For two lengths, the answer is equality on all strings of those lengths if and only if the lengths are told apart |
| SecureEquals.ShortStringsAreSafe | src/clawt-util.c:501-547 | For all NUL-free strings shorter than 2^24 bytes the answer is equality |
| SecureEquals.FoldIsLowBits | src/clawt-util.c:531-532 | The folded length difference is zero exactly when the lengths agree in 24 bits |
| SecureEquals.LongStringsCanCollide | src/clawt-util.c:501-547 | Two different strings, 2^24 bytes apart in length, that compare as equal |
| Ids.GenerateId | src/clawt-util.c:193-217 | For any clock: prefix, ten digits of the milliseconds, ten random digits; and for any time after the epoch that fits 50 bits of milliseconds, the ten digits read as a number are the millisecond the time falls in |
| Ids.IdsSortByTime | src/clawt-util.c:193-217 | Under one prefix an earlier millisecond sorts first whatever the random parts, while the digits hold the time |
| Ids.IdsSortByClock | src/clawt-util.c:193-217 | An identifier made a millisecond or more after another under the same prefix sorts after it, by the clock and not by its digits |
| Ids.TimestampComesBack | src/clawt-util.c:193-217 | Decoding the digits gives the milliseconds back |
| Ids.StampOrder | src/clawt-util.c:202-207 | Digit strings order and tell apart the numbers they stand for, modulo 32 to the number of digits |
| Ids.TenDigits | src/clawt-util.c:202-207 | Ten digits hold 50 bits |
| Phrase.Fts5Phrase | src/clawt-util.c:549-591 | A query is accepted exactly when it holds a letter or digit, and is then quoted |
| Phrase.PhraseRoundTrip | src/clawt-util.c:549-591 | A lexer of double-quoted literals consumes the output as one literal whose value is the query, and leaves what follows alone |
| AtomicWrite.WriteFileAtomic | src/clawt-util.c:126-191 | At every moment of a call, for every pattern of failures, the path holds the old or the new contents whole, or nothing while the old ones are whole at the backup; success means new contents, no temporary file, and the old contents at the backup when one was asked for and a file existed. In terms of the three names: on success the contents are at the path, nothing is at the temporary name, and the backup is the old file, or as it was when none was to be kept. When no call fails for reasons of its own, the call succeeds if and only if the directory is there, no directory has the temporary name, and nothing is in the way of the renames; a failure then leaves the path and the backup as they were |
| AtomicWrite.SwapIn | src/clawt-util.c:166-190 | Backing up and renaming keep every moment safe, and when no call fails for reasons of its own both happen exactly when nothing is in their way |
| AtomicWrite.Recover | src/clawt-util.c:173-187 | The failure path puts the original back or leaves it whole at the backup; it does put it back, and drops the temporary file, when no call fails for reasons of its own |
| AtomicWrite.WriteTemporary | src/clawt-util.c:145-150 | A partly written file is only ever at the temporary name with a dot and a suffix of the library's own; the temporary name itself is complete at once or untouched; unless a call fails it is written whenever the directory is there and no directory has its name |
| HistoryMerge.DrawHistory | clients/gtk/gtk-chat.c:4125-4160 | The loop with its two indices draws the merge and marks the messages' ids as shown |
| HistoryMerge.StretchEnd | clients/gtk/gtk-chat.c:4140-4143 | The inner loop stops at the first step that does not precede the message |
| HistoryMerge.BoxHolds | clients/gtk/gtk-chat.c:233-245 | What is appended for a stretch shows exactly its steps, in order, and no message |
| HistoryMerge.MergeIsInterleaving | clients/gtk/gtk-chat.c:4125-4160 | Whatever the times, every message and every step appears exactly once and in its own order |
| HistoryMerge.MergeIsInOrder | clients/gtk/gtk-chat.c:4125-4160 | With both inputs in time order the result is too, each step before the first message it precedes |
| HistoryMerge.RunSplits | src/chat/clawt-turn-step.c:256-272 | On sorted steps, those that precede a message are exactly a front part |
| HistoryMerge.PrecedesMeans | src/chat/clawt-turn-step.c:256-272 | A step with a time precedes a message exactly when it is earlier than the end of the second the message has |
| HistoryLoads.Window.LoadHistory | clients/gtk/gtk-chat.c:4015-4160 | The generation counter gives every nested run the view its marks say, modulo 2^32. In terms of the load alone, when no newer one begins inside it: the room of its reply, exactly the messages of the reply and, when a room is named, the steps, each once and in order, and exactly the ids those messages have; nothing at all when the reply is missing |
| HistoryLoads.Window.TakeView | clients/gtk/gtk-chat.c:4083-4160 | What the newest load makes of the view, whatever runs inside its second wait |
| HistoryLoads.DrawnByMeans | clients/gtk/gtk-chat.c:4100-4160 | What one load draws: the messages it was answered and the steps it asked for, once and in order, and the ids those messages have |
| HistoryLoads.OnScreen | clients/gtk/gtk-chat.c:4015-4160 | After any run the messages, the steps and the ids on screen are those of the loads that drew since the view was last taken or cleared, one load after another |
| HistoryLoads.RunsInTurn | clients/gtk/gtk-chat.c:4015-4160 | Events run one after another and none is skipped |
| HistoryLoads.OneEventRuns | clients/gtk/gtk-chat.c:4015-4160 | A clear clears, a load begins at once, what runs inside its waits does run, and a load that no newer one overtook takes the view and draws last |
| HistoryLoads.StaleNeverTakes | clients/gtk/gtk-chat.c:4058-4086 | In every well-nested run, a load that resumes after a newer one began never takes the view |
| HistoryLoads.NewestOwns | clients/gtk/gtk-chat.c:4058-4105 | The load that took the view last is the one that began last |
| HistoryLoads.FinalRoom | clients/gtk/gtk-chat.c:4015-4105 | When all have returned the room is the newest load's reply room, unset if it failed, or unset if the view was cleared after it was taken |
| HistoryLoads.FinalView | clients/gtk/gtk-chat.c:4015-4160 | The whole view after any run: the room as above, and one under another what was drawn since the view was last taken or cleared, the newest load's drawing first; it is the newest load's own view if and only if nothing else is in it, that is, every older load that drew after it drew nothing |
| HistoryLoads.QuietFinalView | clients/gtk/gtk-chat.c:4015-4160 | So with no load inside a second wait the whole view is the newest load's own: the room, the messages, the steps and the ids of its reply, or nothing when it failed |
| HistoryLoads.NewestDrawsFirst | clients/gtk/gtk-chat.c:4083-4160 | After the view was last taken, the newest load draws before any older one |
| HistoryLoads.ClearInsideWaitIsLost | clients/gtk/gtk-chat.c:4035-4041 | A clear inside the newest load's wait is undone when it returns |
| HistoryLoads.LateLoadMixesTranscripts | clients/gtk/gtk-chat.c:4126-4160 | A load inside a second wait leaves its messages above the outer load's |

## Left out

- SHA-256, the serialised form of the member list and its type check: functions of `Codec`.
- File descriptors, `/proc/self/fd`, `flock`, modes, synchronising and metadata: a call names the node it acts on, and setting a mode is a step that may fail.
- Other processes changing the tree during a call: the model is sequential.
- Endless interruptions: only finitely many reads and writes are cut short by a signal.
- Expansion of `~` and environment variables in paths (src/clawt-util.c:21-92).
- The error texts: faults are told apart by cause even where the texts coincide.
- RemoveTree.RemoveTree: the path is absolute, with no empty component and no trailing separator, and the root is a list of names as its callers pass it.
- CopyTree.CopyTree: says only that nothing disappears or changes kind when source and target overlap, when a link one of the two paths goes through is itself copied over, or when the target has a `..` after a name that is missing. A listing is read whole before it is worked through, and no path of more than a given number of components can be named, as no path longer than PATH_MAX can.
- CopyTree.EnsureDir: success is promised where the missing part of the path is plain names; with a `..` after a missing name it may succeed too.
- AtomicWrite.WriteFileAtomic: the three names are distinct names in one directory; whether a link at the path leads anywhere is left open.
- Processes.ProcessDescendants: one consistent reading of `/proc` stands for the readings the walk makes, and names that are not numbers are dropped from it.
- HistoryLoads.Window.LoadHistory: a run begins fewer than 2^32 loads; unread counts, following the end and the live block are not modelled.
- Widgets, menus, previews, the grouping of steps into runs, and every client other than this one function.
- Redaction of secrets, tokens, environments, timers, colours, time labels, id validity and clipping: regular expressions, tables or single loops that would add only easy members.
