// Creating an archive, restoring it, and the two together
// (src/clawt-backup.c: restore_file, clawt_backup_create, clawt_backup_restore).

module Backup {
  import opened Options
  import opened Strings
  import opened Files
  import opened BackupPolicy
  import opened BackupArchive
  import opened BackupReplay
  import C = BackupCollect

  // ---------------------------------------------------------------------
  // Writing one file.

  // The write loop: all of data, or a failure that leaves a front part of it.
  method WriteAll(disk: Disk, p: Path, data: string) returns (ok: bool)
    requires p in disk.tree && disk.tree[p] == File("")
    modifies disk
    ensures IsFile(disk.tree, p)
    ensures disk.tree == old(disk.tree)[p := disk.tree[p]]
    ensures ok ==> disk.tree[p] == File(data)
    ensures disk.interrupts <= old(disk.interrupts) && (disk.sound ==> ok)
  {
    ghost var t := disk.tree;
    var offset := 0;
    while offset < |data|
      invariant offset <= |data| && disk.interrupts <= old(disk.interrupts)
      invariant disk.tree == t[p := File(data[..offset])]
      decreases |data| - offset, disk.interrupts
    {
      var r := disk.Write(p, data[offset..]);
      if r.Interrupted? {
        continue;
      }
      if !r.Moved? || r.count == 0 {
        break;
      }
      assert data[..offset] + data[offset..][..r.count] == data[..offset + r.count];
      offset := offset + r.count;
    }
    assert data[..|data|] == data;
    var fails := disk.Fails();
    return offset == |data| && !fails;
  }

  // What restore_file leaves behind under root, whatever happens.
  ghost predicate Kind(t: Tree, u: Tree, root: Path) {
    Valid(u) && IsDir(u, root) && SameOutside(t, u, root)
  }

  lemma Joined(root: Path, at: Path, name: string)
    ensures root + (at + [name]) == (root + at) + [name]
    ensures Parent(root + (at + [name])) == root + at
  {
    assert root + (at + [name]) == (root + at) + [name];
  }

  // mkdirat or EEXIST, then openat O_DIRECTORY, for the name in root + at.
  method EnterDirectory(disk: Disk, root: Path, at: Path, name: string) returns (fault: Option<Fault>)
    requires Valid(disk.tree) && IsDir(disk.tree, root) && IsDir(disk.tree, root + at) && IsName(name)
    modifies disk
    ensures Kind(old(disk.tree), disk.tree, root)
    ensures fault in {None, Some(Io), Some(Clash)}
    ensures disk.interrupts <= old(disk.interrupts) && (disk.sound ==> fault != Some(Io))
    ensures fault.None? ==> IsDir(disk.tree, root + (at + [name]))
    ensures fault.None? ==>
      var d, e := Below(old(disk.tree), root), Below(disk.tree, root);
      e == (if at + [name] in d then d else d[at + [name] := Dir])
    ensures fault == Some(Clash) ==>
      var d := Below(old(disk.tree), root);
      at + [name] in d && !d[at + [name]].Dir?
  {
    var q := at + [name];
    Joined(root, at, name);
    ghost var before := disk.tree;
    var made := disk.Mkdir(root + q);
    if made == Failed {
      return Some(Io);
    }
    if made == Done {
      AddKeepsValid(before, root + at, name, Dir);
      BelowUpdate(before, root, q, Dir);
    }
    var e := disk.OpenDir(root + q);
    if e == NotDir {
      return Some(Clash);
    }
    return if e == Done then None else Some(Io);
  }

  // openat O_CREAT | O_EXCL and the write loop, for the name in root + at.
  method CreateFile(disk: Disk, root: Path, at: Path, name: string, data: string) returns (fault: Option<Fault>)
    requires Valid(disk.tree) && IsDir(disk.tree, root) && IsDir(disk.tree, root + at) && IsName(name)
    modifies disk
    ensures Kind(old(disk.tree), disk.tree, root)
    ensures fault in {None, Some(Io), Some(Clash)}
    ensures disk.interrupts <= old(disk.interrupts) && (disk.sound ==> fault != Some(Io))
    ensures fault.None? ==>
      var d := Below(old(disk.tree), root);
      at + [name] !in d && Below(disk.tree, root) == d[at + [name] := File(data)]
    ensures fault == Some(Clash) ==> at + [name] in Below(old(disk.tree), root)
  {
    var q := at + [name];
    Joined(root, at, name);
    ghost var before := disk.tree;
    var e := disk.CreateExclusive(root + q);
    if e == Exists {
      return Some(Clash);
    }
    if e != Done {
      return Some(Io);
    }
    AddKeepsValid(before, root + at, name, File(""));
    ghost var created := disk.tree;
    var ok := WriteAll(disk, root + q, data);
    RewriteKeepsValid(created, root + q, disk.tree[root + q]);
    assert disk.tree == before[root + q := disk.tree[root + q]];
    BelowUpdate(before, root, q, disk.tree[root + q]);
    return if ok then None else Some(Io);
  }

  lemma KindTransitive(t: Tree, u: Tree, v: Tree, root: Path)
    requires Kind(t, u, root) && Kind(u, v, root)
    ensures Kind(t, v, root)
  {
  }

  lemma PlaceEnter(d: Tree, parts: Path, data: string, i: nat)
    requires i + 1 < |parts|
    ensures var q := parts[..i] + [parts[i]];
      Place(d, parts, data, i) ==
        if q in d && !d[q].Dir? then None
        else Place(if q in d then d else d[q := Dir], parts, data, i + 1)
    ensures parts[..i + 1] == parts[..i] + [parts[i]]
  {
    assert parts[..i + 1] == parts[..i] + [parts[i]];
  }

  lemma PlaceLast(d: Tree, parts: Path, data: string, i: nat)
    requires i + 1 == |parts|
    ensures var q := parts[..i] + [parts[i]];
      Place(d, parts, data, i) == if q in d then None else Some(d[q := File(data)])
  {
    assert parts[..i + 1] == parts[..i] + [parts[i]];
  }

  // restore_file
  method RestoreFile(disk: Disk, root: Path, path: string, data: string) returns (fault: Option<Fault>)
    requires Valid(disk.tree) && IsDir(disk.tree, root) && SafePath(path)
    modifies disk
    ensures Kind(old(disk.tree), disk.tree, root)
    ensures fault in {None, Some(Io), Some(Clash), Some(PastEnd)}
    ensures disk.interrupts <= old(disk.interrupts) && (disk.sound ==> fault != Some(Io))
    ensures fault == Some(PastEnd) <==> path == ""
    ensures path != "" && fault.None? ==>
      Place(Below(old(disk.tree), root), Split(path, '/'), data, 0) == Some(Below(disk.tree, root))
    ensures path != "" && fault == Some(Clash) ==>
      Place(Below(old(disk.tree), root), Split(path, '/'), data, 0).None?
  {
    var parts := Split(path, '/');
    if parts == [] {
      return Some(PastEnd);
    }
    SafePathParts(path);
    ghost var t := disk.tree;
    ghost var goal := Place(Below(disk.tree, root), parts, data, 0);
    assert root + parts[..0] == root;
    var i := 0;
    while i + 1 < |parts|
      invariant i < |parts| && disk.interrupts <= old(disk.interrupts)
      invariant Kind(t, disk.tree, root)
      invariant IsDir(disk.tree, root + parts[..i])
      invariant Place(Below(disk.tree, root), parts, data, i) == goal
    {
      ghost var u := disk.tree;
      PlaceEnter(Below(u, root), parts, data, i);
      fault := EnterDirectory(disk, root, parts[..i], parts[i]);
      KindTransitive(t, u, disk.tree, root);
      if fault.Some? {
        return;
      }
      i := i + 1;
    }
    ghost var u := disk.tree;
    PlaceLast(Below(u, root), parts, data, i);
    fault := CreateFile(disk, root, parts[..i], parts[i], data);
    KindTransitive(t, u, disk.tree, root);
  }

  // ---------------------------------------------------------------------
  // clawt_backup_restore.

  datatype Restored = Restored(manifest: string) | NotRestored(fault: Fault)

  // How many members come before the first one with an empty path.
  function Leading(ms: seq<Member>): (n: nat)
    ensures n <= |ms|
    ensures forall i :: 0 <= i < n ==> ms[i].path != ""
    ensures n < |ms| ==> ms[n].path == ""
  {
    if ms == [] || ms[0].path == "" then 0 else 1 + Leading(ms[1..])
  }

  lemma LeadingIsAll(ms: seq<Member>)
    ensures Replayable(ms) <==> Leading(ms) == |ms|
  {
  }

  // The members before the first empty path replay, whenever verification passed.
  lemma AcceptedReplays(c: Codec, ms: seq<Member>)
    requires GoodMembers(c, ms) && ParentFree(ms)
    ensures var lead := ms[..Leading(ms)];
      Replayable(lead) && Replay(EMPTY, lead).Some? && Laid(Replay(EMPTY, lead).value, lead)
  {
    var lead := ms[..Leading(ms)];
    forall i | 0 <= i < |lead| ensures SafePath(lead[i].path) && lead[i].path != "" {
      assert lead[i] == ms[i] && GoodMember(c, ms[i]);
    }
    assert forall m :: m in lead ==> m in ms;
    assert DistinctPaths(lead) && ParentFree(lead);
    CollisionCheckIsExact(lead);
  }

  // Replaying the members under root, stopping at the first failure.
  method ReplayMembers(disk: Disk, c: Codec, root: Path, ms: seq<Member>) returns (fault: Option<Fault>)
    requires GoodMembers(c, ms) && ParentFree(ms)
    requires Valid(disk.tree) && IsDir(disk.tree, root) && Below(disk.tree, root) == EMPTY
    modifies disk
    ensures Kind(old(disk.tree), disk.tree, root)
    ensures fault in {None, Some(Io), Some(PastEnd)}
    ensures disk.interrupts <= old(disk.interrupts) && (disk.sound ==> fault != Some(Io))
    ensures fault.None? ==> Replayable(ms) && Replay(EMPTY, ms) == Some(Below(disk.tree, root))
    ensures fault == Some(PastEnd) ==> !Replayable(ms)
  {
    AcceptedReplays(c, ms);
    LeadingIsAll(ms);
    ghost var n := Leading(ms);
    ghost var lead := ms[..n];
    ghost var t := disk.tree;
    for i := 0 to |ms|
      invariant i <= n && disk.interrupts <= old(disk.interrupts)
      invariant Kind(t, disk.tree, root)
      invariant Replayable(lead[i..]) && Replay(Below(disk.tree, root), lead[i..]) == Replay(EMPTY, lead)
    {
      ghost var u := disk.tree;
      assert GoodMember(c, ms[i]);
      fault := RestoreFile(disk, root, ms[i].path, ms[i].data);
      KindTransitive(t, u, disk.tree, root);
      if i < n {
        ReplayHead(lead, i);
        assert lead[i] == ms[i];
      }
      if fault.Some? {
        return;
      }
    }
    assert lead == ms;
    return None;
  }

  lemma ReplayHead(ms: seq<Member>, i: nat)
    requires i < |ms| && Replayable(ms)
    ensures Replayable(ms[i..]) && ms[i..][0] == ms[i] && ms[i..][1..] == ms[i + 1..] && ms[i].path != ""
    ensures Replayable(ms[i + 1..])
  {
    assert ms[i] in ms;
    assert forall m :: m in ms[i..] ==> m in ms;
    assert forall m :: m in ms[i + 1..] ==> m in ms;
  }

  // The bytes of the archive, when the path names a readable regular file.
  ghost predicate Readable(t: Tree, archive: Path) {
    IsFile(t, archive) && |t[archive].data| <= ARCHIVE_LIMIT + HEADER
  }

  lemma FreshDirectory(t: Tree, dest: Path)
    requires Valid(t) && AreNames(dest) && dest != [] && dest !in t && IsDir(t, Parent(dest))
    ensures Kind(t, t[dest := Dir], dest) && Below(t[dest := Dir], dest) == EMPTY
  {
    assert dest == Parent(dest) + [Last(dest)];
    AddKeepsValid(t, Parent(dest), Last(dest), Dir);
    var u := t[dest := Dir];
    assert dest + [] == dest;
    forall q ensures q in Below(u, dest) <==> q == [] {
      if q != [] && dest + q in t {
        AncestorIsDir(t, dest, q);
      }
    }
    assert Below(u, dest)[[]] == Dir;
  }

  // What restore needs: an archive it accepts and, to write, a new place in a
  // directory that is there, and no member without a path.
  ghost predicate Restorable(t: Tree, c: Codec, archive: Path, destination: Option<Path>) {
    && Readable(t, archive)
    && var v := Judge(c, t[archive].data);
       && v.Accepted?
       && (destination.Some? ==>
             && destination.value !in t && destination.value != [] && IsDir(t, Parent(destination.value))
             && Replayable(v.ms))
  }

  lemma AcceptedManifest(c: Codec, raw: string)
    requires Judge(c, raw).Accepted?
    ensures var v := Judge(c, raw);
      Pieces(v.manifest, '\n') == seq(|v.ms|, i requires 0 <= i < |v.ms| => v.ms[i].path) + [""]
  {
    ManifestLines(c, Judge(c, raw).ms);
  }

  // A verdict is reached on the bytes alone, before anything is written; only
  // an accepted archive and a new destination lead to writes, and only there.
  method Restore(disk: Disk, c: Codec, archive: Path, destination: Option<Path>) returns (r: Restored)
    requires Valid(disk.tree) && (destination.Some? ==> AreNames(destination.value))
    modifies disk
    ensures Valid(disk.tree)
    ensures destination.None? ==> disk.tree == old(disk.tree)
    ensures destination.Some? ==> SameOutside(old(disk.tree), disk.tree, destination.value)
    // Verification: an accepted archive, and the manifest it promises.
    ensures r.Restored? ==>
      Readable(old(disk.tree), archive) &&
      var v := Judge(c, old(disk.tree)[archive].data);
      v.Accepted? && r.manifest == v.manifest
    // What that says of the bytes.
    ensures r.Restored? ==>
      IsFile(old(disk.tree), archive) &&
      var raw := old(disk.tree)[archive].data;
      && |raw| >= HEADER && raw == MAGIC + c.sha(raw[HEADER..]) + "\n" + raw[HEADER..]
      && c.dec(raw[HEADER..]).Some?
      && var ms := c.dec(raw[HEADER..]).value;
         && |ms| <= 100000 && DistinctPaths(ms) && ParentFree(ms)
         && (forall m :: m in ms ==> SafePath(m.path) && c.sha(m.data) == m.sum && |m.data| <= 64 * 1024 * 1024)
         && Pieces(r.manifest, '\n') == seq(|ms|, i requires 0 <= i < |ms| => ms[i].path) + [""]
         && (destination.Some? ==> Laid(Below(disk.tree, destination.value), ms))
    // Refusals touch nothing.
    ensures r.NotRestored? && r.fault !in {Io, PastEnd} ==> disk.tree == old(disk.tree)
    // The restored directory holds exactly the members.
    ensures r.Restored? && destination.Some? ==>
      destination.value !in old(disk.tree) &&
      var ms := Judge(c, old(disk.tree)[archive].data).ms;
      Replayable(ms) && Laid(Below(disk.tree, destination.value), ms)
    // No member ever meets a name that is taken; an archive without empty paths
    // fails only for input or output, or for its destination.
    ensures r != NotRestored(Clash)
    ensures Readable(old(disk.tree), archive) ==>
      var v := Judge(c, old(disk.tree)[archive].data);
      (r.NotRestored? ==> v == Rejected(r.fault) || r.fault in {Io, DestinationTaken, PastEnd}) &&
      (v.Rejected? ==> r in {NotRestored(v.fault), NotRestored(Io)}) &&
      (v.Accepted? && Replayable(v.ms) ==> r != NotRestored(PastEnd)) &&
      (r == NotRestored(DestinationTaken) ==> destination.Some? && destination.value in old(disk.tree))
    // And when no call fails for reasons of its own, all that is needed is enough.
    ensures old(disk.Smooth()) ==> (r.Restored? <==> Restorable(old(disk.tree), c, archive, destination))
  {
    var bytes := C.ReadFile(disk, archive, ARCHIVE_LIMIT + HEADER);
    if !bytes.Bytes? {
      return NotRestored(Io);
    }
    var v := Verify(c, bytes.data);
    if v.Rejected? {
      return NotRestored(v.fault);
    }
    AcceptedMeans(c, bytes.data, v.ms, v.manifest);
    AcceptedManifest(c, bytes.data);
    if destination.None? {
      return Restored(v.manifest);
    }
    var dest := destination.value;
    ghost var t := disk.tree;
    var made := disk.Mkdir(dest);
    if made != Done {
      return NotRestored(if made == Exists then DestinationTaken else Io);
    }
    FreshDirectory(t, dest);
    ghost var u := disk.tree;
    var fails := disk.Fails();
    if fails {
      return NotRestored(Io);
    }
    var fault := ReplayMembers(disk, c, dest, v.ms);
    KindTransitive(t, u, disk.tree, dest);
    if fault.Some? {
      return NotRestored(fault.value);
    }
    AcceptedReplays(c, v.ms);
    LeadingIsAll(v.ms);
    assert v.ms[..|v.ms|] == v.ms;
    return Restored(v.manifest);
  }

  // ---------------------------------------------------------------------
  // clawt_backup_create.

  datatype Created = Created | NotCreated(why: C.Refusal) | Locked

  const LOCK: string := "daemon.lock"

  // The tree once the lock file is there.
  function WithLock(t: Tree, state: Path): Tree {
    var lock := state + [LOCK];
    if lock in t then t else t[lock := File("")]
  }

  // A new name in a directory that is there.
  predicate Writable(t: Tree, p: Path) {
    p != [] && p !in t && IsDir(t, Parent(p))
  }

  predicate Lockable(t: Tree, state: Path) {
    IsDir(t, state) && (state + [LOCK] in t ==> t[state + [LOCK]].File?)
  }

  // The archive file, written to the end or taken away again.
  method WriteArchive(disk: Disk, archive: Path, data: string) returns (ok: bool)
    requires Valid(disk.tree) && AreNames(archive)
    modifies disk
    ensures ok ==> archive !in old(disk.tree) && disk.tree == old(disk.tree)[archive := File(data)]
    ensures OnlyAt(old(disk.tree), disk.tree, archive)
    ensures archive in old(disk.tree) ==> disk.tree == old(disk.tree)
    ensures Valid(disk.tree) && disk.interrupts <= old(disk.interrupts)
    ensures ok ==> Writable(old(disk.tree), archive)
    ensures disk.sound && Writable(old(disk.tree), archive) ==> ok
  {
    if archive == [] || !IsDir(disk.tree, Parent(archive)) {
      return false;
    }
    assert archive == Parent(archive) + [Last(archive)];
    var e := disk.CreateExclusive(archive);
    if e != Done {
      return false;
    }
    AddKeepsValid(old(disk.tree), Parent(archive), Last(archive), File(""));
    ghost var created := disk.tree;
    ok := WriteAll(disk, archive, data);
    RewriteKeepsValid(created, archive, disk.tree[archive]);
    ghost var written := disk.tree;
    if !ok {
      var gone := disk.Unlink(archive);
      if gone == Done {
        RemoveKeepsValid(written, archive);
      }
    }
  }

  // Taking the lock: the file is created when it is missing and must be regular.
  method TakeLock(disk: Disk, state: Path) returns (ok: bool)
    requires Valid(disk.tree) && IsDir(disk.tree, state)
    modifies disk
    ensures disk.tree in {old(disk.tree), WithLock(old(disk.tree), state)}
    ensures ok ==> disk.tree == WithLock(old(disk.tree), state) && Lockable(old(disk.tree), state)
    ensures Valid(disk.tree) && disk.interrupts <= old(disk.interrupts)
    ensures disk.sound && Lockable(old(disk.tree), state) ==> ok
  {
    var lock := state + [LOCK];
    assert Parent(lock) == state;
    if lock !in disk.tree {
      var e := disk.CreateExclusive(lock);
      if e != Done {
        return false;
      }
      AddKeepsValid(old(disk.tree), state, LOCK, File(""));
    } else if !disk.tree[lock].File? {
      return false;
    }
    var held := disk.Fails();
    ok := !held;
  }

  // The state as a backup sees it, once it is locked.
  function StateOf(t: Tree, state: Path): Tree {
    Below(WithLock(t, state), state)
  }

  // A refusal for size: what is kept weighs too much, or one file does, or the list ms
  // of everything kept is too long once serialised.
  ghost predicate SizeBlamed(s: Tree, c: Codec, why: C.Refusal, ms: seq<Member>) {
    && (why == C.Oversize ==> C.Overweight(s, c.sha) || C.Overlong(s))
    && (why == C.TooLarge ==>
          C.Overweight(s, c.sha) || (C.Snapshot(s, c.sha, ms) && |c.enc(ms)| > ARCHIVE_LIMIT))
  }

  lemma BlamedForSize(s: Tree, c: Codec, why: C.Refusal, reached: seq<Member>, ms: seq<Member>)
    requires C.Partial(s, c.sha, [], Children(s, []), reached) && C.Heavy(why, [], reached)
    ensures SizeBlamed(s, c, why, ms)
  {
    C.HeavyMeans(s, c.sha, why, reached);
  }

  // What the refusals of a collection mean for the whole state s.
  ghost predicate Blamed(s: Tree, c: Codec, why: C.Refusal, ms: seq<Member>) {
    && C.Justified(s, [], why) && SizeBlamed(s, c, why, ms)
    && (why == C.TooManyEntries ==> |C.Seen(s, [], Children(s, []))| > ENTRY_LIMIT)
  }

  lemma NothingBlamed(s: Tree, c: Codec, ms: seq<Member>)
    ensures Blamed(s, c, C.IoError, ms)
    ensures C.Snapshot(s, c.sha, ms) && |c.enc(ms)| > ARCHIVE_LIMIT ==> Blamed(s, c, C.TooLarge, ms)
  {
    C.NothingSeenYet(s, []);
  }

  // The whole state, collected into a builder of its own.
  method CollectState(disk: Disk, c: Codec, state: Path) returns (r: C.Outcome, ms: seq<Member>)
    requires Valid(disk.tree) && IsDir(disk.tree, state)
    modifies disk`interrupts
    ensures disk.interrupts <= old(disk.interrupts)
    ensures var s := Below(disk.tree, state);
      && (r == C.Ok ==> C.Snapshot(s, c.sha, ms) && WithinLimits(ms) && C.Fit(s, c.sha))
      && (r.Refused? ==> forall any :: Blamed(s, c, r.why, any))
      && (r.Refused? && old(disk.Smooth()) ==> !C.Fit(s, c.sha))
  {
    hide C.Justified, C.Seen, C.Gathers, C.Partial, C.Heavy, C.Fit, SizeBlamed;
    var s := Below(disk.tree, state);
    BelowIsValid(disk.tree, state);
    assert state + [] == state;
    var builder := new C.Collector();
    ghost var added, reached;
    r, added, reached := builder.Collect(disk, state, s, c.sha, [], "", 0);
    ms := builder.members;
    assert [] + added == added;
    if r.Refused? {
      forall any ensures SizeBlamed(s, c, r.why, any) {
        BlamedForSize(s, c, r.why, reached, any);
      }
      if r.why != C.IoError {
        C.RefusedIsUnfit(s, c.sha, r.why, reached);
      }
    } else {
      C.SnapshotIsFit(s, c.sha, ms);
    }
  }

  // The limits on the members themselves.
  ghost predicate WithinLimits(ms: seq<Member>) {
    && |ms| <= ENTRY_LIMIT && C.Weight(ms) <= ARCHIVE_LIMIT
    && forall m :: m in ms ==> |m.data| <= FILE_LIMIT
  }

  // The limits a created archive is within.
  ghost predicate Bounded(c: Codec, ms: seq<Member>) {
    WithinLimits(ms) && |c.enc(ms)| <= ARCHIVE_LIMIT
  }

  // Success writes one new file, framing a snapshot of the state directory that
  // is within every limit restore applies; any outcome changes at most the lock
  // file and the archive.
  method Create(disk: Disk, c: Codec, state: Path, archive: Path) returns (r: Created, ghost ms: seq<Member>)
    requires Valid(disk.tree) && AreNames(archive)
    modifies disk
    ensures Valid(disk.tree)
    ensures r == Created ==>
      IsDir(old(disk.tree), state) && archive !in old(disk.tree) &&
      disk.tree == WithLock(old(disk.tree), state)[archive := File(Framed(c, ms))]
    ensures r == Created ==>
      C.Snapshot(StateOf(old(disk.tree), state), c.sha, ms) && Bounded(c, ms)
    ensures r == Created ==> C.Fit(StateOf(old(disk.tree), state), c.sha)
    // A refusal that blames the tree has something in it to blame.
    ensures r.NotCreated? && IsDir(old(disk.tree), state) ==> Blamed(StateOf(old(disk.tree), state), c, r.why, ms)
    ensures forall p :: p != archive && p != state + [LOCK] ==>
      (p in disk.tree <==> p in old(disk.tree)) && (p in disk.tree ==> disk.tree[p] == old(disk.tree)[p])
    ensures disk.interrupts <= old(disk.interrupts)
    // When no call fails for reasons of its own, a backup is made exactly when the
    // state can be locked, nothing in it is in the way, and the archive has a place.
    ensures old(disk.Smooth()) && Lockable(old(disk.tree), state) && C.Fit(StateOf(old(disk.tree), state), c.sha) ==>
      C.Snapshot(StateOf(old(disk.tree), state), c.sha, ms)
    ensures old(disk.Smooth()) ==>
      (r == Created <==>
        && Lockable(old(disk.tree), state) && C.Fit(StateOf(old(disk.tree), state), c.sha)
        && |c.enc(ms)| <= ARCHIVE_LIMIT && Writable(WithLock(old(disk.tree), state), archive))
  {
    hide C.Snapshot, C.Fit, Blamed, WithinLimits;
    ms := [];
    NothingBlamed(StateOf(disk.tree, state), c, ms);
    if !IsDir(disk.tree, state) {
      return NotCreated(C.IoError), ms;
    }
    ghost var t := disk.tree;
    var locked := TakeLock(disk, state);
    if !locked {
      return Locked, ms;
    }
    var got, collected := CollectState(disk, c, state);
    if got.Refused? {
      return NotCreated(got.why), ms;
    }
    ms := collected;
    NothingBlamed(StateOf(t, state), c, ms);
    var body := c.enc(collected);
    if |body| > ARCHIVE_LIMIT {
      return NotCreated(C.TooLarge), ms;
    }
    var ok := WriteArchive(disk, archive, Framed(c, collected));
    if !ok {
      return NotCreated(C.IoError), ms;
    }
    return Created, ms;
  }
}
