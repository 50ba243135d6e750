// Create, then restore: the promise of the backup as a whole.

module BackupRoundTrip {
  import opened Options
  import opened Strings
  import opened Files
  import opened BackupPolicy
  import opened BackupArchive
  import opened BackupReplay
  import C = BackupCollect
  import B = Backup

  // The regular files a backup of s keeps, by relative path.
  function KeptFiles(s: Tree): map<Path, string> {
    map q | q in s && s[q].File? && Kept(q) :: s[q].data
  }

  function AllFiles(d: Tree): map<Path, string> {
    map q | q in d && d[q].File? :: d[q].data
  }

  lemma SnapshotMember(s: Tree, sha: string -> string, ms: seq<Member>, i: nat)
    requires C.Snapshot(s, sha, ms) && i < |ms|
    ensures var q := Parts(ms[i]);
      q != [] && AreNames(q) && ms[i].path != "" && SafePath(ms[i].path) && ms[i].sum == sha(ms[i].data) &&
      q in KeptFiles(s) && KeptFiles(s)[q] == ms[i].data
  {
    var q := Parts(ms[i]);
    assert C.Records(s, sha, q, ms[i]);
    PathTextSplits(q);
  }

  lemma SnapshotHasAll(s: Tree, sha: string -> string, ms: seq<Member>, q: Path)
    requires Valid(s) && C.Snapshot(s, sha, ms) && q in KeptFiles(s)
    ensures Names(ms, q)
  {
    assert q != [];
    C.ScopeChild(s, [], q);
    assert C.InScope(s, [], Children(s, []), q);
    var m :| m in ms && m.path == PathText(q);
    PathTextSplits(q);
    var i :| 0 <= i < |ms| && ms[i] == m;
    assert q == Parts(ms[i]);
  }

  // The members' paths are the kept files' paths.
  lemma SnapshotNames(s: Tree, sha: string -> string, ms: seq<Member>, p: Path)
    requires Valid(s) && C.Snapshot(s, sha, ms)
    ensures Names(ms, p) <==> p in KeptFiles(s)
    ensures Leads(ms, p) <==> exists q :: q in KeptFiles(s) && p <= q
  {
    if p in KeptFiles(s) {
      SnapshotHasAll(s, sha, ms, p);
    }
    if Names(ms, p) {
      var i :| 0 <= i < |ms| && p == Parts(ms[i]);
      SnapshotMember(s, sha, ms, i);
    }
    if Leads(ms, p) {
      var i :| 0 <= i < |ms| && p <= Parts(ms[i]);
      SnapshotMember(s, sha, ms, i);
    }
    if exists q :: q in KeptFiles(s) && p <= q {
      var q :| q in KeptFiles(s) && p <= q;
      SnapshotHasAll(s, sha, ms, q);
      var i :| 0 <= i < |ms| && q == Parts(ms[i]);
      assert p <= Parts(ms[i]);
    }
  }

  // A file has nothing below it, so no member of a snapshot leads to another.
  lemma SnapshotIsAntichain(s: Tree, sha: string -> string, ms: seq<Member>)
    requires Valid(s) && C.Snapshot(s, sha, ms)
    ensures AllSafe(ms) && Replayable(ms) && DistinctPaths(ms) && ParentFree(ms)
  {
    forall i | 0 <= i < |ms| ensures SafePath(ms[i].path) && ms[i].path != "" {
      SnapshotMember(s, sha, ms, i);
    }
    forall i, j | 0 <= i < j < |ms| ensures Clear(ms[i], ms[j]) {
      SnapshotMember(s, sha, ms, i);
      SnapshotMember(s, sha, ms, j);
      PathIsParts(ms[i], ms[j]);
      FilesAreClear(s, Parts(ms[i]), Parts(ms[j]));
      FilesAreClear(s, Parts(ms[j]), Parts(ms[i]));
    }
    ChecksAreAntichain(ms);
  }

  lemma FilesAreClear(s: Tree, p: Path, q: Path)
    requires Valid(s) && IsFile(s, p) && q in s && p != q
    ensures !(p <= q)
  {
    if p < q {
      assert q == p + q[|p|..];
      AncestorIsDir(s, p, q[|p|..]);
    }
  }

  // Everything create writes, restore's verification accepts.
  lemma CreatedIsAccepted(c: Codec, s: Tree, ms: seq<Member>)
    requires Lossless(c) && Valid(s) && C.Snapshot(s, c.sha, ms) && B.Bounded(c, ms)
    ensures Judge(c, Framed(c, ms)) == Accepted(ms, Manifest(ms))
    ensures Replayable(ms) && |Framed(c, ms)| <= ARCHIVE_LIMIT + HEADER
  {
    SnapshotIsAntichain(s, c.sha, ms);
    forall i | 0 <= i < |ms| ensures GoodMember(c, ms[i]) {
      SnapshotMember(s, c.sha, ms, i);
      assert ms[i] in ms;
    }
    FramedParts(c, ms);
  }

  lemma FramedParts(c: Codec, ms: seq<Member>)
    requires Lossless(c)
    ensures var raw := Framed(c, ms);
      |raw| == HEADER + |c.enc(ms)| && raw[..|MAGIC|] == MAGIC && raw[HEADER - 1] == '\n' &&
      raw[|MAGIC|..HEADER - 1] == c.sha(c.enc(ms)) && raw[HEADER..] == c.enc(ms)
  {
    var sum := c.sha(c.enc(ms));
    assert |sum| == 64;
  }

  predicate LeadsToKept(s: Tree, p: Path) {
    exists q :: q in KeptFiles(s) && p < q
  }

  // d is the kept files of s, byte for byte, and of the directories exactly
  // those that lead to one.
  ghost predicate IsRestored(s: Tree, d: Tree) {
    && AllFiles(d) == KeptFiles(s)
    && (forall p :: p in d ==> d[p].File? || d[p].Dir?)
    && forall p :: IsDir(d, p) <==> p == [] || LeadsToKept(s, p)
  }

  lemma LaidDomain(s: Tree, sha: string -> string, ms: seq<Member>, d: Tree, p: Path)
    requires Valid(s) && C.Snapshot(s, sha, ms) && Laid(d, ms)
    ensures p in d <==> p == [] || p in KeptFiles(s) || LeadsToKept(s, p)
  {
    SnapshotNames(s, sha, ms, p);
    assert Leads(ms, p) <==> p in KeptFiles(s) || LeadsToKept(s, p) by {
      if Leads(ms, p) {
        var q :| q in KeptFiles(s) && p <= q;
        assert p == q || p < q;
      }
    }
  }

  lemma LaidNode(s: Tree, sha: string -> string, ms: seq<Member>, d: Tree, p: Path)
    requires Valid(s) && C.Snapshot(s, sha, ms) && Laid(d, ms)
    ensures p in KeptFiles(s) ==> p in d && d[p] == File(KeptFiles(s)[p])
    ensures p in d && p !in KeptFiles(s) ==> d[p] == Dir
  {
    SnapshotNames(s, sha, ms, p);
    if Names(ms, p) {
      var i :| 0 <= i < |ms| && p == Parts(ms[i]);
      SnapshotMember(s, sha, ms, i);
    }
  }

  lemma KeptIsLeaf(s: Tree, p: Path)
    requires Valid(s) && p in KeptFiles(s)
    ensures p != [] && !LeadsToKept(s, p)
  {
    forall q | q in KeptFiles(s) ensures !(p < q) {
      if p != q {
        FilesAreClear(s, p, q);
      }
    }
  }

  // Every node of d is a kept file or a plain directory, and no kept file is missing.
  ghost predicate FilesOrDirs(s: Tree, d: Tree) {
    && (forall p :: p in KeptFiles(s) ==> p in d && d[p] == File(KeptFiles(s)[p]))
    && forall p :: p in d && p !in KeptFiles(s) ==> d[p] == Dir
  }

  lemma SameFiles(s: Tree, d: Tree)
    requires FilesOrDirs(s, d)
    ensures AllFiles(d) == KeptFiles(s)
  {
  }

  lemma LaidIsRestored(s: Tree, sha: string -> string, ms: seq<Member>, d: Tree)
    requires Valid(s) && C.Snapshot(s, sha, ms) && Laid(d, ms)
    ensures IsRestored(s, d)
  {
    hide C.Snapshot, Laid, KeptFiles, LeadsToKept, AllFiles, Valid;
    assert FilesOrDirs(s, d) by {
      forall p
        ensures p in KeptFiles(s) ==> p in d && d[p] == File(KeptFiles(s)[p])
        ensures p in d && p !in KeptFiles(s) ==> d[p] == Dir
      {
        LaidNode(s, sha, ms, d, p);
      }
    }
    SameFiles(s, d);
    forall p ensures IsDir(d, p) <==> p == [] || LeadsToKept(s, p) {
      LaidDomain(s, sha, ms, d, p);
      LaidNode(s, sha, ms, d, p);
      if p in KeptFiles(s) {
        KeptIsLeaf(s, p);
      }
    }
  }

  lemma KeptIgnores(s: Tree, q: Path, n: Node)
    requires !Kept(q)
    ensures KeptFiles(s[q := n]) == KeptFiles(s)
  {
  }

  // The lock file create may leave behind is not something a backup keeps.
  lemma LockIsNotKept(t: Tree, state: Path)
    requires IsDir(t, state)
    ensures KeptFiles(Below(B.WithLock(t, state), state)) == KeptFiles(Below(t, state))
  {
    if state + [B.LOCK] !in t {
      BelowUpdate(t, state, [B.LOCK], File(""));
      assert Excluded([B.LOCK][0]);
      KeptIgnores(Below(t, state), [B.LOCK], File(""));
    }
  }

  lemma WithLockIsValid(t: Tree, state: Path)
    requires Valid(t) && IsDir(t, state)
    ensures Valid(B.WithLock(t, state)) && IsDir(B.WithLock(t, state), state)
  {
    if state + [B.LOCK] !in t {
      AddKeepsValid(t, state, B.LOCK, File(""));
    }
  }

  // What create needs, in whatever order the state is listed.
  ghost predicate CanBackUp(t: Tree, c: Codec, state: Path, archive: Path) {
    && B.Lockable(t, state) && C.Fit(B.StateOf(t, state), c.sha) && B.Writable(B.WithLock(t, state), archive)
    && forall ms :: C.Snapshot(B.StateOf(t, state), c.sha, ms) ==> |c.enc(ms)| <= ARCHIVE_LIMIT
  }

  // For every state tree and listing order on which create succeeds, restoring
  // into a new destination can fail only for input or output; when it succeeds,
  // the destination is exactly the kept files, byte for byte, with the
  // directories above them, and nothing outside it has changed. When no call fails
  // for reasons of its own, and the destination's parent is there, it does succeed;
  // and so does create, on a state that can be backed up.
  method CreateThenRestore(disk: Disk, c: Codec, state: Path, archive: Path, dest: Path)
    returns (created: B.Created, restored: Option<B.Restored>)
    requires Valid(disk.tree) && Lossless(c) && AreNames(archive) && AreNames(dest)
    requires dest !in B.WithLock(disk.tree, state) && dest != archive
    modifies disk
    ensures restored.Some? <==> created == B.Created
    ensures restored.Some? && restored.value.NotRestored? ==> restored.value.fault == Io
    ensures restored.Some? && restored.value.Restored? ==>
      IsRestored(Below(old(disk.tree), state), Below(disk.tree, dest))
    ensures old(disk.Smooth()) && dest != [] && IsDir(old(disk.tree), Parent(dest)) && restored.Some? ==>
      restored.value.Restored?
    ensures old(disk.Smooth()) && CanBackUp(old(disk.tree), c, state, archive) ==> created == B.Created
    ensures forall p :: p != archive && p != state + [B.LOCK] && !Under(p, dest) ==>
      (p in disk.tree <==> p in old(disk.tree)) && (p in disk.tree ==> disk.tree[p] == old(disk.tree)[p])
  {
    ghost var t := disk.tree;
    ghost var ms;
    created, ms := B.Create(disk, c, state, archive);
    if created != B.Created {
      return created, None;
    }
    CreatedReadsBack(c, t, state, archive, ms);
    PlaceForRestore(c, t, state, archive, ms, dest);
    var r := B.Restore(disk, c, archive, Some(dest));
    if r.Restored? {
      RestoredFromLocked(t, c.sha, state, ms, Below(disk.tree, dest));
    }
    return created, Some(r);
  }

  lemma CreatedReadsBack(c: Codec, t: Tree, state: Path, archive: Path, ms: seq<Member>)
    requires Valid(t) && IsDir(t, state) && Lossless(c)
    requires C.Snapshot(Below(B.WithLock(t, state), state), c.sha, ms) && B.Bounded(c, ms)
    ensures var u := B.WithLock(t, state)[archive := File(Framed(c, ms))];
      B.Readable(u, archive) && Judge(c, u[archive].data) == Accepted(ms, Manifest(ms)) && Replayable(ms)
  {
    WithLockIsValid(t, state);
    BelowIsValid(B.WithLock(t, state), state);
    CreatedIsAccepted(c, Below(B.WithLock(t, state), state), ms);
  }

  lemma PlaceForRestore(c: Codec, t: Tree, state: Path, archive: Path, ms: seq<Member>, dest: Path)
    requires Valid(t) && archive !in t && dest !in B.WithLock(t, state) && dest != archive
    requires var u := B.WithLock(t, state)[archive := File(Framed(c, ms))];
      B.Readable(u, archive) && Judge(c, u[archive].data) == Accepted(ms, Manifest(ms)) && Replayable(ms)
    ensures var u := B.WithLock(t, state)[archive := File(Framed(c, ms))];
      dest != [] && IsDir(t, Parent(dest)) ==> B.Restorable(u, c, archive, Some(dest))
  {
  }

  lemma RestoredFromLocked(t: Tree, sha: string -> string, state: Path, ms: seq<Member>, d: Tree)
    requires Valid(t) && IsDir(t, state)
    requires C.Snapshot(Below(B.WithLock(t, state), state), sha, ms) && Laid(d, ms)
    ensures IsRestored(Below(t, state), d)
  {
    WithLockIsValid(t, state);
    BelowIsValid(B.WithLock(t, state), state);
    LockIsNotKept(t, state);
    LaidIsRestored(Below(B.WithLock(t, state), state), sha, ms, d);
  }
}
