// Replaying members into an empty directory, and why the collision checks made
// before any write are exactly strong enough (src/clawt-backup.c:243-281 and
// 316-346). Everything here is relative to the new destination.

module BackupReplay {
  import opened Options
  import opened Strings
  import opened Files
  import opened BackupPolicy
  import opened BackupArchive

  function Parts(m: Member): Path {
    Split(m.path, '/')
  }

  // restore_file from component i on: make or enter each directory, then create
  // the file, which must be new. None is a name that was taken.
  function Place(d: Tree, parts: Path, data: string, i: nat): Option<Tree>
    requires i < |parts|
    decreases |parts| - i
  {
    var p := parts[..i + 1];
    if i + 1 == |parts| then
      if p in d then None else Some(d[p := File(data)])
    else if p !in d then Place(d[p := Dir], parts, data, i + 1)
    else if d[p].Dir? then Place(d, parts, data, i + 1)
    else None
  }

  const EMPTY: Tree := map[[] := Dir]

  predicate Replayable(ms: seq<Member>) {
    forall m :: m in ms ==> m.path != ""
  }

  lemma PartsNonempty(m: Member)
    requires m.path != ""
    ensures |Parts(m)| >= 1
  {
  }

  function Replay(d: Tree, ms: seq<Member>): Option<Tree>
    requires Replayable(ms)
    decreases |ms|
  {
    if ms == [] then Some(d)
    else
      var next := Place(d, Parts(ms[0]), ms[0].data, 0);
      if next.None? then None else Replay(next.value, ms[1..])
  }

  // ---------------------------------------------------------------------
  // One member.

  // No component is taken by something other than a directory, and the last
  // one is not taken at all.
  ghost predicate Free(d: Tree, parts: Path, i: nat) {
    parts !in d && forall q :: q in d && i < |q| && q < parts ==> d[q].Dir?
  }

  // e is d with the file at parts and the directories above it from i on.
  ghost predicate Placed(d: Tree, e: Tree, parts: Path, data: string, i: nat) {
    && (forall p :: p in e <==> p in d || (i < |p| && p <= parts))
    && (forall p :: p in d && p != parts ==> p in e && e[p] == d[p])
    && (forall p :: p in e && p !in d && p != parts ==> e[p] == Dir)
    && parts in e && e[parts] == File(data)
  }

  lemma {:induction false} PlaceResult(d: Tree, parts: Path, data: string, i: nat)
    requires i < |parts|
    ensures Place(d, parts, data, i).Some? <==> Free(d, parts, i)
    ensures Place(d, parts, data, i).Some? ==> Placed(d, Place(d, parts, data, i).value, parts, data, i)
    decreases |parts| - i
  {
    var p := parts[..i + 1];
    if i + 1 == |parts| {
      assert p == parts;
      assert forall q: Path :: i < |q| && q <= parts ==> q == parts;
    } else {
      var next := if p in d then d else d[p := Dir];
      assert p != parts;
      if p in next && next[p].Dir? {
        PlaceResult(next, parts, data, i + 1);
        assert forall q: Path :: q < parts && |q| == i + 1 ==> q == p;
        PlacedStep(d, next, parts, data, i);
      }
    }
  }

  lemma PlacedStep(d: Tree, next: Tree, parts: Path, data: string, i: nat)
    requires i + 1 < |parts|
    requires next == (if parts[..i + 1] in d then d else d[parts[..i + 1] := Dir])
    ensures forall e :: Placed(next, e, parts, data, i + 1) ==> Placed(d, e, parts, data, i)
  {
    var p := parts[..i + 1];
    assert forall q: Path :: i < |q| && q <= parts && |q| == i + 1 ==> q == p;
    assert p <= parts && p != parts;
  }

  // ---------------------------------------------------------------------
  // All members.

  // p leads to a member, or is a member's path.
  predicate Leads(ms: seq<Member>, p: Path) {
    exists i :: 0 <= i < |ms| && p <= Parts(ms[i])
  }

  predicate Names(ms: seq<Member>, p: Path) {
    exists i :: 0 <= i < |ms| && p == Parts(ms[i])
  }

  // d holds exactly the members' files and the directories they need.
  ghost predicate Laid(d: Tree, ms: seq<Member>) {
    && (forall p :: p in d <==> p == [] || Leads(ms, p))
    && (forall i :: 0 <= i < |ms| ==> Parts(ms[i]) in d && d[Parts(ms[i])] == File(ms[i].data))
    && (forall p :: p in d && d[p] != Dir ==> Names(ms, p))
  }

  predicate Clear(x: Member, y: Member) {
    !(Parts(x) <= Parts(y)) && !(Parts(y) <= Parts(x))
  }

  predicate Antichain(ms: seq<Member>) {
    forall i, j :: 0 <= i < j < |ms| ==> Clear(ms[i], ms[j])
  }

  lemma FreeMeansClear(d: Tree, ms: seq<Member>, m: Member)
    requires Laid(d, ms) && m.path != "" && Replayable(ms)
    ensures Free(d, Parts(m), 0) <==> forall i :: 0 <= i < |ms| ==> Clear(ms[i], m)
  {
    PartsNonempty(m);
    forall i | 0 <= i < |ms| ensures |Parts(ms[i])| > 0 {
      PartsNonempty(ms[i]);
    }
  }

  lemma LeadsPush(ms: seq<Member>, m: Member, p: Path)
    ensures Leads(ms + [m], p) <==> Leads(ms, p) || p <= Parts(m)
    ensures Names(ms + [m], p) <==> Names(ms, p) || p == Parts(m)
  {
    var all := ms + [m];
    assert all[|ms|] == m && forall i :: 0 <= i < |ms| ==> all[i] == ms[i];
    if Leads(ms, p) {
      var i :| 0 <= i < |ms| && p <= Parts(ms[i]);
      assert p <= Parts(all[i]);
    }
    if Names(ms, p) {
      var i :| 0 <= i < |ms| && p == Parts(ms[i]);
      assert p == Parts(all[i]);
    }
  }

  lemma LaidStep(d: Tree, ms: seq<Member>, m: Member, e: Tree)
    requires Laid(d, ms) && m.path != ""
    requires forall i :: 0 <= i < |ms| ==> Clear(ms[i], m)
    requires Placed(d, e, Parts(m), m.data, 0)
    ensures Laid(e, ms + [m])
  {
    var all := ms + [m];
    forall p
      ensures p in e <==> p == [] || Leads(all, p)
      ensures p in e && e[p] != Dir ==> Names(all, p)
    {
      LeadsPush(ms, m, p);
    }
    forall i | 0 <= i < |all| ensures Parts(all[i]) in e && e[Parts(all[i])] == File(all[i].data) {
      assert i < |ms| ==> Clear(ms[i], m);
    }
  }

  lemma AntichainPush(ms: seq<Member>, m: Member)
    ensures Antichain(ms + [m]) <==> Antichain(ms) && forall i :: 0 <= i < |ms| ==> Clear(ms[i], m)
  {
    var all := ms + [m];
    if Antichain(all) {
      assert forall i, j :: 0 <= i < j < |ms| ==> ms[i] == all[i] && ms[j] == all[j];
      forall i | 0 <= i < |ms| ensures Clear(ms[i], m) {
        assert Clear(all[i], all[|ms|]);
      }
    }
  }

  lemma AntichainPrefix(ms: seq<Member>, more: seq<Member>)
    requires Antichain(ms + more)
    ensures Antichain(ms)
  {
    var all := ms + more;
    forall i, j | 0 <= i < j < |ms| ensures Clear(ms[i], ms[j]) {
      assert Clear(all[i], all[j]);
    }
  }

  lemma {:induction false} ReplayFrom(d: Tree, done: seq<Member>, rest: seq<Member>)
    requires Replayable(done) && Replayable(rest) && Laid(d, done) && Antichain(done)
    ensures Replay(d, rest).Some? <==> Antichain(done + rest)
    ensures Replay(d, rest).Some? ==> Laid(Replay(d, rest).value, done + rest)
    decreases |rest|
  {
    if rest == [] {
      assert done + rest == done;
    } else {
      var m := rest[0];
      assert done + rest == (done + [m]) + rest[1..];
      PartsNonempty(m);
      PlaceResult(d, Parts(m), m.data, 0);
      FreeMeansClear(d, done, m);
      AntichainPush(done, m);
      var next := Place(d, Parts(m), m.data, 0);
      if next.Some? {
        LaidStep(d, done, m, next.value);
        ReplayFrom(next.value, done + [m], rest[1..]);
      } else if Antichain(done + rest) {
        AntichainPrefix(done + [m], rest[1..]);
      }
    }
  }

  // ---------------------------------------------------------------------
  // The string checks are the antichain condition.

  // Cutting a path at a slash gives another path exactly when that path's
  // components come first.
  lemma CutIsPrefix(path: string, other: string)
    requires AreNames(Split(path, '/')) && path != ""
    requires AreNames(Split(other, '/')) && other != ""
    ensures (exists k :: 0 <= k < |path| && path[k] == '/' && path[..k] == other)
       <==> Split(other, '/') < Split(path, '/')
  {
    var p, q := Split(path, '/'), Split(other, '/');
    if exists k :: 0 <= k < |path| && path[k] == '/' && path[..k] == other {
      var k :| 0 <= k < |path| && path[k] == '/' && path[..k] == other;
      var rest := path[k + 1..];
      assert path == other + (['/'] + rest);
      PiecesAppend(other, rest, '/');
    }
    if q < p {
      var tail := p[|q|..];
      assert p == q + tail;
      JoinOfPieces(path, '/');
      JoinOfPieces(other, '/');
      JoinAppend(q, tail, "/");
      var k := |other|;
      assert path == other + "/" + Join(tail, "/");
      assert path[k] == '/' && path[..k] == other;
    }
  }

  lemma PathIsParts(x: Member, y: Member)
    requires x.path != "" && y.path != ""
    ensures Parts(x) == Parts(y) <==> x.path == y.path
  {
    JoinOfPieces(x.path, '/');
    JoinOfPieces(y.path, '/');
  }

  predicate AllSafe(ms: seq<Member>) {
    forall i :: 0 <= i < |ms| ==> SafePath(ms[i].path) && ms[i].path != ""
  }

  lemma PairIsClear(x: Member, y: Member)
    requires SafePath(x.path) && x.path != "" && SafePath(y.path) && y.path != ""
    ensures Clear(x, y) <==>
      x.path != y.path &&
      (forall k :: 0 <= k < |x.path| && x.path[k] == '/' ==> x.path[..k] != y.path) &&
      (forall k :: 0 <= k < |y.path| && y.path[k] == '/' ==> y.path[..k] != x.path)
  {
    SafePathParts(x.path);
    SafePathParts(y.path);
    CutIsPrefix(x.path, y.path);
    CutIsPrefix(y.path, x.path);
    PathIsParts(x, y);
  }

  lemma OwnCutsDiffer(s: string)
    ensures forall k :: 0 <= k < |s| ==> s[..k] != s
  {
    forall k | 0 <= k < |s| ensures s[..k] != s {
      assert |s[..k]| == k;
    }
  }

  lemma ChecksAreAntichain(ms: seq<Member>)
    requires AllSafe(ms)
    ensures DistinctPaths(ms) && ParentFree(ms) <==> Antichain(ms)
  {
    if DistinctPaths(ms) && ParentFree(ms) {
      forall i, j | 0 <= i < j < |ms| ensures Clear(ms[i], ms[j]) {
        assert ms[i].path in Paths(ms) && ms[j].path in Paths(ms);
        PairIsClear(ms[i], ms[j]);
      }
    }
    if Antichain(ms) {
      forall i, j | 0 <= i < j < |ms| ensures ms[i].path != ms[j].path {
        assert Clear(ms[i], ms[j]);
        PairIsClear(ms[i], ms[j]);
      }
      forall i, k | 0 <= i < |ms| && 0 <= k < |ms[i].path| && ms[i].path[k] == '/'
        ensures ms[i].path[..k] !in Paths(ms)
      {
        CutsMissMembers(ms, i, k);
      }
    }
  }

  lemma CutsMissMembers(ms: seq<Member>, i: nat, k: nat)
    requires AllSafe(ms) && Antichain(ms)
    requires i < |ms| && k < |ms[i].path| && ms[i].path[k] == '/'
    ensures ms[i].path[..k] !in Paths(ms)
  {
    forall j | 0 <= j < |ms| ensures ms[j].path != ms[i].path[..k] {
      PairIsClear(ms[i], ms[j]);
      PairIsClear(ms[j], ms[i]);
      OwnCutsDiffer(ms[i].path);
      if i < j {
        assert Clear(ms[i], ms[j]);
      } else if j < i {
        assert Clear(ms[j], ms[i]);
      }
    }
  }

  // For safe, non-empty member paths: the duplicate and parent checks pass if
  // and only if replaying every member, in order, into an empty directory never
  // finds a name taken; and then the directory holds exactly the members.
  lemma CollisionCheckIsExact(ms: seq<Member>)
    requires AllSafe(ms) && Replayable(ms)
    ensures DistinctPaths(ms) && ParentFree(ms) <==> Replay(EMPTY, ms).Some?
    ensures Replay(EMPTY, ms).Some? ==> Laid(Replay(EMPTY, ms).value, ms)
  {
    ChecksAreAntichain(ms);
    assert Laid(EMPTY, []);
    ReplayFrom(EMPTY, [], ms);
    assert [] + ms == ms;
  }
}
