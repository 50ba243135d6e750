// Replacing a file in one step (src/clawt-util.c, clawt_write_file_atomic), as
// steps that may each fail.

module AtomicWrite {
  import opened Strings
  import opened Files

  // The three names in one directory.
  datatype Names = Names(dir: Path, name: string, pid: string) {
    function Target(): Path { dir + [name] }
    function Temporary(): Path { dir + [name + ".tmp-" + pid] }
    function Backup(): Path { dir + [name + ".bak"] }
  }

  lemma NamesApart(n: Names)
    requires n.pid != ""
    ensures Apart(n.Target(), n.Temporary()) && Apart(n.Target(), n.Backup()) && Apart(n.Temporary(), n.Backup())
  {
    assert |n.name + ".tmp-" + n.pid| > |n.name + ".bak"| > |n.name|;
    assert n.Target()[|n.dir|] == n.name;
    assert n.Temporary()[|n.dir|] == n.name + ".tmp-" + n.pid;
    assert n.Backup()[|n.dir|] == n.name + ".bak";
  }

  // One whole file.
  function Contents(data: string): Tree {
    map[[] := File(data)]
  }

  // What is at and below each name, and everything else.
  datatype View = View(target: Tree, backup: Tree, temporary: Tree, rest: Tree)

  // The temporary name itself, or that name with a suffix of its own after a dot,
  // where the library writes first.
  predicate Aside(n: Names, q: Path) {
    n.dir < q && (q[|n.dir|] == Last(n.Temporary()) || Last(n.Temporary()) + "." <= q[|n.dir|])
  }

  predicate Among(n: Names, q: Path) {
    Under(q, n.Target()) || Aside(n, q) || Under(q, n.Backup())
  }

  function Rest(n: Names, t: Tree): Tree {
    map q | q in t && !Among(n, q) :: t[q]
  }

  function Look(n: Names, t: Tree): View {
    View(Below(t, n.Target()), Below(t, n.Backup()), Below(t, n.Temporary()), Rest(n, t))
  }

  // The old contents are whole at the path or at the backup, or the new ones are
  // whole at the path; nothing else is ever at the path, and nothing else changes.
  predicate Safe(was: View, data: string, v: View) {
    v.rest == was.rest &&
    (v.target == was.target || (v.target == map[] && v.backup == was.target) || v.target == Contents(data))
  }

  // A change at one of two separate places is not seen from the other.
  lemma BelowElsewhere(t: Tree, u: Tree, p: Path, q: Path)
    requires Apart(p, q) && OnlyAt(t, u, p)
    ensures Below(u, q) == Below(t, q)
  {
    forall r ensures q + r != p {
      assert Under(q + r, q);
    }
  }

  lemma RenamedElsewhere(t: Tree, from: Path, to: Path, q: Path)
    requires Apart(from, to) && Apart(from, q) && Apart(to, q)
    ensures Below(Renamed(t, from, to), q) == Below(t, q)
  {
    RenamedNodes(t, from, to);
    forall r ensures !Under(q + r, from) && !Under(q + r, to) {
      assert Under(q + r, q);
      if Under(q + r, from) { PrefixesCompare(q, from, q + r); }
      if Under(q + r, to) { PrefixesCompare(q, to, q + r); }
    }
  }

  // A file has nothing below it, so what replaced it is one whole file.
  lemma ReplacedIsWhole(t: Tree, p: Path, data: string)
    requires Valid(t) && p != [] && !IsDir(t, p)
    ensures Below(t[p := File(data)], p) == Contents(data)
  {
    var u := t[p := File(data)];
    forall r ensures r in Below(u, p) <==> r == [] {
      assert p + [] == p;
      if r != [] && p + r in t {
        AncestorIsDir(t, p, r);
      }
    }
    assert p + [] == p && Below(u, p)[[]] == u[p + []];
  }

  lemma SameRest(n: Names, t: Tree, u: Tree)
    requires forall q :: !Among(n, q) ==> (q in u <==> q in t) && (q in t ==> u[q] == t[q])
    ensures Rest(n, u) == Rest(n, t)
  {
  }

  lemma RestElsewhere(n: Names, t: Tree, u: Tree)
    requires OnlyAt(t, u, n.Temporary())
    ensures Rest(n, u) == Rest(n, t)
  {
    SameRest(n, t, u);
  }

  // The view after a change at the temporary name.
  lemma OnlyTemporary(n: Names, t: Tree, u: Tree)
    requires n.pid != "" && OnlyAt(t, u, n.Temporary())
    ensures Look(n, u) == Look(n, t).(temporary := Look(n, u).temporary)
  {
    NamesApart(n);
    BelowElsewhere(t, u, n.Temporary(), n.Target());
    BelowElsewhere(t, u, n.Temporary(), n.Backup());
    RestElsewhere(n, t, u);
  }

  lemma NotScratch(n: Names, q: Path)
    requires n.pid != "" && (Under(q, n.Target()) || Under(q, n.Temporary()) || Under(q, n.Backup()))
    ensures !IsScratch(n.Temporary(), q)
  {
    assert |n.name + ".tmp-" + n.pid| > |n.name + ".bak"| > |n.name|;
    assert q[|n.dir|] in {n.name, n.name + ".tmp-" + n.pid, n.name + ".bak"};
  }

  // What the library does on its way is seen nowhere.
  lemma ScratchUnseen(n: Names, t: Tree, u: Tree)
    requires n.pid != "" && OnlyScratch(t, u, n.Temporary())
    ensures Look(n, u) == Look(n, t)
  {
    forall p, r | p in {n.Target(), n.Temporary(), n.Backup()} ensures !IsScratch(n.Temporary(), p + r) {
      assert Under(p + r, p);
      NotScratch(n, p + r);
    }
    forall q | !Among(n, q) ensures !IsScratch(n.Temporary(), q) {
      assert Parent(n.Temporary()) == n.dir;
    }
    SameBelow(t, u, n.Target(), n.Temporary());
    SameBelow(t, u, n.Temporary(), n.Temporary());
    SameBelow(t, u, n.Backup(), n.Temporary());
    SameRest(n, t, u);
  }

  lemma SameBelow(t: Tree, u: Tree, p: Path, temporary: Path)
    requires OnlyScratch(t, u, temporary) && forall r :: !IsScratch(temporary, p + r)
    ensures Below(u, p) == Below(t, p)
  {
  }

  // When rename can put what is at one name in place of what is at another in the
  // same directory: something of one kind with it, or nothing, is there to replace,
  // and nothing stands directly below that.
  predicate Movable(from: Tree, to: Tree) {
    [] in from && ([] in to ==> (from[[]].Dir? <==> to[[]].Dir?) && forall r :: r in to ==> |r| != 1)
  }

  lemma MovableMeans(t: Tree, from: Path, to: Path)
    ensures Movable(Below(t, from), Below(t, to)) <==>
      from in t && (to in t ==> (IsDir(t, from) <==> IsDir(t, to)) && Children(t, to) == {})
  {
    var below := Below(t, to);
    assert from + [] == from && to + [] == to;
    forall r | r in below && |r| == 1 ensures r[0] in Children(t, to) {
      assert r == [r[0]];
    }
    forall name | name in Children(t, to) ensures [name] in below {
    }
  }

  // Nothing has anything below it but a directory, so what is no directory gives way
  // to a file, and to any node that is none.
  lemma MovableNode(t: Tree, from: Tree, to: Path)
    requires Valid(t) && [] in from && !from[[]].Dir?
    ensures Movable(from, Below(t, to)) <==> !IsDir(t, to)
  {
    var below := Below(t, to);
    assert to + [] == to;
    if to in t && !IsDir(t, to) {
      forall r | r in below ensures |r| != 1 {
        if |r| == 1 {
          AncestorIsDir(t, to, r);
        }
      }
    }
  }

  lemma RestHasDir(n: Names, t: Tree)
    ensures IsDir(Rest(n, t), n.dir) <==> IsDir(t, n.dir)
  {
    assert !Among(n, n.dir);
  }

  // g_file_set_contents on the temporary name, which is complete at once or untouched.
  method WriteTemporary(disk: Disk, n: Names, data: string) returns (ok: bool)
    requires Valid(disk.tree) && n.pid != ""
    modifies disk
    ensures Look(n, disk.tree) ==
      if ok then Look(n, old(disk.tree)).(temporary := Contents(data)) else Look(n, old(disk.tree))
    ensures old(disk.history) <= disk.history
    ensures forall i :: |old(disk.history)| <= i < |disk.history| ==>
      Look(n, disk.history[i]) in {Look(n, old(disk.tree)), Look(n, disk.tree)}
    ensures ok ==> IsDir(old(disk.tree), n.dir) && !IsDir(old(disk.tree), n.Temporary())
    ensures disk.sound && IsDir(old(disk.tree), n.dir) && !IsDir(old(disk.tree), n.Temporary()) ==> ok
  {
    ghost var t := disk.tree;
    assert Parent(n.Temporary()) == n.dir;
    ok := disk.SetContents(n.Temporary(), data);
    if ok {
      OnlyTemporary(n, t, disk.tree);
      ReplacedIsWhole(t, n.Temporary(), data);
    } else {
      ScratchUnseen(n, t, disk.tree);
    }
    forall i | |old(disk.history)| <= i < |disk.history|
      ensures Look(n, disk.history[i]) in {Look(n, t), Look(n, disk.tree)}
    {
      if OnlyScratch(t, disk.history[i], n.Temporary()) {
        ScratchUnseen(n, t, disk.history[i]);
      }
    }
  }

  method DropTemporary(disk: Disk, n: Names)
    requires n.pid != ""
    modifies disk
    ensures Look(n, disk.tree) == Look(n, old(disk.tree)).(temporary := Look(n, disk.tree).temporary)
    ensures disk.history == old(disk.history) + [disk.tree]
    ensures disk.sound && (exists data :: Look(n, old(disk.tree)).temporary == Contents(data)) ==>
      Look(n, disk.tree).temporary == map[]
  {
    ghost var t := disk.tree;
    var _ := disk.Unlink(n.Temporary());
    OnlyTemporary(n, t, disk.tree);
    Unlinked(n, t, disk.tree);
  }

  // A whole file, unlinked, leaves nothing.
  lemma Unlinked(n: Names, t: Tree, u: Tree)
    ensures (exists data :: Look(n, t).temporary == Contents(data)) ==>
      n.Temporary() in t && !IsDir(t, n.Temporary()) && (u == t - {n.Temporary()} ==> Look(n, u).temporary == map[])
  {
    var p := n.Temporary();
    assert p + [] == p;
    forall data | Look(n, t).temporary == Contents(data)
      ensures p in t && !IsDir(t, p) && (u == t - {p} ==> Look(n, u).temporary == map[])
    {
      assert [] in Below(t, p) && Below(t, p)[[]] == File(data);
      if u == t - {p} {
        forall r ensures r !in Below(u, p) {
          assert r in Below(u, p) ==> r in Below(t, p);
        }
      }
    }
  }

  lemma RenameRest(n: Names, t: Tree, from: Path, to: Path)
    requires Apart(from, to) && from in {n.Target(), n.Temporary(), n.Backup()} && to in {n.Target(), n.Temporary(), n.Backup()}
    ensures Rest(n, Renamed(t, from, to)) == Rest(n, t)
  {
    forall q | Under(q, n.Temporary()) ensures Aside(n, q) {
      assert q[|n.dir|] == Last(n.Temporary());
    }
    var u := Renamed(t, from, to);
    forall q | !Among(n, q) ensures (q in u <==> q in t) && (q in t ==> u[q] == t[q]) {
      RenamedAway(t, from, to, q);
    }
    SameRest(n, t, u);
  }

  lemma RenamedAway(t: Tree, from: Path, to: Path, q: Path)
    requires Apart(from, to) && !Under(q, from) && !Under(q, to)
    ensures (q in Renamed(t, from, to) <==> q in t) && (q in t ==> Renamed(t, from, to)[q] == t[q])
  {
    RenamedNodes(t, from, to);
  }

  // The path becomes its own backup.
  method BackUp(disk: Disk, n: Names) returns (ok: bool)
    requires n.pid != ""
    modifies disk
    ensures var v := Look(n, old(disk.tree));
      Look(n, disk.tree) == if ok then v.(target := map[], backup := v.target) else v
    ensures disk.history == old(disk.history) + [disk.tree]
    ensures var v := Look(n, old(disk.tree));
      disk.sound ==> (ok <==> IsDir(v.rest, n.dir) && Movable(v.target, v.backup))
  {
    NamesApart(n);
    RenamedNodes(disk.tree, n.Target(), n.Backup());
    RenamedElsewhere(disk.tree, n.Target(), n.Backup(), n.Temporary());
    RenameRest(n, disk.tree, n.Target(), n.Backup());
    MovableMeans(disk.tree, n.Target(), n.Backup());
    RestHasDir(n, disk.tree);
    assert Parent(n.Backup()) == n.dir;
    var e := disk.Rename(n.Target(), n.Backup());
    return e == Done;
  }

  // The temporary file becomes the path.
  method Replace(disk: Disk, n: Names) returns (ok: bool)
    requires n.pid != ""
    modifies disk
    ensures var v := Look(n, old(disk.tree));
      Look(n, disk.tree) == if ok then v.(target := v.temporary, temporary := map[]) else v
    ensures disk.history == old(disk.history) + [disk.tree]
    ensures var v := Look(n, old(disk.tree));
      disk.sound ==> (ok <==> IsDir(v.rest, n.dir) && Movable(v.temporary, v.target))
  {
    NamesApart(n);
    RenamedNodes(disk.tree, n.Temporary(), n.Target());
    RenamedElsewhere(disk.tree, n.Temporary(), n.Target(), n.Backup());
    RenameRest(n, disk.tree, n.Temporary(), n.Target());
    MovableMeans(disk.tree, n.Temporary(), n.Target());
    RestHasDir(n, disk.tree);
    assert Parent(n.Target()) == n.dir;
    var e := disk.Rename(n.Temporary(), n.Target());
    return e == Done;
  }

  // The backup becomes the path again.
  method PutBack(disk: Disk, n: Names) returns (ok: bool)
    requires n.pid != ""
    modifies disk
    ensures var v := Look(n, old(disk.tree));
      Look(n, disk.tree) == if ok then v.(target := v.backup, backup := map[]) else v
    ensures disk.history == old(disk.history) + [disk.tree]
    ensures var v := Look(n, old(disk.tree));
      disk.sound ==> (ok <==> IsDir(v.rest, n.dir) && Movable(v.backup, v.target))
  {
    NamesApart(n);
    RenamedNodes(disk.tree, n.Backup(), n.Target());
    RenamedElsewhere(disk.tree, n.Backup(), n.Target(), n.Temporary());
    RenameRest(n, disk.tree, n.Backup(), n.Target());
    MovableMeans(disk.tree, n.Backup(), n.Target());
    RestHasDir(n, disk.tree);
    assert Parent(n.Target()) == n.dir;
    var e := disk.Rename(n.Backup(), n.Target());
    return e == Done;
  }

  // Every tree from the given point of the history on is safe.
  ghost predicate SafeSince(n: Names, was: View, data: string, history: seq<Tree>, start: nat) {
    forall i :: start <= i < |history| ==> Safe(was, data, Look(n, history[i]))
  }

  lemma SafePush(n: Names, was: View, data: string, history: seq<Tree>, start: nat, t: Tree)
    requires SafeSince(n, was, data, history, start) && Safe(was, data, Look(n, t))
    ensures SafeSince(n, was, data, history + [t], start)
  {
  }

  // The views a call passes through before the new contents are in place.
  function Stage(was: View, backed: bool, temporary: Tree): View {
    if backed then was.(target := map[], backup := was.target, temporary := temporary)
    else was.(temporary := temporary)
  }

  lemma StageIsSafe(was: View, data: string, backed: bool, temporary: Tree)
    ensures Safe(was, data, Stage(was, backed, temporary))
    ensures Outcome(was, data, backed, false, Stage(was, backed, temporary))
  {
  }

  // And the views with the new contents, or the old ones put back.
  lemma LastIsSafe(was: View, data: string, backed: bool, temporary: Tree)
    ensures var done := Stage(was, backed, Contents(data)).(target := Contents(data), temporary := map[]);
      Safe(was, data, done) && Outcome(was, data, backed, true, done)
    ensures var undone := was.(backup := map[], temporary := temporary);
      Safe(was, data, undone) && Outcome(was, data, true, false, undone)
  {
  }

  // From the backup on, with the temporary file complete.
  method SwapIn(disk: Disk, n: Names, data: string, backup: bool, ghost start: nat, ghost was: View) returns (ok: bool)
    requires n.pid != "" && Look(n, disk.tree) == Stage(was, false, Contents(data))
    requires start <= |disk.history| && SafeSince(n, was, data, disk.history, start)
    modifies disk
    ensures old(disk.history) <= disk.history && SafeSince(n, was, data, disk.history, start)
    ensures Outcome(was, data, backup, ok, Look(n, disk.tree))
    ensures disk.sound ==>
      (ok <==> IsDir(was.rest, n.dir) &&
               if backup then Movable(was.target, was.backup) else Movable(Contents(data), was.target))
    ensures disk.sound && !ok ==> Look(n, disk.tree) == was.(temporary := map[])
  {
    hide Look;
    if backup {
      ghost var h := disk.history;
      var backed := BackUp(disk, n);
      StageIsSafe(was, data, backed, Contents(data));
      SafePush(n, was, data, h, start, disk.tree);
      if !backed {
        Recover(disk, n, data, false, start, was);
        return false;
      }
    }
    ok := PutInPlace(disk, n, data, backup, start, was);
  }

  method PutInPlace(disk: Disk, n: Names, data: string, backed: bool, ghost start: nat, ghost was: View) returns (ok: bool)
    requires n.pid != "" && Look(n, disk.tree) == Stage(was, backed, Contents(data))
    requires start <= |disk.history| && SafeSince(n, was, data, disk.history, start)
    modifies disk
    ensures old(disk.history) <= disk.history && SafeSince(n, was, data, disk.history, start)
    ensures Outcome(was, data, backed, ok, Look(n, disk.tree))
    ensures disk.sound ==>
      (ok <==> IsDir(was.rest, n.dir) && (!backed ==> Movable(Contents(data), was.target)))
    ensures disk.sound && !ok && !backed ==> Look(n, disk.tree) == was.(temporary := map[])
  {
    hide Look;
    ghost var h := disk.history;
    ok := Replace(disk, n);
    StageIsSafe(was, data, backed, Contents(data));
    LastIsSafe(was, data, backed, Contents(data));
    SafePush(n, was, data, h, start, disk.tree);
    if !ok {
      Recover(disk, n, data, backed, start, was);
    }
  }

  // The failure path: drop the temporary file, and put the original back.
  method Recover(disk: Disk, n: Names, data: string, backed: bool, ghost start: nat, ghost was: View)
    requires n.pid != "" && start <= |disk.history| && SafeSince(n, was, data, disk.history, start)
    requires Look(n, disk.tree) == Stage(was, backed, Contents(data))
    modifies disk
    ensures old(disk.history) <= disk.history && SafeSince(n, was, data, disk.history, start)
    ensures Outcome(was, data, backed, false, Look(n, disk.tree))
    ensures disk.sound && (backed ==> IsDir(was.rest, n.dir) && [] in was.target) ==>
      Look(n, disk.tree) == was.(temporary := map[], backup := if backed then map[] else was.backup)
  {
    hide Look;
    ghost var h := disk.history;
    DropTemporary(disk, n);
    ghost var temporary := Look(n, disk.tree).temporary;
    StageIsSafe(was, data, backed, temporary);
    SafePush(n, was, data, h, start, disk.tree);
    if backed {
      h := disk.history;
      var _ := PutBack(disk, n);
      LastIsSafe(was, data, backed, temporary);
      SafePush(n, was, data, h, start, disk.tree);
    }
  }

  // How a call ends. Success: the new contents at the path, no temporary file,
  // and the old contents at the backup when one was taken. Failure: the path as
  // it was, or, when a backup was taken, the old contents there and no path.
  // Without a backup, what was at the backup's name stays.
  predicate Outcome(was: View, data: string, backup: bool, ok: bool, v: View) {
    && v.rest == was.rest
    && (ok ==> v.target == Contents(data) && v.temporary == map[] && (backup ==> v.backup == was.target))
    && (!ok ==> v.target == was.target || (backup && v.target == map[] && v.backup == was.target))
    && (!backup ==> v.backup == was.backup)
  }

  lemma PresentIsBelow(n: Names, t: Tree)
    ensures n.Target() in t <==> [] in Look(n, t).target
    ensures n.Target() in t ==> t[n.Target()] == Look(n, t).target[[]]
    ensures n.Backup() in t <==> [] in Look(n, t).backup
    ensures n.Backup() in t ==> t[n.Backup()] == Look(n, t).backup[[]]
    ensures n.Temporary() in t <==> [] in Look(n, t).temporary
    ensures Look(n, t).backup == Below(t, n.Backup())
  {
    assert n.Target() + [] == n.Target() && n.Backup() + [] == n.Backup() && n.Temporary() + [] == n.Temporary();
  }

  // Whether the new contents can come to the path of a tree: a directory, no directory
  // at the temporary name, and nothing in the way of the renames.
  predicate Placeable(t: Tree, n: Names, keep: bool) {
    && IsDir(t, n.dir) && !IsDir(t, n.Temporary())
    && if keep then
         n.Backup() in t ==> (IsDir(t, n.Target()) <==> IsDir(t, n.Backup())) && Children(t, n.Backup()) == {}
       else !IsDir(t, n.Target())
  }

  lemma PlaceableMeans(t: Tree, n: Names, keep: bool, data: string)
    requires Valid(t) && (keep ==> n.Target() in t)
    ensures var v := Look(n, t);
      Placeable(t, n, keep) <==>
        && IsDir(v.rest, n.dir) && !IsDir(t, n.Temporary())
        && if keep then Movable(v.target, v.backup) else Movable(Contents(data), v.target)
  {
    RestHasDir(n, t);
    MovableMeans(t, n.Target(), n.Backup());
    MovableNode(t, Contents(data), n.Target());
  }

  // Without directories in the way either can come about.
  lemma MovableNodes(t: Tree, n: Names)
    requires Valid(t) && n.Target() in t && !IsDir(t, n.Target()) && !IsDir(t, n.Backup())
    ensures Movable(Look(n, t).target, Look(n, t).backup)
  {
    PresentIsBelow(n, t);
    MovableNode(t, Look(n, t).target, n.Backup());
  }

  // clawt_write_file_atomic. backed says whether the old file was to be kept and
  // was there; only for a link at the path is that not settled by the tree.
  method WriteFileAtomic(disk: Disk, n: Names, data: string, keepBackup: bool) returns (ok: bool, ghost backed: bool)
    requires Valid(disk.tree) && n.pid != ""
    modifies disk
    ensures old(disk.history) <= disk.history
    ensures SafeSince(n, Look(n, old(disk.tree)), data, disk.history, |old(disk.history)|)
    ensures Outcome(Look(n, old(disk.tree)), data, backed, ok, Look(n, disk.tree))
    ensures ok ==> (backed ==> keepBackup && n.Target() in old(disk.tree))
    ensures ok && keepBackup && n.Target() in old(disk.tree) && !old(disk.tree)[n.Target()].Link? ==> backed
    ensures !keepBackup ==> !backed
    // In terms of the three names alone. On success: the contents, no temporary file, and
    // the old file at the backup, or whatever was there when none was to be kept.
    ensures ok ==>
      && n.dir + [n.name] in disk.tree && disk.tree[n.dir + [n.name]] == File(data)
      && n.dir + [n.name + ".tmp-" + n.pid] !in disk.tree
    ensures ok && keepBackup && n.Target() in old(disk.tree) && !old(disk.tree)[n.Target()].Link? ==>
      var backup := n.dir + [n.name + ".bak"];
      backup in disk.tree && disk.tree[backup] == old(disk.tree)[n.dir + [n.name]]
    ensures ok && !(keepBackup && n.Target() in old(disk.tree)) ==>
      Below(disk.tree, n.Backup()) == Below(old(disk.tree), n.Backup())
    // And on a disk where no call fails for reasons of its own, just when it succeeds;
    // a failure then leaves everything but the temporary name as it was.
    ensures disk.sound && (keepBackup && n.Target() in old(disk.tree) ==> !old(disk.tree)[n.Target()].Link?) ==>
      (ok <==> Placeable(old(disk.tree), n, keepBackup && n.Target() in old(disk.tree)))
    ensures disk.sound && IsDir(old(disk.tree), n.dir) ==>
      (forall p :: p in {n.Target(), n.Temporary(), n.Backup()} ==> !IsDir(old(disk.tree), p)) ==> ok
    ensures disk.sound && !ok ==> Look(n, disk.tree).(temporary := map[]) == Look(n, old(disk.tree)).(temporary := map[])
  {
    hide Look, Below, Movable;
    ghost var t, start := disk.tree, |disk.history|;
    ghost var was := Look(n, t);
    var written := WriteTemporary(disk, n, data);
    assert SafeSince(n, was, data, disk.history, start);
    if !written {
      return false, false;
    }
    var unmoded := disk.Fails();
    if unmoded {
      ghost var h := disk.history;
      DropTemporary(disk, n);
      SafePush(n, was, data, h, start, disk.tree);
      return false, false;
    }
    PresentIsBelow(n, t);
    PresentIsBelow(n, disk.tree);
    var present := n.Target() in disk.tree;
    if present && disk.tree[n.Target()].Link? {
      present := *;
    }
    backed := keepBackup && present;
    PlaceableMeans(t, n, backed, data);
    if n.Target() in t && !IsDir(t, n.Target()) && !IsDir(t, n.Backup()) {
      MovableNodes(t, n);
    }
    ok := SwapIn(disk, n, data, keepBackup && present, start, was);
    PresentIsBelow(n, disk.tree);
  }
}
