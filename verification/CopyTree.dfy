// Copying a tree over another (src/clawt-util.c, clawt_ensure_dir and
// clawt_copy_tree). Paths are components as the caller wrote them, and every call
// goes where the walk of its path leads, through links too.

module CopyTree {
  import opened Options
  import opened Strings
  import opened Files
  import opened Resolve
  import opened Overlay

  // The directory p is where path leads.
  predicate LeadsTo(t: Tree, path: Path, p: Path, limit: nat) {
    RealPath(t, path, limit).Found? && RealPath(t, path, limit).p == p && IsDir(t, p)
  }

  // ---------------------------------------------------------------------
  // clawt_ensure_dir.

  // What is new lies where some part of path leads.
  ghost predicate OnWay(t: Tree, u: Tree, path: Path, limit: nat) {
    forall q :: q in u && q !in t ==> exists k :: 0 <= k <= |path| && Lead(t, [], path[..k], limit) == Some(q)
  }

  // The first k components lead to a directory, and the others are names of which the
  // first is not there.
  ghost predicate Opens(t: Tree, path: Path, k: nat, limit: nat) {
    && k <= |path| && AreNames(path[k..])
    && var w := RealPath(t, path[..k], limit);
       w.Found? && IsDir(t, w.p) && (k < |path| ==> w.p + [path[k]] !in t)
  }

  // Where making directories is enough.
  ghost predicate Makeable(t: Tree, path: Path, limit: nat) {
    exists k: nat :: Opens(t, path, k, limit)
  }

  // mkdir
  method MakeDir(disk: Disk, path: Path, limit: nat) returns (e: Errno)
    requires Valid(disk.tree)
    modifies disk
    ensures Valid(disk.tree) && (e != Done ==> disk.tree == old(disk.tree))
    ensures var entry := EntryAt(old(disk.tree), path, limit);
      && (e == Done ==>
            entry.Some? && entry.value !in old(disk.tree) && disk.tree == old(disk.tree)[entry.value := Dir] &&
            LeadsTo(disk.tree, path, entry.value, limit))
      && (disk.sound && entry.Some? && entry.value !in old(disk.tree) ==> e == Done)
      && (e == Exists ==> if entry.Some? then entry.value in old(disk.tree) else RealPath(old(disk.tree), path, limit).Found?)
    ensures RealPath(old(disk.tree), path, limit).Found? ==> e == Exists
  {
    ghost var t := disk.tree;
    var entry := EntryAt(disk.tree, path, limit);
    if entry.None? {
      return if RealPath(disk.tree, path, limit).Found? then Exists else Missing;
    }
    if entry.value !in t {
      MadeLeads(t, path, limit);
      NoEntryLeadsNowhere(t, path, limit);
    }
    e := disk.Mkdir(entry.value);
  }

  lemma NoEntryLeadsNowhere(t: Tree, path: Path, limit: nat)
    requires EntryAt(t, path, limit).Some? && EntryAt(t, path, limit).value !in t
    ensures RealPath(t, path, limit).Nowhere?
  {
    assert path == Parent(path) + [Last(path)] && [Last(path)][0] == Last(path);
    WalkAppend(t, [], Parent(path), [Last(path)], limit);
  }

  // What is not there leads nowhere.
  lemma PastTheEnd(t: Tree, path: Path, k: nat, j: nat, limit: nat)
    requires Opens(t, path, k, limit) && k < j <= |path|
    ensures RealPath(t, path[..j], limit).Nowhere?
  {
    assert path[..j] == path[..k] + path[k..j] && path[k..][0] == path[k] == path[k..j][0];
    WalkAppend(t, [], path[..k], path[k..j], limit);
  }

  lemma OpensNotThere(t: Tree, path: Path, k: nat, limit: nat)
    requires Opens(t, path, k, limit) && k < |path|
    ensures RealPath(t, path, limit).Nowhere?
    ensures EntryAt(t, path, limit) ==
      if k == |path| - 1 then Some(RealPath(t, path[..k], limit).p + [path[k]]) else None
  {
    assert path[..|path|] == path && path[..|path| - 1] == Parent(path) && path[k..][|path| - 1 - k] == Last(path);
    PastTheEnd(t, path, k, |path|, limit);
    if k < |path| - 1 {
      PastTheEnd(t, path, k, |path| - 1, limit);
    }
  }

  // Up to there every part of the path leads to a directory.
  lemma PartIsDir(t: Tree, path: Path, k: nat, j: nat, limit: nat)
    requires Opens(t, path, k, limit) && j <= k
    ensures RealPath(t, path[..j], limit).Found? && IsDir(t, RealPath(t, path[..j], limit).p)
  {
    assert path[..k] == path[..j] + path[j..k];
    WalkAppend(t, [], path[..j], path[j..k], limit);
  }

  // Making the first missing directory leaves one less to make.
  lemma OpensFurther(t: Tree, path: Path, k: nat, limit: nat)
    requires Valid(t) && Opens(t, path, k, limit) && k < |path|
    ensures EntryAt(t, path[..k + 1], limit) == Some(RealPath(t, path[..k], limit).p + [path[k]])
    ensures var p := RealPath(t, path[..k], limit).p + [path[k]];
      LeadsTo(t[p := Dir], path[..k + 1], p, limit) ==> Opens(t[p := Dir], path, k + 1, limit)
  {
    var p := RealPath(t, path[..k], limit).p + [path[k]];
    var part := path[..k + 1];
    assert part == path[..k] + [path[k]] && path[k..][0] == path[k] && path[k..][1..] == path[k + 1..];
    LeadOfChild(t, path[..k], path[k], limit);
    if k + 1 < |path| && p + [path[k + 1]] in t {
      AncestorIsDir(t, p, [path[k + 1]]);
    }
  }

  lemma MadeLeads(t: Tree, path: Path, limit: nat)
    requires Valid(t) && EntryAt(t, path, limit).Some? && EntryAt(t, path, limit).value !in t
    ensures var p := EntryAt(t, path, limit).value;
      Valid(t[p := Dir]) && LeadsTo(t[p := Dir], path, p, limit)
  {
    var p := EntryAt(t, path, limit).value;
    var u, init, name := t[p := Dir], Parent(path), Last(path);
    AddKeepsValid(t, RealPath(t, init, limit).p, name, Dir);
    WalkLeads(t, t, [], init, limit);
    WalkStays(t, u, [], init, limit);
    assert path == init + [name] && [name][1..] == [];
    WalkAppend(u, [], init, [name], limit);
  }

  lemma OneMoreDir(t: Tree, u: Tree, v: Tree, p: Path, path: Path, k: nat, limit: nat)
    requires MoreDirs(t, u) && OnWay(t, u, path, limit) && p !in u && v == u[p := Dir]
    requires k <= |path| && LeadsTo(v, path[..k], p, limit)
    ensures MoreDirs(t, v) && OnWay(t, v, path, limit)
  {
    WalkLeads(t, v, [], path[..k], limit);
    assert Lead(t, [], path[..k], limit) == Some(p);
  }

  // g_mkdir_with_parents, once making path itself has failed for want of a parent.
  method MakeParents(disk: Disk, path: Path, limit: nat) returns (ok: bool)
    requires Valid(disk.tree)
    modifies disk
    ensures Valid(disk.tree) && MoreDirs(old(disk.tree), disk.tree) && OnWay(old(disk.tree), disk.tree, path, limit)
    ensures ok && path != [] && RealPath(disk.tree, path, limit).Found? ==>
      IsDir(disk.tree, RealPath(disk.tree, path, limit).p)
    ensures disk.sound && Makeable(old(disk.tree), path, limit) ==> ok && RealPath(disk.tree, path, limit).Found?
  {
    hide Walk, EntryAt, OnWay, MoreDirs, Opens;
    ghost var t := disk.tree;
    ghost var sure := disk.sound && Makeable(t, path, limit);
    ghost var m: nat := 0;
    if sure {
      m :| Opens(t, path, m, limit);
    }
    NoneMade(t, path, limit);
    for i := 1 to |path| + 1
      invariant Valid(disk.tree) && MoreDirs(t, disk.tree) && OnWay(t, disk.tree, path, limit)
      invariant var w := RealPath(disk.tree, path[..i - 1], limit); i > 1 && w.Found? ==> IsDir(disk.tree, w.p)
      invariant sure ==> Opens(disk.tree, path, m, limit) && m >= i - 1
    {
      var part := path[..i];
      var there := RealPath(disk.tree, part, limit);
      ghost var u := disk.tree;
      if sure {
        OpensPart(u, path, m, i, limit);
      }
      if there.Found? {
        if !IsDir(disk.tree, there.p) {
          return false;
        }
      } else {
        var e := MakeDir(disk, part, limit);
        if e == Done {
          OneMoreDir(t, u, disk.tree, EntryAt(u, part, limit).value, path, i, limit);
          m := m + 1;
        } else if e != Exists {
          return false;
        }
      }
    }
    assert path[..|path|] == path;
    if sure {
      OpensAll(disk.tree, path, m, limit);
    }
    return true;
  }

  lemma NoneMade(t: Tree, path: Path, limit: nat)
    ensures MoreDirs(t, t) && OnWay(t, t, path, limit)
    ensures RealPath(t, [], limit) == Found([], limit)
  {
  }

  lemma OpensAll(t: Tree, path: Path, m: nat, limit: nat)
    requires Opens(t, path, m, limit) && m >= |path|
    ensures RealPath(t, path, limit).Found? && IsDir(t, RealPath(t, path, limit).p)
  {
    assert path[..m] == path;
  }

  // What one turn of the loop meets at its part of the path.
  lemma OpensPart(t: Tree, path: Path, m: nat, i: nat, limit: nat)
    requires Valid(t) && Opens(t, path, m, limit) && 0 < i <= |path| && m >= i - 1
    ensures m <= |path|
    ensures m >= i ==> RealPath(t, path[..i], limit).Found? && IsDir(t, RealPath(t, path[..i], limit).p)
    ensures m == i - 1 ==>
      && !RealPath(t, path[..i], limit).Found? && EntryAt(t, path[..i], limit).Some?
      && var p := EntryAt(t, path[..i], limit).value;
         p !in t && (LeadsTo(t[p := Dir], path[..i], p, limit) ==> Opens(t[p := Dir], path, m + 1, limit))
  {
    if m >= i {
      PartIsDir(t, path, m, i, limit);
    } else {
      OpensFurther(t, path, m, limit);
      PastTheEnd(t, path, m, i, limit);
    }
  }

  // clawt_ensure_dir: a link to a directory is as good as the directory. Only
  // missing directories on the way are made.
  method EnsureDir(disk: Disk, path: Path, limit: nat) returns (ok: bool)
    requires Valid(disk.tree)
    modifies disk
    ensures Valid(disk.tree) && MoreDirs(old(disk.tree), disk.tree) && OnWay(old(disk.tree), disk.tree, path, limit)
    ensures ok ==> RealPath(disk.tree, path, limit).Found? && IsDir(disk.tree, RealPath(disk.tree, path, limit).p)
    ensures disk.sound && Makeable(old(disk.tree), path, limit) ==> ok
  {
    hide Walk, EntryAt, OnWay, MoreDirs, Opens;
    ghost var t := disk.tree;
    NoneMade(t, path, limit);
    if m: nat :| Opens(t, path, m, limit) {
      if m >= |path| {
        OpensAll(t, path, m, limit);
      } else {
        OpensNotThere(t, path, m, limit);
        OpensPart(t, path, m, m + 1, limit);
        assert path[..|path|] == path;
      }
    }
    var e := MakeDir(disk, path, limit);
    if e == Done {
      assert path[..|path|] == path;
      OneMoreDir(t, t, disk.tree, EntryAt(t, path, limit).value, path, |path|, limit);
    } else if e == Exists {
      var there := RealPath(disk.tree, path, limit);
      if !there.Found? || !IsDir(disk.tree, there.p) {
        return false;
      }
    } else {
      var made := MakeParents(disk, path, limit);
      if !made {
        return false;
      }
    }
    var fails := disk.Fails();
    ok := !fails && RealPath(disk.tree, path, limit).Found?;
  }

  // ---------------------------------------------------------------------
  // Source and target kept apart.

  // What has to be made on the way to p lies above p.
  ghost predicate Direct(t: Tree, target: Path, p: Path, limit: nat) {
    forall k :: 0 <= k <= |target| ==>
      var q := Lead(t, [], target[..k], limit); q.Some? && q.value !in t ==> q.value <= p
  }

  // No link that the two paths go through is among the places copied to.
  ghost predicate Untouched(t: Tree, source: Path, target: Path, s: Path, p: Path, keepGit: bool, limit: nat) {
    forall q :: q in Taken(Below(t, s), keepGit) ==>
      p + q !in Trail(t, [], source, limit) && p + q !in Trail(t, [], target, limit)
  }

  // The source leads to one place and the target to another, neither inside the other.
  ghost predicate Separate(t: Tree, source: Path, target: Path, keepGit: bool, limit: nat) {
    var from, to := RealPath(t, source, limit), Lead(t, [], target, limit);
    && from.Found? && to.Some? && Apart(from.p, to.value)
    && Direct(t, target, to.value, limit)
    && Untouched(t, source, target, from.p, to.value, keepGit, limit)
  }

  // Once both directories are there: s is the source's and p the target's, and no
  // directory to be copied meets a link.
  ghost predicate Calm(t: Tree, source: Path, target: Path, s: Path, p: Path, keepGit: bool, limit: nat) {
    && LeadsTo(t, source, s, limit) && LeadsTo(t, target, p, limit) && Apart(s, p)
    && Unlinked(Below(t, s), Below(t, p), keepGit)
    && Untouched(t, source, target, s, p, keepGit, limit)
  }

  lemma TrailUnchanged(t: Tree, u: Tree, source: Path, target: Path, s: Path, p: Path, keepGit: bool, limit: nat,
                       done: set<string>, l: Path)
    requires Untouched(t, source, target, s, p, keepGit, limit) && Copying(t, u, s, p, keepGit, done)
    requires l in Trail(t, [], source, limit) || l in Trail(t, [], target, limit)
    ensures l in t ==> l in u && u[l] == t[l]
  {
    if l in t && Under(l, p) {
      var q := l[|p|..];
      assert l == p + q;
      assert q !in Taken(Below(t, s), keepGit);
      assert q in Below(t, p) && q in Below(u, p);
    }
  }

  // It stays calm while the copy goes on.
  lemma CalmStays(t: Tree, u: Tree, source: Path, target: Path, s: Path, p: Path, keepGit: bool, limit: nat,
                  done: set<string>)
    requires Calm(t, source, target, s, p, keepGit, limit)
    requires Copying(t, u, s, p, keepGit, done) && Settled(t, u)
    ensures Calm(u, source, target, s, p, keepGit, limit)
  {
    forall l | (l in Trail(t, [], source, limit) || l in Trail(t, [], target, limit)) && l in t
      ensures l in u && u[l] == t[l]
    {
      TrailUnchanged(t, u, source, target, s, p, keepGit, limit, done, l);
    }
    forall q | IsDir(t, q) ensures IsDir(u, q) {
      assert q in t;
    }
    WalkStays(t, u, [], source, limit);
    WalkStays(t, u, [], target, limit);
    StaysUnlinked(Below(t, s), keepGit, done, Below(t, p), Below(u, p));
  }

  // A child that is a directory is again kept apart from where it goes.
  lemma ChildSeparate(u: Tree, source: Path, target: Path, s: Path, p: Path, keepGit: bool, limit: nat, name: string)
    requires Valid(u) && Calm(u, source, target, s, p, keepGit, limit)
    requires IsDir(u, s + [name]) && IsName(name) && Kept([name], keepGit)
    ensures Separate(u, source + [name], target + [name], keepGit, limit)
    ensures RealPath(u, source + [name], limit).p == s + [name]
    ensures Lead(u, [], target + [name], limit) == Some(p + [name])
    ensures Unlinked(Below(u, s + [name]), Below(u, p + [name]), keepGit)
  {
    BelowIsChild(u, s, name);
    BelowIsChild(u, p, name);
    UnlinkedChild(Below(u, s), Below(u, p), keepGit, name, Below(u, s + [name]), Below(u, p + [name]));
    assert p + [name] in u ==> !u[p + [name]].Link? by {
      assert [name] in Below(u, s) && Below(u, s)[[name]].Dir?;
      assert [name] in Below(u, p) <==> p + [name] in u;
    }
    LeadOfChild(u, source, name, limit);
    LeadOfChild(u, target, name, limit);
    ChildrenApart(s, p, name);
    ChildDirect(u, target, p, limit, name);
    ChildUntouched(u, source, target, s, p, keepGit, limit, name);
  }

  lemma ChildDirect(u: Tree, target: Path, p: Path, limit: nat, name: string)
    requires Valid(u) && LeadsTo(u, target, p, limit)
    requires Lead(u, [], target + [name], limit) == Some(p + [name])
    ensures Direct(u, target + [name], p + [name], limit)
  {
    var to := target + [name];
    forall k | 0 <= k <= |to|
      ensures var q := Lead(u, [], to[..k], limit); q.Some? && q.value !in u ==> q.value <= p + [name]
    {
      if k <= |target| {
        assert to[..k] == target[..k];
        PrefixLeads(u, target, k, limit);
      } else {
        assert to[..k] == to;
      }
    }
  }

  lemma ChildUntouched(u: Tree, source: Path, target: Path, s: Path, p: Path, keepGit: bool, limit: nat, name: string)
    requires Untouched(u, source, target, s, p, keepGit, limit) && Kept([name], keepGit)
    requires Trail(u, [], source + [name], limit) == Trail(u, [], source, limit)
    requires Trail(u, [], target + [name], limit) == Trail(u, [], target, limit)
    ensures Untouched(u, source + [name], target + [name], s + [name], p + [name], keepGit, limit)
  {
    forall r | r in Taken(Below(u, s + [name]), keepGit)
      ensures (p + [name]) + r !in Trail(u, [], source, limit) && (p + [name]) + r !in Trail(u, [], target, limit)
    {
      KeptIn(name, r, keepGit);
      BelowChild(u, s, name, r);
      assert In(name, r) in Taken(Below(u, s), keepGit);
      assert p + In(name, r) == (p + [name]) + r;
    }
  }

  // After clawt_ensure_dir, with what was there before.
  lemma CalmStarts(t: Tree, u: Tree, source: Path, target: Path, keepGit: bool, limit: nat)
    requires Valid(t) && Valid(u) && Separate(t, source, target, keepGit, limit)
    requires MoreDirs(t, u) && OnWay(t, u, target, limit)
    ensures var s, p := RealPath(t, source, limit).p, Lead(t, [], target, limit).value;
      && Around(t, u, p) && Below(u, s) == Below(t, s)
      && (forall r :: r != [] ==> AgreeAt(Below(u, p), Below(t, p), r))
      && OnlyTaken(Below(t, s), keepGit, Below(t, p), Below(u, p))
    ensures var s, p := RealPath(t, source, limit).p, Lead(t, [], target, limit).value;
      && RealPath(u, source, limit) == RealPath(t, source, limit) && (IsDir(u, s) <==> IsDir(t, s))
      && (RealPath(u, target, limit).Found? ==> RealPath(u, target, limit).p == p)
  {
    var s, p := RealPath(t, source, limit).p, Lead(t, [], target, limit).value;
    forall q | q in u && q !in t ensures q <= p && u[q].Dir? {
      var k :| 0 <= k <= |target| && Lead(t, [], target[..k], limit) == Some(q);
    }
    MadeIsAround(t, u, p);
    AroundKeepsSource(t, u, s, p);
    WalkStands(t, [], source, limit);
    WalkInPart(u, t, [], source, limit);
    if RealPath(u, target, limit).Found? {
      WalkLeads(t, u, [], target, limit);
    }
  }

  lemma CalmOnceMade(t: Tree, u: Tree, source: Path, target: Path, s: Path, p: Path, keepGit: bool, limit: nat)
    requires Valid(t) && Separate(t, source, target, keepGit, limit) && MoreDirs(t, u)
    requires s == RealPath(t, source, limit).p && p == Lead(t, [], target, limit).value
    requires Unlinked(Below(t, s), Below(t, p), keepGit) && Below(u, s) == Below(t, s)
    requires forall r :: r != [] ==> AgreeAt(Below(u, p), Below(t, p), r)
    requires LeadsTo(u, source, s, limit) && LeadsTo(u, target, p, limit)
    ensures Calm(u, source, target, s, p, keepGit, limit)
  {
    WalkLeads(t, u, [], source, limit);
    WalkLeads(t, u, [], target, limit);
    assert p + [] == p;
    forall q | q in Below(t, s) && Kept(q, keepGit) && Below(t, s)[q].Dir? && q in Below(u, p)
      ensures !Below(u, p)[q].Link?
    {
      if q != [] {
        assert AgreeAt(Below(u, p), Below(t, p), q);
      }
    }
  }

  // ---------------------------------------------------------------------
  // The copy.

  // g_file_copy: one node, from and to the entries the paths name.
  method CopyNode(disk: Disk, from: Path, to: Path, limit: nat) returns (ok: bool)
    requires Valid(disk.tree)
    modifies disk
    ensures Valid(disk.tree) && Settled(old(disk.tree), disk.tree)
    ensures var a, b := EntryAt(old(disk.tree), from, limit), EntryAt(old(disk.tree), to, limit);
      && (ok ==>
            a.Some? && b.Some? && a.value in old(disk.tree) && !IsDir(old(disk.tree), a.value) &&
            disk.tree == old(disk.tree)[b.value := old(disk.tree)[a.value]])
      && (disk.tree != old(disk.tree) ==>
            b.Some? && !IsDir(old(disk.tree), b.value) && b.value in disk.tree &&
            disk.tree == old(disk.tree)[b.value := disk.tree[b.value]])
      && (disk.sound && a.Some? && b.Some? && a.value in old(disk.tree) && !IsDir(old(disk.tree), b.value) ==>
            old(disk.tree)[a.value].File? || old(disk.tree)[a.value].Link? ==> ok)
  {
    ghost var t := disk.tree;
    var a, b := EntryAt(disk.tree, from, limit), EntryAt(disk.tree, to, limit);
    if a.None? || b.None? {
      return false;
    }
    assert Parent(b.value) == RealPath(t, Parent(to), limit).p;
    ok := disk.CopyFile(a.value, b.value);
    if disk.tree != t {
      assert b.value == RealPath(t, Parent(to), limit).p + [Last(to)];
      CopiedNode(t, disk.tree, RealPath(t, Parent(to), limit).p, Last(to));
    }
  }

  // A directory that is not reached through a link of its own.
  predicate Descends(t: Tree, path: Path, limit: nat) {
    RealPath(t, path, limit).Found? && IsDir(t, RealPath(t, path, limit).p) && LinkAt(t, path, limit).None?
  }

  // An entry of source, which is not skipped. What is no directory goes to the entry
  // its path leads to, wherever that is.
  method CopyEntry(disk: Disk, source: Path, target: Path, name: string, keepGit: bool, limit: nat, longest: nat,
                   ghost s: Path, ghost p: Path, ghost calm: bool)
    returns (ok: bool, copied: nat)
    requires Valid(disk.tree) && IsName(name) && Kept([name], keepGit) && |target| <= longest
    requires calm ==> Calm(disk.tree, source, target, s, p, keepGit, limit) && s + [name] in disk.tree
    modifies disk
    ensures Valid(disk.tree) && Settled(old(disk.tree), disk.tree)
    ensures ok && !Descends(old(disk.tree), source + [name], limit) ==>
      var a, b := EntryAt(old(disk.tree), source + [name], limit), EntryAt(old(disk.tree), target + [name], limit);
      a.Some? && b.Some? && a.value in old(disk.tree) &&
      disk.tree == old(disk.tree)[b.value := old(disk.tree)[a.value]]
    ensures calm ==> SameOutside(old(disk.tree), disk.tree, p + [name])
    ensures calm ==>
      var x, y := Below(old(disk.tree), s + [name]), Below(old(disk.tree), p + [name]);
      OnlyTaken(x, keepGit, y, Below(disk.tree, p + [name])) &&
      (ok ==> Below(disk.tree, p + [name]) == y + Taken(x, keepGit) && copied == |Leaves(Taken(x, keepGit))|)
    ensures calm && disk.sound ==>
      Fitting(Below(old(disk.tree), s), Below(old(disk.tree), p), keepGit, longest - |target|) ==> ok
    decreases longest + 1 - |target|, 0
  {
    hide OnlyTaken, Taken, Leaves, Around, Unlinked, Untouched, Separate, SameOutside, Fitting, Makeable, Walk, Below;
    hide Settled, Lead, Trail;
    ghost var u := disk.tree;
    var from, to := source + [name], target + [name];
    if calm {
      LeadOfChild(u, source, name, limit);
      LeadOfChild(u, target, name, limit);
    }
    if Descends(disk.tree, from, limit) {
      if calm {
        ChildSeparate(u, source, target, s, p, keepGit, limit, name);
        ChildFits(u, target, s, p, keepGit, limit, longest - |target|, name);
      }
      ok, copied := CopyTree(disk, from, to, keepGit, limit, longest);
      if calm {
        AroundIsSame(u, disk.tree, p, name);
      }
    } else {
      ok := CopyNode(disk, from, to, limit);
      copied := if ok then 1 else 0;
      if calm {
        NodeFits(u, s, p, keepGit, longest - |target|, name);
        NodeDone(u, disk.tree, s, p, name, keepGit, ok);
      }
    }
  }

  lemma ChildOpens(u: Tree, target: Path, p: Path, limit: nat, name: string)
    requires LeadsTo(u, target, p, limit) && IsName(name) && (p + [name] in u ==> IsDir(u, p + [name]))
    ensures Makeable(u, target + [name], limit)
  {
    var path := target + [name];
    LeadOfChild(u, target, name, limit);
    assert path[..|target|] == target && path[|target|..] == [name] && path[..|path|] == path;
    assert Opens(u, path, |target|, limit) || Opens(u, path, |path|, limit);
  }

  lemma ChildFits(u: Tree, target: Path, s: Path, p: Path, keepGit: bool, limit: nat, room: int, name: string)
    requires Valid(u) && LeadsTo(u, target, p, limit) && IsDir(u, s + [name]) && IsName(name) && Kept([name], keepGit)
    ensures Fitting(Below(u, s), Below(u, p), keepGit, room) ==>
      && Fitting(Below(u, s + [name]), Below(u, p + [name]), keepGit, room - 1) && room >= 1
      && Makeable(u, target + [name], limit)
  {
    hide Makeable, LeadsTo, IsName, Walk;
    if Fitting(Below(u, s), Below(u, p), keepGit, room) {
      BelowIsChild(u, s, name);
      BelowIsChild(u, p, name);
      FittingChild(Below(u, s), Below(u, p), keepGit, room, name, Below(u, s + [name]), Below(u, p + [name]));
      assert [name] in Taken(Below(u, s), keepGit) && Below(u, s)[[name]].Dir?;
      assert FitsAt(Below(u, s), Below(u, p), room, [name]);
      assert [name] in Below(u, p) <==> p + [name] in u;
      ChildOpens(u, target, p, limit, name);
    }
  }

  lemma NodeFits(u: Tree, s: Path, p: Path, keepGit: bool, room: int, name: string)
    requires s + [name] in u && !IsDir(u, s + [name]) && Kept([name], keepGit)
    ensures Fitting(Below(u, s), Below(u, p), keepGit, room) ==>
      (u[s + [name]].File? || u[s + [name]].Link?) && !IsDir(u, p + [name])
  {
    assert [name] in Taken(Below(u, s), keepGit);
    assert [name] in Below(u, p) <==> p + [name] in u;
    assert Fitting(Below(u, s), Below(u, p), keepGit, room) ==> FitsAt(Below(u, s), Below(u, p), room, [name]);
  }

  lemma NodeDone(u: Tree, v: Tree, s: Path, p: Path, name: string, keepGit: bool, ok: bool)
    requires Valid(u) && IsDir(u, p) && IsName(name) && s + [name] in u && !IsDir(u, s + [name])
    requires v != u ==> !IsDir(u, p + [name]) && p + [name] in v && v == u[p + [name] := v[p + [name]]]
    requires ok ==> v == u[p + [name] := u[s + [name]]]
    ensures SameOutside(u, v, p + [name])
    ensures var x, y := Below(u, s + [name]), Below(u, p + [name]);
      OnlyTaken(x, keepGit, y, Below(v, p + [name])) &&
      (ok ==> Below(v, p + [name]) == y + Taken(x, keepGit) && |Leaves(Taken(x, keepGit))| == 1)
  {
    CopiedNode(u, v, p, name);
    if ok {
      OneNode(u, v, s, p, name, keepGit);
    }
  }

  // One turn of the loop over the listing of source.
  method CopyNext(disk: Disk, source: Path, target: Path, name: string, keepGit: bool, limit: nat, longest: nat,
                  ghost s: Path, ghost p: Path, ghost calm: bool, ghost t: Tree, ghost done: set<string>)
    returns (ok: bool, copied: nat)
    requires Valid(disk.tree) && Settled(t, disk.tree) && IsName(name) && |target| <= longest
    requires calm ==> Calm(t, source, target, s, p, keepGit, limit) && Copying(t, disk.tree, s, p, keepGit, done)
    requires calm ==> name !in done && name in Children(t, s)
    modifies disk
    ensures Valid(disk.tree) && Settled(t, disk.tree)
    ensures calm && ok ==> Copying(t, disk.tree, s, p, keepGit, done + {name})
    ensures calm && ok ==> |Leaves(TakenPart(Below(t, s), keepGit, done + {name}))| ==
                           |Leaves(TakenPart(Below(t, s), keepGit, done))| + copied
    ensures calm && !ok ==> Around(t, disk.tree, p) && Below(disk.tree, s) == Below(t, s) &&
                            OnlyTaken(Below(t, s), keepGit, Below(t, p), Below(disk.tree, p))
    ensures calm && disk.sound && Fitting(Below(t, s), Below(t, p), keepGit, longest - |target|) ==> ok
    decreases longest + 1 - |target|, 1
  {
    ghost var u := disk.tree;
    if !keepGit && name == ".git" {
      if calm {
        SkipChild(Below(t, s), keepGit, done, name);
      }
      return true, 0;
    }
    if calm {
      CalmStays(t, u, source, target, s, p, keepGit, limit, done);
      ChildWasThere(t, u, s, name);
      StaysFitting(Below(t, s), keepGit, done, Below(t, p), Below(u, p), longest - |target|);
    }
    ok, copied := CopyEntry(disk, source, target, name, keepGit, limit, longest, s, p, calm);
    SettledTransitive(t, u, disk.tree);
    if calm && ok {
      CountedOnce(t, s, keepGit, done, name);
      CopyingStep(t, u, disk.tree, s, p, keepGit, done, name);
    } else if calm {
      StaysAround(t, u, disk.tree, s, p, name);
      OnlyTakenPart(Below(t, s), keepGit, done, Below(t, p), Below(u, p));
      OnlyTakenStep(u, disk.tree, s, p, keepGit, Below(t, p), name);
    }
  }

  lemma SettledTransitive(t: Tree, u: Tree, v: Tree)
    requires Settled(t, u) && Settled(u, v)
    ensures Settled(t, v)
  {
  }

  // The loop, with the listing in any order.
  method CopyAll(disk: Disk, source: Path, target: Path, keepGit: bool, limit: nat, longest: nat, names: set<string>,
                 ghost s: Path, ghost p: Path, ghost calm: bool)
    returns (ok: bool, copied: nat)
    requires Valid(disk.tree) && |target| <= longest && forall n :: n in names ==> IsName(n)
    requires calm ==> Calm(disk.tree, source, target, s, p, keepGit, limit) && names == Children(disk.tree, s)
    requires calm ==> Copying(disk.tree, disk.tree, s, p, keepGit, {})
    requires calm ==> Leaves(TakenPart(Below(disk.tree, s), keepGit, {})) == {}
    modifies disk
    ensures Valid(disk.tree) && Settled(old(disk.tree), disk.tree)
    ensures calm && ok ==> Copying(old(disk.tree), disk.tree, s, p, keepGit, names)
    ensures calm && ok ==> copied == |Leaves(TakenPart(Below(old(disk.tree), s), keepGit, names))|
    ensures calm && !ok ==> Around(old(disk.tree), disk.tree, p) && Below(disk.tree, s) == Below(old(disk.tree), s)
    ensures calm && !ok ==>
      OnlyTaken(Below(old(disk.tree), s), keepGit, Below(old(disk.tree), p), Below(disk.tree, p))
    ensures calm && disk.sound ==>
      Fitting(Below(old(disk.tree), s), Below(old(disk.tree), p), keepGit, longest - |target|) ==> ok
    decreases longest + 1 - |target|, 2
  {
    hide Copying, Calm, Settled, OnlyTaken, TakenPart, Fitting;
    ghost var t := disk.tree;
    SettledItself(t);
    ok, copied := false, 0;
    var todo := names;
    ghost var done: set<string> := {};
    while todo != {}
      invariant Valid(disk.tree) && Settled(t, disk.tree)
      invariant todo <= names && done == names - todo
      invariant calm ==> Copying(t, disk.tree, s, p, keepGit, done)
      invariant calm ==> copied == |Leaves(TakenPart(Below(t, s), keepGit, done))|
      decreases todo
    {
      var name :| name in todo;
      OneMore(names, todo, done, name);
      var fine, more := CopyNext(disk, source, target, name, keepGit, limit, longest, s, p, calm, t, done);
      copied := copied + more;
      if !fine {
        return;
      }
      todo, done := todo - {name}, done + {name};
    }
    assert done == names;
    ok := true;
  }

  lemma SettledItself(t: Tree)
    ensures Settled(t, t)
    ensures forall p :: Around(t, t, p)
    ensures forall s, keepGit, d :: OnlyTaken(s, keepGit, d, d)
  {
  }

  lemma MadeIsSettled(t: Tree, u: Tree)
    requires MoreDirs(t, u)
    ensures Settled(t, u)
  {
  }

  lemma AroundItself(t: Tree, p: Path)
    ensures Around(t, t, p) && forall d: Tree, r: Path :: AgreeAt(d, d, r)
  {
  }

  lemma Beginning(t: Tree, u: Tree, s: Path, p: Path, keepGit: bool, room: int)
    requires Valid(u) && Apart(s, p) && IsDir(t, s) && IsDir(u, s) && IsDir(u, p)
    requires Around(t, u, p) && Below(u, s) == Below(t, s)
    requires forall r :: r != [] ==> AgreeAt(Below(u, p), Below(t, p), r)
    ensures Copying(t, u, s, p, keepGit, {}) && Copying(u, u, s, p, keepGit, {})
    ensures Leaves(TakenPart(Below(u, s), keepGit, {})) == {}
    ensures Fitting(Below(t, s), Below(t, p), keepGit, room) ==> Fitting(Below(u, s), Below(u, p), keepGit, room)
  {
    hide Copying, Leaves, TakenPart, Fitting, Below, Valid;
    AroundItself(u, p);
    CopyingStarts(t, u, s, p, keepGit);
    CopyingStarts(u, u, s, p, keepGit);
    assert s + [] == s && p + [] == p;
    NothingTakenYet(Below(u, s), keepGit);
    FittingOnceMade(Below(t, s), Below(t, p), Below(u, p), keepGit, room);
  }

  lemma NamesOfChildren(t: Tree, dir: Path)
    requires Valid(t)
    ensures forall n :: n in Children(t, dir) ==> IsName(n)
  {
    forall n | n in Children(t, dir) ensures IsName(n) {
      assert Sits(t, dir + [n]) && Last(dir + [n]) == n;
    }
  }

  // From the tree before clawt_ensure_dir to the end.
  lemma WholeCopy(t: Tree, u: Tree, v: Tree, s: Path, p: Path, keepGit: bool)
    requires Valid(t) && IsDir(t, s) && Copying(t, u, s, p, keepGit, {})
    requires Copying(u, v, s, p, keepGit, Children(u, s))
    ensures Around(t, v, p) && Below(v, s) == Below(t, s)
    ensures OnlyTaken(Below(t, s), keepGit, Below(t, p), Below(v, p))
    ensures Below(v, p) == Below(t, p) + Taken(Below(t, s), keepGit)
    ensures TakenPart(Below(u, s), keepGit, Children(u, s)) == Taken(Below(t, s), keepGit)
  {
    SameBelow(t, u, s);
    AllTaken(t, s, keepGit);
    OverlayTwice(Below(t, p), TakenPart(Below(t, s), keepGit, {}), Taken(Below(t, s), keepGit));
    OnlyTakenPart(Below(t, s), keepGit, Children(t, s), Below(t, p), Below(v, p));
  }

  lemma OverlayTwice(d: Tree, a: Tree, b: Tree)
    requires forall q :: q in a ==> q in b
    ensures (d + a) + b == d + b
  {
  }

  lemma FailedCopy(t: Tree, u: Tree, v: Tree, s: Path, p: Path, keepGit: bool)
    requires Copying(t, u, s, p, keepGit, {}) && Around(u, v, p)
    requires OnlyTaken(Below(u, s), keepGit, Below(u, p), Below(v, p))
    ensures Around(t, v, p)
    ensures OnlyTaken(Below(t, s), keepGit, Below(t, p), Below(v, p))
  {
    OnlyTakenPart(Below(t, s), keepGit, {}, Below(t, p), Below(u, p));
    OnlyTakenTwice(Below(t, s), keepGit, Below(t, p), Below(u, p), Below(v, p));
    AroundTwice(t, u, v, p);
  }

  lemma AroundTwice(t: Tree, u: Tree, v: Tree, p: Path)
    requires Around(t, u, p) && Around(u, v, p)
    ensures Around(t, v, p)
  {
  }

  lemma OnlyTakenTwice(s: Tree, keepGit: bool, d: Tree, e: Tree, f: Tree)
    requires OnlyTaken(s, keepGit, d, e) && OnlyTaken(s, keepGit, e, f)
    ensures OnlyTaken(s, keepGit, d, f)
  {
    forall q | q != [] && q !in Taken(s, keepGit) ensures AgreeAt(f, d, q) {
      assert AgreeAt(e, d, q) && AgreeAt(f, e, q);
    }
  }

  // clawt_copy_tree. Whatever the links, nothing disappears and nothing turns into
  // a directory or stops being one. With source and target kept apart, a copy that
  // succeeds has laid what is taken from the source over the target if and only if
  // no directory to be copied meets a link there; and when none does, whatever
  // happens, the source and everything away from the target are as they were, and
  // so is what the target holds that is not taken. No path of more than longest
  // components can be named.
  method CopyTree(disk: Disk, source: Path, target: Path, keepGit: bool, limit: nat, longest: nat)
    returns (ok: bool, copied: nat)
    requires Valid(disk.tree)
    modifies disk
    ensures Valid(disk.tree) && Settled(old(disk.tree), disk.tree)
    ensures Separate(old(disk.tree), source, target, keepGit, limit) ==>
      var s, p := RealPath(old(disk.tree), source, limit).p, Lead(old(disk.tree), [], target, limit).value;
      var from, to := Below(old(disk.tree), s), Below(old(disk.tree), p);
      && (ok ==> IsDir(old(disk.tree), s))
      && (ok ==> (Below(disk.tree, p) == to + Taken(from, keepGit) <==> Unlinked(from, to, keepGit)))
      && (Unlinked(from, to, keepGit) ==>
            && Around(old(disk.tree), disk.tree, p) && Below(disk.tree, s) == from
            && OnlyTaken(from, keepGit, to, Below(disk.tree, p))
            && (ok ==> copied == |Leaves(Taken(from, keepGit))|)
            // Path by path: what is taken arrives, every node but the directories is
            // counted, and everything else stays.
            && (ok ==> copied == |set q | q in from && (keepGit || ".git" !in q) && !from[q].Dir?|)
            && (ok ==> forall q ::
                  if q in from && (keepGit || ".git" !in q) then q in Below(disk.tree, p) && Below(disk.tree, p)[q] == from[q]
                  else AgreeAt(Below(disk.tree, p), to, q))
            && (disk.sound && IsDir(old(disk.tree), s) && Makeable(old(disk.tree), target, limit) ==>
                  |target| <= longest && Fitting(from, to, keepGit, longest - |target|) ==> ok))
    decreases if |target| <= longest then longest + 1 - |target| else 0, 3
  {
    hide Copying, Calm, Settled, OnlyTaken, Around, Unlinked, Taken, TakenPart, Fitting, Makeable;
    hide Direct, Untouched, Below, Children, Trail, Lead, Walk, Leaves;
    ghost var t := disk.tree;
    SettledItself(t);
    ok, copied := false, 0;
    if |target| > longest {
      return;
    }
    var made := EnsureDir(disk, target, limit);
    ghost var u := disk.tree;
    MadeIsSettled(t, u);
    if Separate(t, source, target, keepGit, limit) {
      CalmStarts(t, u, source, target, keepGit, limit);
    }
    var from := RealPath(disk.tree, source, limit);
    if !made || !from.Found? || !IsDir(disk.tree, from.p) {
      return;
    }
    ghost var s, p := from.p, RealPath(disk.tree, target, limit).p;
    ghost var calm := Separate(t, source, target, keepGit, limit) &&
      RealPath(t, source, limit).p == s && Unlinked(Below(t, s), Below(t, p), keepGit);
    var names := Children(disk.tree, from.p);
    NamesOfChildren(u, from.p);
    if calm {
      CalmOnceMade(t, u, source, target, s, p, keepGit, limit);
      Beginning(t, u, s, p, keepGit, longest - |target|);
    }
    ok, copied := CopyAll(disk, source, target, keepGit, limit, longest, names, s, p, calm);
    SettledTransitive(t, u, disk.tree);
    if calm && ok {
      WholeCopy(t, u, disk.tree, s, p, keepGit);
      OverlayMeans(Below(t, s), Below(t, p), keepGit);
    } else if calm {
      FailedCopy(t, u, disk.tree, s, p, keepGit);
    } else if Separate(t, source, target, keepGit, limit) {
      LinkedIsNeverOverlaid(t, disk.tree, s, p, keepGit);
    }
  }

  // ---------------------------------------------------------------------
  // When the hypotheses hold, and what happens when they do not.

  lemma {:induction false} LeadThroughNames(t: Tree, at: Path, names: Path, budget: nat)
    requires Valid(t) && AreNames(names) && (at in t ==> IsDir(t, at))
    requires names != [] ==> at + names[..1] !in t
    ensures Lead(t, at, names, budget) == Some(at + names)
    decreases |names|
  {
    if names == [] {
      assert at + names == at;
    } else {
      var q, rest := at + [names[0]], names[1..];
      assert names[..1] == [names[0]];
      if rest != [] && q + rest[..1] in t {
        AncestorIsDir(t, q, rest[..1]);
      }
      LeadThroughNames(t, q, rest, budget);
      assert q + rest == at + names;
    }
  }

  // A path whose first part leads to a directory, and whose other names are not
  // there yet, is direct; so is any path that leads to a directory.
  lemma NamesAreDirect(t: Tree, target: Path, k: nat, limit: nat)
    requires Valid(t) && k <= |target| && AreNames(target[k..])
    requires RealPath(t, target[..k], limit).Found? && IsDir(t, RealPath(t, target[..k], limit).p)
    requires k < |target| ==> RealPath(t, target[..k], limit).p + [target[k]] !in t
    ensures var p := RealPath(t, target[..k], limit).p + target[k..];
      Lead(t, [], target, limit) == Some(p) && Direct(t, target, p, limit)
  {
    var w := RealPath(t, target[..k], limit);
    forall j | k <= j <= |target| ensures Lead(t, [], target[..j], limit) == Some(w.p + target[k..j]) {
      assert target[..j] == target[..k] + target[k..j];
      LeadAppend(t, [], target[..k], target[k..j], limit);
      assert j > k ==> target[k..j][..1] == [target[k]];
      LeadThroughNames(t, w.p, target[k..j], w.budget);
    }
    assert target[..|target|] == target && target[k..|target|] == target[k..];
    forall j | 0 <= j < k ensures Lead(t, [], target[..j], limit).Some? && Lead(t, [], target[..j], limit).value in t {
      assert target[..k][..j] == target[..j];
      PrefixLeads(t, target[..k], j, limit);
    }
  }

  // A source "/S" with the file d/f, and a target "/T" where d is a link to "/out".
  const LINKED: Tree := map[
    [] := Dir, ["S"] := Dir, ["S", "d"] := Dir, ["S", "d", "f"] := File("x"),
    ["T"] := Dir, ["T", "d"] := Link("/out"), ["out"] := Dir
  ]

  lemma LinkedIsValid()
    ensures Valid(LINKED)
  {
    SitsUnder(LINKED, [], "S");
    SitsUnder(LINKED, [], "T");
    SitsUnder(LINKED, [], "out");
    SitsUnder(LINKED, ["S"], "d");
    SitsUnder(LINKED, ["S", "d"], "f");
    SitsUnder(LINKED, ["T"], "d");
    assert [] + ["S"] == ["S"] && [] + ["T"] == ["T"] && [] + ["out"] == ["out"];
    assert ["S"] + ["d"] == ["S", "d"] && ["T"] + ["d"] == ["T", "d"] && ["S", "d"] + ["f"] == ["S", "d", "f"];
    assert forall p :: p in LINKED ==>
      p in {[], ["S"], ["S", "d"], ["S", "d", "f"], ["T"], ["T", "d"], ["out"]};
  }

  // A name below the top that is no link.
  lemma OneStep(name: string, limit: nat)
    requires name in {"S", "T", "out"}
    ensures LeadsTo(LINKED, [name], [name], limit) && RealPath(LINKED, [name], limit) == Found([name], limit)
    ensures Trail(LINKED, [], [name], limit) == {}
  {
    assert [] + [name] == [name] && [name][1..] == [];
    assert Walk(LINKED, [name], [], limit) == Found([name], limit);
  }

  lemma SourceChild(limit: nat)
    ensures RealPath(LINKED, ["S", "d"], limit) == Found(["S", "d"], limit)
    ensures Trail(LINKED, [], ["S", "d"], limit) == {}
  {
    OneStep("S", limit);
    assert ["S"] + ["d"] == ["S", "d"];
    LeadOfChild(LINKED, ["S"], "d", limit);
  }

  lemma LinkStep(limit: nat)
    requires limit >= 1
    ensures Walk(LINKED, ["T"], ["d"], limit) == Walk(LINKED, [], ["", "out"], limit - 1)
    ensures Trail(LINKED, ["T"], ["d"], limit) == {["T", "d"]} + Trail(LINKED, [], ["", "out"], limit - 1)
  {
    TargetParts();
    var parts := ["", "out"];
    assert ["T"] + ["d"] == ["T", "d"] && ["d"][1..] == [] && parts + [] == parts;
  }

  lemma LinkChild(limit: nat)
    requires limit >= 1
    ensures RealPath(LINKED, ["T", "d"], limit) == Found(["out"], limit - 1)
    ensures Trail(LINKED, [], ["T", "d"], limit) == {["T", "d"]}
  {
    OneStep("T", limit);
    OneStep("out", limit - 1);
    LinkStep(limit);
    assert ["", "out"][1..] == ["out"] && ["T"] + ["d"] == ["T", "d"];
    WalkAppend(LINKED, [], ["T"], ["d"], limit);
    LeadAppend(LINKED, [], ["T"], ["d"], limit);
  }

  lemma LinkedMeet(keepGit: bool)
    ensures !Unlinked(Below(LINKED, ["S"]), Below(LINKED, ["T"]), keepGit)
  {
    assert ["S"] + ["d"] == ["S", "d"] && ["T"] + ["d"] == ["T", "d"];
    assert ["d"] in Below(LINKED, ["S"]) && ["d"] in Below(LINKED, ["T"]) && Kept(["d"], keepGit);
  }

  lemma OutsideHasNoLinks(keepGit: bool)
    ensures Unlinked(Below(LINKED, ["S", "d"]), Below(LINKED, ["out"]), keepGit)
  {
    forall q | q in Below(LINKED, ["out"]) ensures !Below(LINKED, ["out"])[q].Link? {
      assert (["out"] + q)[0] == "out";
    }
  }

  // Source and target are kept apart, and still no copy makes the target the overlay.
  lemma CopyEscapes(keepGit: bool, limit: nat)
    requires limit >= 1
    ensures Valid(LINKED) && Separate(LINKED, ["S"], ["T"], keepGit, limit)
    ensures !Unlinked(Below(LINKED, ["S"]), Below(LINKED, ["T"]), keepGit)
    ensures forall u :: Settled(LINKED, u) ==>
      Below(u, ["T"]) != Below(LINKED, ["T"]) + Taken(Below(LINKED, ["S"]), keepGit)
  {
    LinkedIsValid();
    OneStep("S", limit);
    OneStep("T", limit);
    assert ["T"][..1] == ["T"] && ["T"][1..] == [] && ["T"] + [] == ["T"];
    NamesAreDirect(LINKED, ["T"], 1, limit);
    LinkedMeet(keepGit);
    forall u | Settled(LINKED, u)
      ensures Below(u, ["T"]) != Below(LINKED, ["T"]) + Taken(Below(LINKED, ["S"]), keepGit)
    {
      LinkedIsNeverOverlaid(LINKED, u, ["S"], ["T"], keepGit);
    }
  }

  lemma EscapeLeads(limit: nat)
    requires limit >= 1
    ensures Lead(LINKED, [], ["T", "d"], limit) == Some(["out"]) && Direct(LINKED, ["T", "d"], ["out"], limit)
    ensures EntryAt(LINKED, ["T", "d", "f"], limit) == Some(["out", "f"])
  {
    LinkedIsValid();
    LinkChild(limit);
    assert ["T", "d"][..2] == ["T", "d"] && ["T", "d"][2..] == [] && ["out"] + [] == ["out"];
    NamesAreDirect(LINKED, ["T", "d"], 2, limit);
    assert ["T", "d"] + ["f"] == ["T", "d", "f"] && ["out"] + ["f"] == ["out", "f"];
    LeadOfChild(LINKED, ["T", "d"], "f", limit);
  }

  // What the copy does for d is overlay "/out": the file goes to "/out/f".
  lemma WhereItEscapesTo(keepGit: bool, limit: nat)
    requires limit >= 1
    ensures Separate(LINKED, ["S", "d"], ["T", "d"], keepGit, limit)
    ensures Lead(LINKED, [], ["T", "d"], limit) == Some(["out"]) && !Under(["out"], ["T"])
    ensures Unlinked(Below(LINKED, ["S", "d"]), Below(LINKED, ["out"]), keepGit)
    ensures EntryAt(LINKED, ["T", "d", "f"], limit) == Some(["out", "f"])
  {
    SourceChild(limit);
    LinkChild(limit);
    EscapeLeads(limit);
    OutsideHasNoLinks(keepGit);
    forall q ensures ["out"] + q != ["T", "d"] {
      assert (["out"] + q)[0] == "out";
    }
  }
}
