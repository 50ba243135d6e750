// Removing a tree, fenced by a root (src/clawt-util.c, clawt_remove_tree).

module RemoveTree {
  import opened Options
  import opened Strings
  import opened Files
  import opened Resolve
  import P = Paths

  // Components without separators, as a path string has them.
  predicate Plain(path: Path) {
    P.AreParts(path)
  }

  // Where a call acts: on a link itself, or else where the kernel's walk of the
  // canonical path leads, which for unlink is the entry and not what it links to.
  function Aim(t: Tree, path: Path, limit: nat): Option<Path> {
    var link, resolved := LinkAt(t, path, limit), Canonical(t, path, limit);
    if link.Some? then link
    else
      var walked := RealPath(t, resolved, limit);
      if !walked.Found? then None
      else if IsDir(t, walked.p) then Some(walked.p)
      else EntryAt(t, resolved, limit)
  }

  // What the fence is tested on: for a link, the directory it sits in.
  function Tested(t: Tree, path: Path, limit: nat): Path {
    var link := LinkAt(t, path, limit);
    if link.Some? then Parent(link.value) else Canonical(t, path, limit)
  }

  // Whether the fence lets it go.
  predicate Fenced(t: Tree, path: Path, root: Path, limit: nat) {
    root <= Tested(t, path, limit)
  }

  // The fence lets the path go, and yet what the call removes lies outside it: a
  // node, or an empty directory.
  predicate Strays(t: Tree, path: Path, root: Path, limit: nat) {
    && LinkAt(t, path, limit).None? && Fenced(t, path, root, limit)
    && var aim := Aim(t, path, limit);
       && aim.Some? && !(root <= aim.value)
       && (IsDir(t, aim.value) ==>
             aim.value != [] && Children(t, aim.value) == {} &&
             EntryAt(t, Canonical(t, path, limit), limit) == aim)
  }

  ghost function Extent(t: Tree, path: Path, limit: nat): set<Path> {
    var aim := Aim(t, path, limit);
    if aim.Some? then Subtree(t, aim.value) else {}
  }

  // Between two trees, only things at and below p have gone, and nothing is new
  // or different.
  ghost predicate Pruned(t: Tree, u: Tree, p: Path) {
    PartOf(u, t) && forall q :: q in t && q !in u ==> Under(q, p)
  }

  ghost predicate Gone(u: Tree, p: Path) {
    forall q :: Under(q, p) ==> q !in u
  }

  lemma PrunedTransitive(t: Tree, u: Tree, v: Tree, p: Path, q: Path)
    requires Pruned(t, u, p) && Pruned(u, v, q) && Under(q, p)
    ensures Pruned(t, v, p)
  {
  }

  lemma {:induction false} CanonicalIsPlain(t: Tree, path: Path, limit: nat)
    requires Valid(t) && Plain(path)
    ensures Plain(Canonical(t, path, limit))
    decreases |path|
  {
    if RealPath(t, path, limit).Found? {
      WalkStands(t, [], path, limit);
      PathsAreNames(t, RealPath(t, path, limit).p);
    } else if path != [] {
      CanonicalIsPlain(t, Parent(path), limit);
    }
  }

  // A path that resolves, or leads nowhere, is acted on where it says.
  lemma AimOfResolved(t: Tree, path: Path, limit: nat)
    requires Valid(t) && LinkAt(t, path, limit).None? && !RealPath(t, path, limit).TooManyLinks?
    ensures Aim(t, path, limit) ==
      if RealPath(t, path, limit).Found? then Some(RealPath(t, path, limit).p) else None
    ensures RealPath(t, path, limit).Found? ==> Canonical(t, path, limit) == RealPath(t, path, limit).p
  {
    CanonicalOfMissing(t, path, limit);
    if RealPath(t, path, limit).Found? {
      WalkStands(t, [], path, limit);
      CanonicalEntry(t, RealPath(t, path, limit).p, limit);
    }
  }

  // A canonical path is its own entry.
  lemma CanonicalEntry(t: Tree, p: Path, limit: nat)
    requires Valid(t) && p in t
    ensures p != [] ==> EntryAt(t, p, limit) == Some(p)
  {
    if p != [] {
      assert Sits(t, p);
      RealPathOfCanonical(t, Parent(p), limit);
      assert Parent(p) + [Last(p)] == p;
    }
  }

  // Only a path with too many links can stray.
  lemma StraysPastTheLimit(t: Tree, path: Path, root: Path, limit: nat)
    requires Valid(t) && Strays(t, path, root, limit)
    ensures RealPath(t, path, limit).TooManyLinks?
  {
    if !RealPath(t, path, limit).TooManyLinks? {
      AimOfResolved(t, path, limit);
    }
  }

  // A dot entry at the end of a path leads to a directory.
  lemma DotsLeadToDirs(t: Tree, path: Path, limit: nat)
    requires Valid(t) && path != [] && RealPath(t, path, limit).Found?
    ensures IsName(Last(path)) || IsDir(t, RealPath(t, path, limit).p)
  {
    var init, c := Parent(path), Last(path);
    assert path == init + [c] && [c][1..] == [];
    WalkAppend(t, [], init, [c], limit);
    var dir := RealPath(t, init, limit).p;
    if dir != [] {
      assert Sits(t, dir);
    }
    assert Parent(dir + [c]) == dir && Last(dir + [c]) == c;
    assert dir + [c] in t ==> Sits(t, dir + [c]);
  }

  // So a walk that ends on something other than a directory ends through an entry.
  lemma NodeHasEntry(t: Tree, path: Path, limit: nat)
    requires Valid(t) && RealPath(t, path, limit).Found? && !IsDir(t, RealPath(t, path, limit).p)
    ensures EntryAt(t, path, limit).Some?
    ensures var e := EntryAt(t, path, limit).value; e in t && !IsDir(t, e)
  {
    assert path != [];
    DotsLeadToDirs(t, path, limit);
    var init, c := Parent(path), Last(path);
    assert path == init + [c] && [c][1..] == [];
    WalkAppend(t, [], init, [c], limit);
  }

  // A child of a directory that a path leads to, also after other parts of the
  // tree have gone.
  lemma AimOfChild(t: Tree, u: Tree, path: Path, p: Path, name: string, limit: nat)
    requires Valid(t) && Valid(u) && PartOf(u, t) && IsName(name)
    requires RealPath(t, path, limit).Found? && RealPath(t, path, limit).p == p && IsDir(u, p)
    ensures !RealPath(u, path + [name], limit).TooManyLinks? || LinkAt(u, path + [name], limit).Some?
    ensures Aim(u, path + [name], limit) in {None, Some(p + [name])}
    ensures LinkAt(u, path + [name], limit) in {None, Some(p + [name])}
  {
    var q := path + [name];
    assert Parent(q) == path && Last(q) == name && [name][1..] == [];
    WalkOfPart(t, u, [], path, limit);
    WalkAppend(u, [], path, [name], limit);
    if LinkAt(u, q, limit).None? {
      AimOfResolved(u, q, limit);
    }
  }

  // A child of a canonical directory names itself.
  lemma ChildAim(t: Tree, p: Path, name: string, limit: nat)
    requires Valid(t) && IsDir(t, p) && p + [name] in t
    ensures Aim(t, p + [name], limit) == Some(p + [name]) && Plain(p + [name])
    ensures !RealPath(t, p + [name], limit).TooManyLinks? || LinkAt(t, p + [name], limit).Some?
    ensures forall root :: root <= p ==> Fenced(t, p + [name], root, limit)
  {
    var q := p + [name];
    assert Parent(q) == p && Last(q) == name;
    PathsAreNames(t, q);
    CanonicalEntry(t, q, limit);
    if !t[q].Link? {
      RealPathOfCanonical(t, q, limit);
      AimOfResolved(t, q, limit);
    }
  }

  lemma BelowIsThroughChild(u: Tree, p: Path, q: Path)
    requires Valid(u) && q in u && Under(q, p) && q != p
    ensures q[|p|] in Children(u, p)
  {
    var c := q[..|p| + 1];
    assert c == p + [q[|p|]];
    if |q| > |p| + 1 {
      PrefixIsDir(u, q, |p| + 1);
    } else {
      assert q == c;
    }
  }

  // An empty directory has nothing below it at all.
  lemma RemovedIsGone(u: Tree, p: Path)
    requires Valid(u) && Children(u, p) == {}
    ensures Gone(u - {p}, p)
  {
    forall q | Under(q, p) ensures q !in u - {p} {
      if q != p && q in u {
        BelowIsThroughChild(u, p, q);
      }
    }
  }

  // Success means the path itself leads nowhere any more, whatever it was.
  lemma GoneMeansNotFound(t: Tree, u: Tree, path: Path, limit: nat)
    requires Valid(t) && Valid(u) && PartOf(u, t)
    requires Aim(t, path, limit).Some? ==> Gone(u, Aim(t, path, limit).value)
    ensures !RealPath(u, path, limit).Found? && LinkAt(u, path, limit).None?
  {
    if RealPath(u, path, limit).Found? {
      WalkInPart(t, u, [], path, limit);
      WalkStands(u, [], path, limit);
      if LinkAt(t, path, limit).None? {
        AimOfResolved(t, path, limit);
        assert Under(RealPath(t, path, limit).p, RealPath(t, path, limit).p);
      } else {
        LinkWasThere(t, u, path, limit);
      }
    }
    if LinkAt(u, path, limit).Some? {
      WalkInPart(t, u, [], Parent(path), limit);
      assert Under(LinkAt(u, path, limit).value, LinkAt(u, path, limit).value);
    }
  }

  // What is found through a link is found no more once the link has gone.
  lemma LinkWasThere(t: Tree, u: Tree, path: Path, limit: nat)
    requires PartOf(u, t) && LinkAt(t, path, limit).Some? && RealPath(u, path, limit).Found?
    ensures LinkAt(t, path, limit).value in u
  {
    var init, c := Parent(path), Last(path);
    assert path == init + [c] && [c][0] == c;
    WalkAppend(u, [], init, [c], limit);
    WalkInPart(t, u, [], init, limit);
  }

  lemma Vanished(t: Tree, u: Tree, path: Path, limit: nat)
    requires Valid(t) && Valid(u)
    requires var aim := Aim(t, path, limit); if aim.None? then u == t else Pruned(t, u, aim.value) && Gone(u, aim.value)
    ensures !RealPath(u, path, limit).Found? && LinkAt(u, path, limit).None?
    ensures var aim := Aim(t, path, limit);
      aim.Some? ==>
        && (forall q :: q in u <==> q in t && !(aim.value <= q))
        && (aim.value in t && !IsDir(t, aim.value) ==> u == t - {aim.value})
  {
    GoneMeansNotFound(t, u, path, limit);
    var aim := Aim(t, path, limit);
    if aim.Some? && aim.value in t && !IsDir(t, aim.value) {
      forall q | q in t && aim.value <= q ensures q == aim.value {
        NothingBelowNode(t, aim.value, q);
      }
    }
  }

  lemma NothingBelowNode(t: Tree, p: Path, q: Path)
    requires Valid(t) && q in t && p <= q
    ensures q == p || IsDir(t, p)
  {
    assert q[..|p|] == p;
    if q != p {
      PrefixIsDir(t, q, |p|);
    }
  }

  // Where the call acts and what the fence asks, for a link and for a path that
  // resolves inside the root.
  lemma Certain(t: Tree, path: Path, root: Path, limit: nat)
    requires Valid(t)
    ensures var link := LinkAt(t, path, limit);
      link.Some? ==>
        && path != [] && link.value in t && !IsDir(t, link.value) && Aim(t, path, limit) == link
        && (Fenced(t, path, root, limit) <==> root <= Parent(link.value))
        && (root <= Parent(link.value) ==> Removable(t, path, root, limit))
    ensures var there := RealPath(t, path, limit);
      LinkAt(t, path, limit).None? && there.Found? && root <= there.p && there.p != [] ==>
        Aim(t, path, limit) == Some(there.p) && Removable(t, path, root, limit)
  {
    if LinkAt(t, path, limit).None? && RealPath(t, path, limit).Found? {
      AimOfResolved(t, path, limit);
    }
  }

  // clawt_remove_tree, with root canonical as its callers promise. The fence turned
  // away changes nothing. Otherwise only things at and below the aim go, so what
  // links inside point at stays; success leaves nothing there. Something outside the
  // root changes if and only if the path strays and the call succeeds.
  method RemoveTree(disk: Disk, path: Path, root: Path, limit: nat) returns (ok: bool)
    requires Valid(disk.tree) && Plain(path) && AreNames(root)
    modifies disk
    ensures Valid(disk.tree)
    ensures !Fenced(old(disk.tree), path, root, limit) ==> !ok && disk.tree == old(disk.tree)
    // The fence, in terms of what resolves: the place of the longest part that does,
    // and the rest as written. Where nothing is, it alone decides.
    ensures forall k: nat :: LinkAt(old(disk.tree), path, limit).None? && Deepest(old(disk.tree), path, k, limit) ==>
      var tested := RealPath(old(disk.tree), path[..k], limit).p + path[k..];
      && (!(root <= tested) ==> !ok && disk.tree == old(disk.tree))
      && (!RealPath(old(disk.tree), tested, limit).Found? ==> disk.tree == old(disk.tree) && (ok <==> root <= tested))
    ensures var aim := Aim(old(disk.tree), path, limit);
      if aim.None? then disk.tree == old(disk.tree) && (ok <==> Fenced(old(disk.tree), path, root, limit))
      else Pruned(old(disk.tree), disk.tree, aim.value) && (ok ==> Gone(disk.tree, aim.value))
    ensures SameOutside(old(disk.tree), disk.tree, root) <==> !(Strays(old(disk.tree), path, root, limit) && ok)
    ensures disk.sound && Removable(old(disk.tree), path, root, limit) ==> ok
    // The same for a link, which is fenced by where it sits; and what is certain to go.
    ensures var link := LinkAt(old(disk.tree), path, limit);
      link.Some? ==>
        && (!(root <= Parent(link.value)) ==> !ok && disk.tree == old(disk.tree))
        && (ok ==> disk.tree == old(disk.tree) - {link.value})
        && (disk.sound && root <= Parent(link.value) ==> ok)
    ensures var there := RealPath(old(disk.tree), path, limit);
      LinkAt(old(disk.tree), path, limit).None? && there.Found? && root <= there.p && there.p != [] ==>
        && (ok ==> forall q :: q in disk.tree <==> q in old(disk.tree) && !(there.p <= q))
        && (disk.sound ==> ok)
    // Success, in terms of the path alone: nothing is found there any more.
    ensures ok ==> !RealPath(disk.tree, path, limit).Found? && LinkAt(disk.tree, path, limit).None?
    decreases Extent(disk.tree, path, limit), 2
  {
    hide SameOutside, Gone, Pruned, Children, Walk, Subtree, Aim, Fenced, Strays, StraysTo, Removable;
    hide RealPath, LinkAt, Canonical, EntryAt, Deepest, Valid;
    ghost var t := disk.tree;
    NothingRemoved(t, root);
    Certain(t, path, root, limit);
    var rootText := P.Absolute(root);
    var link := LinkAt(disk.tree, path, limit);
    if link.Some? {
      OfLink(t, path, root, limit);
      var parent := CanonicalizeMissing(disk.tree, Parent(path), limit);
      P.WithinIsComponentPrefix(parent, root);
      if !P.PathIsWithin(Some(P.Absolute(parent)), Some(rootText)) {
        return false;
      }
      ok := RemoveNode(disk, parent + [Last(path)]);
      Missed(t, disk.tree, link.value, root);
      if ok { Vanished(t, disk.tree, path, limit); }
      return;
    }
    var resolved := CanonicalizeMissing(disk.tree, path, limit);
    ghost var k := CanonicalIsDeepest(t, path, limit);
    OfOther(t, path, root, limit);
    P.WithinIsComponentPrefix(resolved, root);
    if !P.PathIsWithin(Some(P.Absolute(resolved)), Some(rootText)) {
      return false;
    }
    var there := RealPath(disk.tree, resolved, limit);
    if !there.Found? {
      Vanished(t, t, path, limit);
      return true;
    }
    if !IsDir(disk.tree, there.p) {
      OfNode(t, path, root, limit);
      var entry := EntryAt(disk.tree, resolved, limit);
      ok := RemoveNode(disk, entry.value);
      Missed(t, disk.tree, entry.value, root);
      if ok { Vanished(t, disk.tree, path, limit); }
      return;
    }
    OfDirectory(t, path, root, limit);
    ok := RemoveDirectory(disk, resolved, there.p, root, limit);
    Missed(t, disk.tree, there.p, root);
    if ok { Vanished(t, disk.tree, path, limit); }
  }

  // The four cases, in the terms of the contract.
  lemma OfLink(t: Tree, path: Path, root: Path, limit: nat)
    requires Valid(t) && LinkAt(t, path, limit).Some?
    ensures var link, parent := LinkAt(t, path, limit).value, Canonical(t, Parent(path), limit);
      && link == parent + [Last(path)] && link in t && !IsDir(t, link) && P.AreParts(parent)
      && Aim(t, path, limit) == Some(link) && Extent(t, path, limit) == Subtree(t, link)
      && (Fenced(t, path, root, limit) <==> root <= parent) && (root <= parent ==> root <= link)
    ensures !Strays(t, path, root, limit)
    ensures Removable(t, path, root, limit) ==> Fenced(t, path, root, limit)
  {
    var link := LinkAt(t, path, limit).value;
    WalkStands(t, [], Parent(path), limit);
    PathsAreNames(t, Canonical(t, Parent(path), limit));
    assert Parent(link) == Canonical(t, Parent(path), limit) && Parent(link) <= link;
  }

  lemma OfOther(t: Tree, path: Path, root: Path, limit: nat)
    requires Valid(t) && Plain(path) && LinkAt(t, path, limit).None?
    ensures var resolved := Canonical(t, path, limit);
      && P.AreParts(resolved)
      && (Fenced(t, path, root, limit) <==> root <= resolved)
      && (!RealPath(t, resolved, limit).Found? ==> Aim(t, path, limit).None?)
    ensures !Fenced(t, path, root, limit) || Aim(t, path, limit).None? ==> !Strays(t, path, root, limit)
    ensures Removable(t, path, root, limit) ==> Fenced(t, path, root, limit)
  {
    CanonicalIsPlain(t, path, limit);
  }

  lemma OfNode(t: Tree, path: Path, root: Path, limit: nat)
    requires Valid(t) && LinkAt(t, path, limit).None? && Fenced(t, path, root, limit)
    requires var there := RealPath(t, Canonical(t, path, limit), limit); there.Found? && !IsDir(t, there.p)
    ensures var entry := EntryAt(t, Canonical(t, path, limit), limit);
      && entry.Some? && entry.value in t && !IsDir(t, entry.value) && Aim(t, path, limit) == entry
      && (Strays(t, path, root, limit) <==> !(root <= entry.value))
  {
    NodeHasEntry(t, Canonical(t, path, limit), limit);
  }

  lemma OfDirectory(t: Tree, path: Path, root: Path, limit: nat)
    requires Valid(t) && LinkAt(t, path, limit).None? && Fenced(t, path, root, limit)
    requires var there := RealPath(t, Canonical(t, path, limit), limit); there.Found? && IsDir(t, there.p)
    ensures var resolved := Canonical(t, path, limit);
      var p := RealPath(t, resolved, limit).p;
      && p in t && Aim(t, path, limit) == Some(p) && Extent(t, path, limit) == Subtree(t, p)
      && (Strays(t, path, root, limit) <==> StraysTo(t, resolved, p, root, limit))
      && (StraysTo(t, resolved, p, root, limit) ==> !(root <= p))
      && (Removable(t, path, root, limit) ==> Strays(t, path, root, limit) || resolved == p != [])
  {
    if !RealPath(t, path, limit).TooManyLinks? {
      AimOfResolved(t, path, limit);
    }
  }

  // What a call is certain to remove when no call fails for reasons of its own.
  predicate Removable(t: Tree, path: Path, root: Path, limit: nat) {
    Strays(t, path, root, limit) ||
    (Fenced(t, path, root, limit) && Aim(t, path, limit) != Some([]) &&
     (LinkAt(t, path, limit).Some? || !RealPath(t, path, limit).TooManyLinks?))
  }

  // unlink
  method RemoveNode(disk: Disk, p: Path) returns (ok: bool)
    requires Valid(disk.tree) && p in disk.tree && !IsDir(disk.tree, p)
    modifies disk
    ensures Valid(disk.tree) && Pruned(old(disk.tree), disk.tree, p) && (ok ==> Gone(disk.tree, p))
    ensures (!ok ==> disk.tree == old(disk.tree)) && (disk.sound ==> ok)
  {
    ghost var t := disk.tree;
    var e := disk.Unlink(p);
    if e != Done {
      return false;
    }
    RemoveKeepsValid(t, p);
    forall q | Under(q, p) ensures q !in disk.tree {
      if q != p && q in t {
        assert q == p + q[|p|..];
        AncestorIsDir(t, p, q[|p|..]);
      }
    }
    return true;
  }

  lemma NothingRemoved(t: Tree, root: Path)
    ensures SameOutside(t, t, root) && forall p :: Pruned(t, t, p)
  {
  }

  // What is missed outside the root after p has gone, or not.
  lemma Missed(t: Tree, u: Tree, p: Path, root: Path)
    requires p in t
    ensures Pruned(t, u, p) && root <= p ==> SameOutside(t, u, root)
    ensures Gone(u, p) && !(root <= p) ==> !SameOutside(t, u, root)
  {
    assert Under(p, p);
  }

  lemma SiblingsApart(p: Path, m: string, n: string)
    requires m != n
    ensures !Under(p + [m], p + [n])
  {
    assert (p + [m])[|p|] == m && (p + [n])[|p|] == n;
  }

  // Part way through the children of p: those in done are gone, and those in
  // todo have not been touched.
  ghost predicate Midway(t: Tree, u: Tree, p: Path, todo: set<string>, done: set<string>) {
    && Valid(u) && IsDir(u, p) && Pruned(t, u, p)
    && todo + done == Children(t, p)
    && (forall n :: n in todo ==> p + [n] in u)
    && (forall n :: n in done ==> Gone(u, p + [n]))
  }

  lemma MidwayStep(t: Tree, u: Tree, v: Tree, p: Path, todo: set<string>, done: set<string>, name: string)
    requires Midway(t, u, p, todo, done) && name in todo
    requires Valid(v) && Pruned(u, v, p + [name]) && Gone(v, p + [name])
    ensures Midway(t, v, p, todo - {name}, done + {name})
  {
    PrunedTransitive(t, u, v, p, p + [name]);
    assert !Under(p, p + [name]);
    forall n | n in todo - {name} ensures p + [n] in v {
      SiblingsApart(p, n, name);
    }
    forall n | n in done ensures Gone(v, p + [n]) {
      assert Gone(u, p + [n]);
    }
  }

  lemma MidwayEnd(t: Tree, u: Tree, p: Path, done: set<string>)
    requires Midway(t, u, p, {}, done)
    ensures Children(u, p) == {}
  {
    forall n ensures n !in Children(u, p) {
      assert Under(p + [n], p + [n]);
      if p + [n] in u {
        assert n in Children(t, p);
        assert n in done;
      }
    }
  }

  // One turn of the loop over the listing of p.
  method RemoveChild(disk: Disk, path: Path, p: Path, name: string, root: Path, limit: nat, ghost t: Tree) returns (ok: bool)
    requires Valid(t) && PartOf(disk.tree, t) && name in Children(t, p) && Subtree(disk.tree, p) <= Subtree(t, p)
    requires Valid(disk.tree) && IsDir(disk.tree, p) && AreNames(root) && Plain(path)
    requires RealPath(t, path, limit).Found? && RealPath(t, path, limit).p == p
    modifies disk
    ensures Valid(disk.tree) && Pruned(old(disk.tree), disk.tree, p + [name])
    ensures SameOutside(old(disk.tree), disk.tree, root)
    ensures path == p && p + [name] in old(disk.tree) && ok ==> Gone(disk.tree, p + [name])
    ensures path == p && p + [name] in old(disk.tree) && root <= p && disk.sound ==> ok
    decreases Subtree(t, p), 0
  {
    ghost var u := disk.tree;
    assert IsName(name) by {
      assert Sits(t, p + [name]) && Last(p + [name]) == name;
    }
    AimOfChild(t, u, path, p, name, limit);
    if Strays(u, path + [name], root, limit) {
      StraysPastTheLimit(u, path + [name], root, limit);
    }
    if path == p && p + [name] in u {
      ChildAim(u, p, name, limit);
    }
    SubtreeShrinks(t, u, p, name);
    assert Plain(path + [name]);
    ok := RemoveTree(disk, path + [name], root, limit);
  }

  // What RemoveDirectory makes of a path that leads outside the root.
  predicate StraysTo(t: Tree, path: Path, p: Path, root: Path, limit: nat) {
    !(root <= p) && p != [] && Children(t, p) == {} && EntryAt(t, path, limit) == Some(p)
  }

  // The directory at p, which path leads to: every child, in any listing order,
  // through the path, and then the directory itself.
  method RemoveDirectory(disk: Disk, path: Path, p: Path, root: Path, limit: nat) returns (ok: bool)
    requires Valid(disk.tree) && IsDir(disk.tree, p) && AreNames(root) && Plain(path) && root <= path
    requires RealPath(disk.tree, path, limit).Found? && RealPath(disk.tree, path, limit).p == p
    modifies disk
    ensures Valid(disk.tree) && Pruned(old(disk.tree), disk.tree, p) && (ok ==> Gone(disk.tree, p))
    ensures !StraysTo(old(disk.tree), path, p, root, limit) ==> SameOutside(old(disk.tree), disk.tree, root)
    ensures StraysTo(old(disk.tree), path, p, root, limit) && !ok ==> disk.tree == old(disk.tree)
    ensures disk.sound && StraysTo(old(disk.tree), path, p, root, limit) ==> ok
    ensures disk.sound && path == p != [] ==> ok
    decreases Subtree(disk.tree, p), 1
  {
    ghost var t := disk.tree;
    var listed := disk.OpenDir(p);
    if listed != Done {
      return false;
    }
    var todo := Children(disk.tree, p);
    ghost var done: set<string> := {};
    while todo != {}
      invariant Valid(disk.tree) && Pruned(t, disk.tree, p) && SameOutside(t, disk.tree, root)
      invariant IsDir(disk.tree, p) && todo <= Children(t, p)
      invariant Children(t, p) == {} ==> disk.tree == t
      invariant path == p ==> Midway(t, disk.tree, p, todo, done)
      decreases |todo|
    {
      var name :| name in todo;
      ghost var u := disk.tree;
      assert Subtree(u, p) <= Subtree(t, p);
      var removed := RemoveChild(disk, path, p, name, root, limit, t);
      PrunedTransitive(t, u, disk.tree, p, p + [name]);
      if !removed {
        return false;
      }
      if path == p {
        MidwayStep(t, u, disk.tree, p, todo, done, name);
      }
      todo := todo - {name};
      done := done + {name};
    }
    if path == p {
      MidwayEnd(t, disk.tree, p, done);
    }
    ok := RemoveEmptied(disk, path, p, root, limit, t);
  }

  lemma PrunedIsPart(t: Tree, u: Tree, p: Path)
    requires Pruned(t, u, p)
    ensures PartOf(u, t)
  {
  }

  lemma PrunedOnce(t: Tree, u: Tree, p: Path)
    requires Pruned(t, u, p)
    ensures Pruned(t, u - {p}, p)
  {
    assert Under(p, p);
  }

  // rmdir, on the entry the path names.
  method RemoveEmptied(disk: Disk, path: Path, p: Path, root: Path, limit: nat, ghost t: Tree) returns (ok: bool)
    requires Valid(t) && IsDir(t, p) && RealPath(t, path, limit).Found? && RealPath(t, path, limit).p == p
    requires Valid(disk.tree) && Pruned(t, disk.tree, p) && SameOutside(t, disk.tree, root)
    requires AreNames(root) && root <= path
    modifies disk
    ensures Valid(disk.tree) && Pruned(t, disk.tree, p) && (ok ==> Gone(disk.tree, p))
    ensures !StraysTo(t, path, p, root, limit) ==> SameOutside(t, disk.tree, root)
    ensures !ok ==> disk.tree == old(disk.tree)
    ensures disk.sound && old(disk.tree) == t && StraysTo(t, path, p, root, limit) ==> ok
    ensures disk.sound && path == p != [] && p in old(disk.tree) && Children(old(disk.tree), p) == {} ==> ok
  {
    hide SameOutside, Gone, Pruned, Walk;
    ghost var u := disk.tree;
    PrunedOnce(t, u, p);
    PrunedIsPart(t, u, p);
    var entry := EntryAt(disk.tree, path, limit);
    if path == p && p in u {
      CanonicalEntry(u, p, limit);
    }
    if entry.None? {
      return false;
    }
    var e := disk.Rmdir(entry.value);
    if e != Done {
      return false;
    }
    EntryOfPart(t, u, path, limit);
    RmdirKeepsValid(u, p);
    RemovedIsGone(u, p);
    if !StraysTo(t, path, p, root, limit) {
      EmptiedInside(t, u, path, p, root, limit);
    }
    return true;
  }

  // A directory entry in a part of the tree is where the path leads in the whole.
  lemma EntryOfPart(t: Tree, u: Tree, path: Path, limit: nat)
    requires Valid(t) && PartOf(u, t) && EntryAt(u, path, limit).Some? && IsDir(u, EntryAt(u, path, limit).value)
    ensures RealPath(u, path, limit).Found? && RealPath(t, path, limit) == RealPath(u, path, limit)
    ensures RealPath(t, path, limit).p == EntryAt(u, path, limit).value
    ensures EntryAt(t, path, limit) == EntryAt(u, path, limit)
  {
    var init, c := Parent(path), Last(path);
    assert path == init + [c] && [c][1..] == [];
    WalkAppend(u, [], init, [c], limit);
    WalkInPart(t, u, [], path, limit);
    WalkInPart(t, u, [], init, limit);
  }

  // A directory outside the root that was not empty cannot be emptied through a
  // path that still leads to it.
  lemma EmptiedInside(t: Tree, u: Tree, path: Path, p: Path, root: Path, limit: nat)
    requires Valid(t) && Valid(u) && PartOf(u, t) && SameOutside(t, u, root)
    requires AreNames(root) && root <= path && RealPath(u, path, limit).Found?
    requires EntryAt(t, path, limit) == Some(p) && IsDir(u, p) && p != [] && Children(u, p) == {}
    requires !StraysTo(t, path, p, root, limit)
    ensures root <= p && SameOutside(t, u - {p}, root)
  {
    if !(root <= p) {
      var name :| name in Children(t, p);
      assert p + [name] !in u;
      if root != p + [name] {
        ProperPrefix(root, p, name);
      }
      RootIsOnTheWay(u, path, p, name, limit);
    }
  }

  // No path leads anywhere through a name that is not there.
  lemma RootIsOnTheWay(u: Tree, path: Path, p: Path, name: string, limit: nat)
    requires Valid(u) && IsDir(u, p) && p + [name] <= path && p + [name] !in u && IsName(name)
    ensures !RealPath(u, path, limit).Found?
  {
    var rest := path[|p| + 1..];
    assert path == p + ([name] + rest);
    RealPathOfCanonical(u, p, limit);
    WalkAppend(u, [], p, [name] + rest, limit);
  }

  // ---------------------------------------------------------------------
  // Paths that stray exist, whatever the limit on links.

  const LEAKY: Tree := map[
    [] := Dir, ["R"] := Dir, ["R", "a"] := Link("."), ["R", "b"] := Link("/out"),
    ["out"] := Dir, ["out", "f"] := File("")
  ]

  function Leading(limit: nat): Path {
    ["R"] + P.Times(limit, "a")
  }

  lemma LeakyIsValid()
    ensures Valid(LEAKY)
  {
    SitsUnder(LEAKY, [], "R");
    SitsUnder(LEAKY, [], "out");
    SitsUnder(LEAKY, ["R"], "a");
    SitsUnder(LEAKY, ["R"], "b");
    SitsUnder(LEAKY, ["out"], "f");
    assert [] + ["R"] == ["R"] && [] + ["out"] == ["out"] && ["out"] + ["f"] == ["out", "f"];
    assert ["R"] + ["a"] == ["R", "a"] && ["R"] + ["b"] == ["R", "b"];
    assert forall p :: p in LEAKY ==> p in {[], ["R"], ["out"], ["R", "a"], ["R", "b"], ["out", "f"]};
  }

  // Each "a" uses up one link and leads back to "/R".
  lemma {:induction false} LoopsWalk(n: nat, rest: Path, budget: nat)
    requires n <= budget
    ensures Walk(LEAKY, ["R"], P.Times(n, "a") + rest, budget) == Walk(LEAKY, ["R"], rest, budget - n)
  {
    var todo := P.Times(n, "a") + rest;
    if n == 0 {
      assert todo == rest;
    } else {
      TargetParts();
      var less := P.Times(n - 1, "a") + rest;
      assert todo[0] == "a" && todo[1..] == less;
      assert ["R"] + ["a"] == ["R", "a"];
      assert ["."] + less == ["."] + less && (["."] + less)[1..] == less;
      LoopsWalk(n - 1, rest, budget - 1);
    }
  }

  lemma LeadingWalks(limit: nat, rest: Path)
    ensures RealPath(LEAKY, Leading(limit) + rest, limit) == Walk(LEAKY, ["R"], rest, 0)
  {
    var todo := Leading(limit) + rest;
    assert todo[0] == "R" && todo[1..] == P.Times(limit, "a") + rest;
    assert [] + ["R"] == ["R"];
    LoopsWalk(limit, rest, limit);
  }

  // As many harmless links as the kernel follows, and one more that leads out:
  // the path resolves to nothing, its canonical form is inside the root, and the
  // file removed is not.
  lemma StrayInput(limit: nat)
    requires limit >= 1
    ensures var path := Leading(limit) + ["b", "f"];
      Valid(LEAKY) && Plain(path) && Strays(LEAKY, path, ["R"], limit) &&
      Canonical(LEAKY, path, limit) == ["R", "b", "f"] && Aim(LEAKY, path, limit) == Some(["out", "f"])
  {
    var lead := Leading(limit);
    var mid, path := lead + ["b"], lead + ["b", "f"];
    LeadingWalks(limit, []);
    LeadingWalks(limit, ["b"]);
    LeadingWalks(limit, ["b", "f"]);
    TargetParts();
    assert lead + [] == lead && Parent(mid) == lead && Last(mid) == "b";
    assert Parent(path) == mid && Last(path) == "f";
    assert ["R"] + ["b"] == ["R", "b"];
    assert Canonical(LEAKY, lead, limit) == ["R"];
    assert Canonical(LEAKY, mid, limit) == ["R", "b"];
    assert ["R", "b"] + ["f"] == ["R", "b", "f"];
    LeakyWalk(limit);
    LeakyIsValid();
  }

  lemma LeakyLink(limit: nat)
    requires limit >= 1
    ensures RealPath(LEAKY, ["R", "b"], limit) == Found(["out"], limit - 1)
  {
    TargetParts();
    assert [] + ["R"] == ["R"] && ["R"] + ["b"] == ["R", "b"] && [] + ["out"] == ["out"];
    assert ["R", "b"][1..] == ["b"] && ["b"][1..] == [] && ["", "out"] + [] == ["", "out"];
    assert ["", "out"][1..] == ["out"] && ["out"][1..] == [];
    assert Walk(LEAKY, [], ["out"], limit - 1) == Found(["out"], limit - 1);
    assert Walk(LEAKY, [], ["", "out"], limit - 1) == Found(["out"], limit - 1);
    assert Walk(LEAKY, ["R"], ["b"], limit) == Walk(LEAKY, [], ["", "out"] + [], limit - 1);
  }

  lemma LeakyWalk(limit: nat)
    requires limit >= 1
    ensures RealPath(LEAKY, ["R", "b"], limit) == Found(["out"], limit - 1)
    ensures RealPath(LEAKY, ["R", "b", "f"], limit) == Found(["out", "f"], limit - 1)
    ensures EntryAt(LEAKY, ["R", "b", "f"], limit) == Some(["out", "f"])
  {
    LeakyLink(limit);
    assert ["R", "b", "f"] == ["R", "b"] + ["f"];
    WalkAppend(LEAKY, [], ["R", "b"], ["f"], limit);
    assert ["f"][1..] == [] && ["out"] + ["f"] == ["out", "f"];
    assert Walk(LEAKY, ["out"], ["f"], limit - 1) == Walk(LEAKY, ["out", "f"], [], limit - 1);
    assert Last(["R", "b", "f"]) == "f" && Parent(["R", "b", "f"]) == ["R", "b"];
  }
}
