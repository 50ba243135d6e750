// The file system the other modules act on: a flat map from canonical absolute
// paths (lists of names) to nodes, and the system calls as methods that may
// also fail for reasons of their own.

module Files {
  import opened Options
  import opened Strings

  type Path = seq<string>

  // Bytes are chars; Other is a socket, a pipe or a device.
  datatype Node = Dir | File(data: string) | Link(target: string) | Other

  type Tree = map<Path, Node>

  predicate IsDir(t: Tree, p: Path) {
    p in t && t[p].Dir?
  }

  predicate IsFile(t: Tree, p: Path) {
    p in t && t[p].File?
  }

  function Parent(p: Path): Path
    requires p != []
  {
    p[..|p| - 1]
  }

  function Last(p: Path): string
    requires p != []
  {
    p[|p| - 1]
  }

  predicate Sits(t: Tree, p: Path) {
    p != [] ==> IsName(Last(p)) && IsDir(t, Parent(p))
  }

  // The root is a directory, and everything else sits in a directory under a name.
  ghost predicate Valid(t: Tree) {
    IsDir(t, []) && forall p {:trigger Sits(t, p)} :: p in t ==> Sits(t, p)
  }

  // p is dir itself or lies below it.
  predicate Under(p: Path, dir: Path) {
    dir <= p
  }

  // What is at and below p.
  ghost function Subtree(t: Tree, p: Path): set<Path> {
    set q | q in t && Under(q, p)
  }

  function Children(t: Tree, dir: Path): (names: set<string>)
    ensures forall n :: n in names <==> dir + [n] in t
  {
    var below := set p | p in t && |p| == |dir| + 1 && dir <= p;
    assert forall n :: dir + [n] in t ==> dir + [n] in below && (dir + [n])[|dir|] == n;
    assert forall p :: p in below ==> p == dir + [p[|dir|]];
    set p | p in below :: p[|dir|]
  }

  lemma SitsUnder(t: Tree, dir: Path, name: string)
    requires IsDir(t, dir) && IsName(name)
    ensures Sits(t, dir + [name])
  {
    assert Parent(dir + [name]) == dir && Last(dir + [name]) == name;
  }

  // What a descriptor of the directory at base sees: paths relative to it.
  function Below(t: Tree, base: Path): (s: Tree)
    ensures forall q :: q in s <==> base + q in t
    ensures forall q :: q in s ==> s[q] == t[base + q]
  {
    assert forall q :: base + q in t ==> (base + q)[|base|..] == q;
    assert forall p :: p in t && base <= p ==> base + p[|base|..] == p;
    map q | q in (set p | p in t && base <= p :: p[|base|..]) :: t[base + q]
  }

  lemma BelowIsValid(t: Tree, base: Path)
    requires Valid(t) && IsDir(t, base)
    ensures Valid(Below(t, base))
  {
    var s := Below(t, base);
    assert base + [] == base;
    forall q | q in s && q != [] ensures IsName(Last(q)) && IsDir(s, Parent(q)) {
      assert Sits(t, base + q);
      assert Last(base + q) == Last(q) && Parent(base + q) == base + Parent(q);
    }
  }

  lemma BaseCancels(base: Path, p: Path, q: Path)
    ensures base + p == base + q <==> p == q
  {
    assert (base + p)[|base|..] == p && (base + q)[|base|..] == q;
  }

  lemma BelowUpdate(t: Tree, base: Path, q: Path, n: Node)
    ensures Below(t[base + q := n], base) == Below(t, base)[q := n]
    ensures SameOutside(t, t[base + q := n], base)
  {
    hide Below;
    var u := t[base + q := n];
    var x, y := Below(u, base), Below(t, base)[q := n];
    forall p ensures (p in x <==> p in y) && (p in x ==> x[p] == y[p]) {
      BaseCancels(base, p, q);
    }
    assert forall p :: p in x <==> p in y;
    forall p | !Under(p, base) ensures p != base + q {
      assert Under(base + q, base);
    }
  }

  lemma {:induction false} PrefixIsDir(t: Tree, p: Path, k: nat)
    requires Valid(t) && p in t && k < |p|
    ensures IsDir(t, p[..k])
    decreases |p|
  {
    assert Sits(t, p);
    if k < |p| - 1 {
      PrefixIsDir(t, Parent(p), k);
      assert Parent(p)[..k] == p[..k];
    }
  }

  // Whatever has something below it is a directory.
  lemma AncestorIsDir(t: Tree, p: Path, r: Path)
    requires Valid(t) && p + r in t && r != []
    ensures IsDir(t, p)
  {
    PrefixIsDir(t, p + r, |p|);
    assert (p + r)[..|p|] == p;
  }

  lemma {:induction false} PathsAreNames(t: Tree, p: Path)
    requires Valid(t) && p in t
    ensures AreNames(p)
    decreases |p|
  {
    if p != [] {
      assert Sits(t, p);
      PathsAreNames(t, Parent(p));
      assert forall i :: 0 <= i < |p| - 1 ==> p[i] == Parent(p)[i];
    }
  }

  lemma AddKeepsValid(t: Tree, dir: Path, name: string, n: Node)
    requires Valid(t) && dir + [name] !in t && IsName(name) && IsDir(t, dir)
    ensures Valid(t[dir + [name] := n])
  {
    var p := dir + [name];
    assert Parent(p) == dir && Last(p) == name;
    forall q | q in t ensures Sits(t[p := n], q) {
      assert Sits(t, q);
    }
  }

  lemma RewriteKeepsValid(t: Tree, p: Path, n: Node)
    requires Valid(t) && p in t && !t[p].Dir?
    ensures Valid(t[p := n])
  {
    forall q | q in t ensures Sits(t[p := n], q) {
      assert Sits(t, q);
    }
  }

  lemma RemoveKeepsValid(t: Tree, p: Path)
    requires Valid(t) && p in t && !t[p].Dir?
    ensures Valid(t - {p})
  {
    forall q | q in t - {p} ensures Sits(t - {p}, q) {
      assert Sits(t, q);
    }
  }

  lemma RmdirKeepsValid(t: Tree, p: Path)
    requires Valid(t) && p in t && p != [] && Children(t, p) == {}
    ensures Valid(t - {p})
  {
    forall q | q in t - {p} ensures Sits(t - {p}, q) {
      assert Sits(t, q);
      assert q != [] ==> q == Parent(q) + [Last(q)];
    }
  }

  // Nothing outside dir differs.
  ghost predicate SameOutside(t: Tree, u: Tree, dir: Path) {
    forall p :: !Under(p, dir) ==> (p in t <==> p in u) && (p in t ==> t[p] == u[p])
  }

  // Nothing differs but what is at p itself.
  ghost predicate OnlyAt(t: Tree, u: Tree, p: Path) {
    forall q :: q != p ==> (q in t <==> q in u) && (q in t ==> t[q] == u[q])
  }

  lemma SubtreeShrinks(t: Tree, u: Tree, p: Path, name: string)
    requires p in t && Subtree(u, p) <= Subtree(t, p)
    ensures Subtree(u, p + [name]) < Subtree(t, p)
  {
    assert p in Subtree(t, p) && p !in Subtree(u, p + [name]);
    forall q | q in Subtree(u, p + [name]) ensures q in Subtree(t, p) {
      assert q in Subtree(u, p);
    }
  }

  // t with everything at and below one path moved to another.
  function Renamed(t: Tree, from: Path, to: Path): Tree {
    map q | q in t.Keys + (set r | r in Below(t, from) :: to + r) &&
            (if Under(q, to) then from + q[|to|..] in t else q in t && !Under(q, from)) ::
      if Under(q, to) then t[from + q[|to|..]] else t[q]
  }

  predicate Apart(p: Path, q: Path) {
    !Under(p, q) && !Under(q, p)
  }

  lemma RenamedNodes(t: Tree, from: Path, to: Path)
    requires Apart(from, to)
    ensures Below(Renamed(t, from, to), to) == Below(t, from)
    ensures Below(Renamed(t, from, to), from) == map[]
    ensures forall q :: !Under(q, from) && !Under(q, to) ==>
      (q in Renamed(t, from, to) <==> q in t) && (q in t ==> Renamed(t, from, to)[q] == t[q])
  {
    var u := Renamed(t, from, to);
    forall r ensures (to + r in u <==> from + r in t) && (from + r in t ==> u[to + r] == t[from + r]) {
      assert (to + r)[|to|..] == r && Under(to + r, to);
      assert from + r in t ==> r in Below(t, from);
    }
    forall r ensures from + r !in u {
      assert Under(from + r, from);
      assert Under(from + r, to) ==> Under(from, to) || Under(to, from) by {
        if Under(from + r, to) {
          PrefixesCompare(from, to, from + r);
        }
      }
    }
  }

  lemma PrefixesCompare(a: Path, b: Path, p: Path)
    requires Under(p, a) && Under(p, b)
    ensures Under(a, b) || Under(b, a)
  {
  }

  lemma ProperPrefix(q: Path, p: Path, name: string)
    requires q <= p + [name] && q != p + [name]
    ensures q <= p
  {
    assert q == p[..|q|];
  }

  datatype Errno = Done | Exists | Missing | NotDir | NotEmpty | Failed

  // One read or write call: bytes moved, a signal, or an error.
  datatype Transfer = Moved(count: nat) | Interrupted | Broken

  // Beside p, under its name with a suffix: where g_file_set_contents works.
  predicate IsScratch(p: Path, q: Path) {
    p != [] && |q| == |p| && Parent(q) == Parent(p) && Last(p) + "." <= Last(q)
  }

  function Scratch(p: Path, suffix: string): (q: Path)
    requires p != []
    ensures IsScratch(p, q) && |Last(q)| == |Last(p)| + 1 + |suffix|
  {
    Parent(p) + [Last(p) + "." + suffix]
  }

  function Padding(n: nat): string {
    seq(n, _ => 'X')
  }

  // Some suffix is free: one that makes a name longer than any there is.
  lemma FreeScratch(taken: set<Path>, p: Path) returns (n: nat)
    requires p != []
    ensures Scratch(p, Padding(n)) !in taken
  {
    n := LongerNames(taken);
  }

  lemma {:induction false} LongerNames(taken: set<Path>) returns (n: nat)
    ensures forall q :: q in taken && q != [] ==> |Last(q)| <= n
  {
    if taken == {} {
      return 0;
    }
    var q :| q in taken;
    n := LongerNames(taken - {q});
    if q != [] && |Last(q)| > n {
      n := |Last(q)|;
    }
  }

  // Nothing differs but such files.
  ghost predicate OnlyScratch(t: Tree, u: Tree, p: Path) {
    forall q :: !IsScratch(p, q) ==> (q in t <==> q in u) && (q in t ==> t[q] == u[q])
  }

  class Disk {
    var tree: Tree
    const sound: bool         // no call fails for reasons of its own
    var interrupts: nat       // how many more transfers a signal may cut short
    ghost var history: seq<Tree>  // every tree there has been, oldest first

    constructor (t: Tree, sound: bool, signals: nat)
      ensures tree == t && this.sound == sound && interrupts == signals && history == [t]
    {
      tree := t;
      this.sound := sound;
      interrupts := signals;
      history := [t];
    }

    // Nothing but the tree decides what a call does.
    ghost predicate Smooth()
      reads this
    {
      sound && interrupts == 0
    }

    // Whether the next call fails for a reason of its own.
    method Fails() returns (f: bool)
      ensures sound ==> !f
    {
      f := *;
      f := f && !sound;
    }

    // mkdir
    method Mkdir(p: Path) returns (e: Errno)
      modifies this
      ensures interrupts == old(interrupts)
      ensures e == Done ==> p != [] && p !in old(tree) && IsDir(old(tree), Parent(p)) && tree == old(tree)[p := Dir]
      ensures e != Done ==> tree == old(tree)
      ensures e == Exists <==> p in old(tree)
      ensures p != [] && IsDir(old(tree), Parent(p)) ==> e in {Done, Exists, Failed}
      ensures history == old(history) + [tree]
      ensures sound ==> e != Failed
    {
      var fails := Fails();
      if p in tree {
        e := Exists;
      } else if p == [] || !IsDir(tree, Parent(p)) {
        e := Missing;
      } else if fails {
        e := Failed;
      } else {
        tree := tree[p := Dir];
        e := Done;
      }
      history := history + [tree];
    }

    // open with O_DIRECTORY | O_NOFOLLOW
    method OpenDir(p: Path) returns (e: Errno)
      ensures e == Done ==> IsDir(tree, p)
      ensures e == NotDir ==> p in tree && !IsDir(tree, p)
      ensures IsDir(tree, p) ==> e in {Done, Failed}
      ensures p in tree ==> e in {Done, NotDir, Failed}
      ensures p !in tree ==> e in {Missing, Failed}
      ensures sound ==> e != Failed
    {
      var fails := Fails();
      if fails {
        e := Failed;
      } else {
        e := if p !in tree then Missing else if tree[p].Dir? then Done else NotDir;
      }
    }

    // open with O_CREAT | O_EXCL
    method CreateExclusive(p: Path) returns (e: Errno)
      requires p != [] && IsDir(tree, Parent(p))
      modifies this
      ensures interrupts == old(interrupts)
      ensures e == Done ==> p !in old(tree) && tree == old(tree)[p := File("")]
      ensures e != Done ==> tree == old(tree)
      ensures e == Exists <==> p in old(tree)
      ensures e in {Done, Exists, Failed}
      ensures history == old(history) + [tree]
      ensures sound ==> e != Failed
    {
      var fails := Fails();
      if p in tree {
        e := Exists;
      } else if fails {
        e := Failed;
      } else {
        tree := tree[p := File("")];
        e := Done;
      }
      history := history + [tree];
    }

    // write: appends some front part of data to the file
    method Write(p: Path, data: string) returns (r: Transfer)
      requires IsFile(tree, p)
      modifies this
      ensures r.Moved? ==> r.count <= |data| && tree == old(tree)[p := File(old(tree)[p].data + data[..r.count])]
      ensures !r.Moved? ==> tree == old(tree)
      ensures interrupts <= old(interrupts)
      ensures r.Interrupted? ==> interrupts < old(interrupts)
      ensures history == old(history) + [tree]
      ensures sound ==> !r.Broken? && (r.Moved? && data != "" ==> r.count > 0)
    {
      var fails := Fails();
      var cut: bool := *;
      if fails {
        r := Broken;
      } else if cut && interrupts > 0 {
        interrupts := interrupts - 1;
        r := Interrupted;
      } else {
        var count: nat := |data|;
        if * {
          count :| count <= |data| && (sound && data != "" ==> count > 0);
        }
        tree := tree[p := File(tree[p].data + data[..count])];
        r := Moved(count);
      }
      history := history + [tree];
    }

    // read: some bytes at an offset; none only at the end
    method Read(p: Path, offset: nat, want: nat) returns (r: Transfer, bytes: string)
      requires IsFile(tree, p) && offset <= |tree[p].data|
      modifies this`interrupts
      ensures r.Moved? ==> r.count <= want && offset + r.count <= |tree[p].data| &&
                           bytes == tree[p].data[offset..offset + r.count]
      ensures r.Moved? && offset < |tree[p].data| && want > 0 ==> r.count > 0
      ensures interrupts <= old(interrupts)
      ensures r.Interrupted? ==> interrupts < old(interrupts)
      ensures sound ==> !r.Broken?
    {
      bytes := "";
      var fails := Fails();
      var cut: bool := *;
      if fails {
        r := Broken;
      } else if cut && interrupts > 0 {
        interrupts := interrupts - 1;
        r := Interrupted;
      } else {
        var most := if want < |tree[p].data| - offset then want else |tree[p].data| - offset;
        var count: nat := most;
        if most > 1 {
          count :| 1 <= count <= most;
        }
        bytes := tree[p].data[offset..offset + count];
        r := Moved(count);
      }
    }

    // What mkstemp does: a name of that form that nothing has yet.
    method FreeName(p: Path) returns (q: Path)
      requires p != []
      ensures IsScratch(p, q) && q !in tree
    {
      var suffix: string := *;
      q := Scratch(p, suffix);
      if q in tree {
        ghost var free := FreeScratch(tree.Keys, p);
        var n: nat :| Scratch(p, Padding(n)) !in tree;
        q := Scratch(p, Padding(n));
      }
    }

    // g_file_set_contents: the contents go to a file of their own beside p, under a
    // name that is free, which is then renamed; a failure may leave that file behind
    method SetContents(p: Path, data: string) returns (ok: bool)
      modifies this
      ensures interrupts == old(interrupts)
      ensures ok ==> p != [] && IsDir(old(tree), Parent(p)) && !IsDir(old(tree), p) && tree == old(tree)[p := File(data)]
      ensures !ok ==> OnlyScratch(old(tree), tree, p)
      ensures old(history) <= history
      ensures forall i :: |old(history)| <= i < |history| ==>
        OnlyScratch(old(tree), history[i], p) || (ok && history[i] == tree)
      ensures sound && p != [] && IsDir(old(tree), Parent(p)) && !IsDir(old(tree), p) ==> ok
    {
      if p == [] || !IsDir(tree, Parent(p)) {
        return false;
      }
      ghost var t := tree;
      var scratch := FreeName(p);
      assert 0 <= |data|;
      var k: nat :| k <= |data|;
      var fails := Fails();
      if fails {
        return false;
      }
      tree := tree[scratch := File(data[..k])];
      history := history + [tree];
      fails := Fails();
      if fails || IsDir(tree, p) {
        if * {
          tree := tree - {scratch};
          history := history + [tree];
        }
        return false;
      }
      tree := (tree - {scratch})[p := File(data)];
      assert tree == t[p := File(data)];
      history := history + [tree];
      return true;
    }

    // g_file_copy with OVERWRITE and NOFOLLOW_SYMLINKS: a file or a link, over
    // anything but a directory; a failure may leave part of a file behind
    method CopyFile(from: Path, to: Path) returns (ok: bool)
      modifies this
      ensures interrupts == old(interrupts)
      ensures ok ==> from in old(tree) && (old(tree)[from].File? || old(tree)[from].Link?)
      ensures ok ==> tree == old(tree)[to := old(tree)[from]]
      ensures ok || tree != old(tree) ==> to != [] && IsDir(old(tree), Parent(to)) && !IsDir(old(tree), to)
      ensures !ok && tree != old(tree) ==> to in tree && tree[to].File? && tree == old(tree)[to := tree[to]]
      ensures sound && from in old(tree) && (old(tree)[from].File? || old(tree)[from].Link?) ==>
        to != [] && IsDir(old(tree), Parent(to)) && !IsDir(old(tree), to) ==> ok
      ensures history == old(history) + [tree]
    {
      ok := false;
      var fails := Fails();
      if from in tree && (tree[from].File? || tree[from].Link?) && to != [] && IsDir(tree, Parent(to)) && !IsDir(tree, to) {
        if !fails {
          tree := tree[to := tree[from]];
          ok := true;
        } else if tree[from].File? {
          if * {
            var k: nat :| k <= |tree[from].data|;
            tree := tree[to := File(tree[from].data[..k])];
          }
        }
      }
      history := history + [tree];
    }

    // rename: replaces a file, or an empty directory by a directory
    method Rename(from: Path, to: Path) returns (e: Errno)
      requires Apart(from, to) && to != []
      modifies this
      ensures interrupts == old(interrupts)
      ensures e == Done ==> from in old(tree) && IsDir(old(tree), Parent(to)) && tree == Renamed(old(tree), from, to)
      ensures e != Done ==> tree == old(tree)
      ensures e == Done && to in old(tree) ==>
        (IsDir(old(tree), from) <==> IsDir(old(tree), to)) && Children(old(tree), to) == {}
      ensures history == old(history) + [tree]
      ensures sound && from in old(tree) && IsDir(old(tree), Parent(to)) ==>
        (to in old(tree) ==> (IsDir(old(tree), from) <==> IsDir(old(tree), to)) && Children(old(tree), to) == {}) ==> e == Done
    {
      var fails := Fails();
      if from !in tree || !IsDir(tree, Parent(to)) {
        e := Missing;
      } else if to in tree && (IsDir(tree, from) != IsDir(tree, to) || Children(tree, to) != {}) {
        e := Exists;
      } else if fails {
        e := Failed;
      } else {
        tree := Renamed(tree, from, to);
        e := Done;
      }
      history := history + [tree];
    }

    // unlink: anything but a directory
    method Unlink(p: Path) returns (e: Errno)
      modifies this
      ensures interrupts == old(interrupts)
      ensures e == Done ==> p in old(tree) && !IsDir(old(tree), p) && tree == old(tree) - {p}
      ensures e != Done ==> tree == old(tree)
      ensures history == old(history) + [tree]
      ensures sound && p in old(tree) && !IsDir(old(tree), p) ==> e == Done
    {
      var fails := Fails();
      if p !in tree || tree[p].Dir? {
        e := Missing;
      } else if fails {
        e := Failed;
      } else {
        tree := tree - {p};
        e := Done;
      }
      history := history + [tree];
    }

    // rmdir: an empty directory other than the root
    method Rmdir(p: Path) returns (e: Errno)
      modifies this
      ensures interrupts == old(interrupts)
      ensures e == Done ==> p != [] && IsDir(old(tree), p) && Children(old(tree), p) == {} && tree == old(tree) - {p}
      ensures e != Done ==> tree == old(tree)
      ensures history == old(history) + [tree]
      ensures sound && p != [] && IsDir(old(tree), p) && Children(old(tree), p) == {} ==> e == Done
    {
      var fails := Fails();
      if p == [] || !IsDir(tree, p) {
        e := Missing;
      } else if Children(tree, p) != {} {
        e := NotEmpty;
      } else if fails {
        e := Failed;
      } else {
        tree := tree - {p};
        e := Done;
      }
      history := history + [tree];
    }
  }
}
