// Process trees read from /proc (src/clawt-util.c: clawt_process_parent_of,
// clawt_process_is_descendant_of, collect_children, clawt_process_descendants).

module Processes {

  // One consistent reading of /proc: the numeric names in listing order, and the
  // PPid of each process there is.
  datatype Snapshot = Snapshot(listing: seq<int>, ppid: map<int, int>) {

    // 0 for a process that is gone, as for a pid that cannot be one.
    function ParentOf(pid: int): int {
      if pid > 0 && pid in ppid then ppid[pid] else 0
    }

    // k steps up the tree.
    function Up(pid: int, k: nat): int {
      if k == 0 then pid else ParentOf(Up(pid, k - 1))
    }

    // The listing names each process once and is what ppid knows about; init
    // has no parent.
    ghost predicate Consistent() {
      && (forall i, j :: 0 <= i < j < |listing| ==> listing[i] != listing[j])
      && (forall p :: p in listing <==> p in ppid)
      && (1 in ppid ==> ppid[1] == 0)
    }

    // No chain of parents leads from root back to root.
    ghost predicate OffCycle(root: int) {
      forall k: nat :: k >= 1 ==> Up(root, k) != root
    }

    // root is k steps above pid, through listed processes other than init, none
    // of them its own parent.
    ghost predicate Reaches(pid: int, root: int, k: nat) {
      Up(pid, k) == root &&
      forall j :: 0 <= j < k ==> Up(pid, j) in listing && Up(pid, j) > 1 && Up(pid, j) != Up(pid, j + 1)
    }
  }

  const MAX_DEPTH: nat := 32
  const MAX_HOPS: nat := 64

  // What the walk below parent appends, for the part rest of the listing.
  function Preorder(s: Snapshot, parent: int, depth: nat, rest: seq<int>): (r: seq<int>)
    decreases MAX_DEPTH + 1 - depth, |rest|
  {
    if depth > MAX_DEPTH || rest == [] then []
    else
      var pid := rest[0];
      (if pid <= 1 || pid == parent || s.ParentOf(pid) != parent then []
       else [pid] + Preorder(s, pid, depth + 1, s.listing))
      + Preorder(s, parent, depth, rest[1..])
  }

  function Reversed(a: seq<int>): (r: seq<int>)
    ensures |r| == |a| && forall i :: 0 <= i < |a| ==> r[i] == a[|a| - 1 - i]
  {
    if a == [] then [] else Reversed(a[1..]) + [a[0]]
  }

  function Descendants(s: Snapshot, root: int): seq<int> {
    if root <= 1 then [] else Reversed(Preorder(s, root, 0, s.listing))
  }

  // The array both functions share.
  class Walker {
    var found: seq<int>

    constructor ()
      ensures found == []
    {
      found := [];
    }

    method CollectChildren(s: Snapshot, parent: int, depth: nat)
      modifies this
      ensures found == old(found) + Preorder(s, parent, depth, s.listing)
      decreases MAX_DEPTH + 1 - depth
    {
      if depth > MAX_DEPTH {
        return;
      }
      var at := 0;
      assert s.listing[0..] == s.listing;
      while at < |s.listing|
        invariant at <= |s.listing|
        invariant found + Preorder(s, parent, depth, s.listing[at..]) == old(found) + Preorder(s, parent, depth, s.listing)
      {
        var pid := s.listing[at];
        ghost var rest := Preorder(s, parent, depth, s.listing[at + 1..]);
        assert s.listing[at..][1..] == s.listing[at + 1..];
        at := at + 1;
        if pid <= 1 || pid == parent || s.ParentOf(pid) != parent {
          assert [] + rest == rest;
          continue;
        }
        ghost var before := found;
        found := found + [pid];
        CollectChildren(s, pid, depth + 1);
        Regroup(before, pid, Preorder(s, pid, depth + 1, s.listing), rest);
      }
    }
  }

  lemma Regroup(before: seq<int>, pid: int, below: seq<int>, rest: seq<int>)
    ensures ((before + [pid]) + below) + rest == before + (([pid] + below) + rest)
  {
  }

  // What is still to be reversed loses its last element to what is done.
  lemma ReversedStep(done: seq<int>, found: seq<int>, i: nat)
    requires 0 < i <= |found|
    ensures done + Reversed(found[..i]) == (done + [found[i - 1]]) + Reversed(found[..i - 1])
  {
    ReversedPush(found[..i - 1], found[i - 1]);
    assert found[..i] == found[..i - 1] + [found[i - 1]];
  }

  method ProcessDescendants(s: Snapshot, root: int) returns (ordered: seq<int>)
    ensures ordered == Descendants(s, root)
  {
    hide Preorder;
    var walker := new Walker();
    if root <= 1 {
      return walker.found;
    }
    walker.CollectChildren(s, root, 0);
    assert [] + Preorder(s, root, 0, s.listing) == Preorder(s, root, 0, s.listing);
    var found := walker.found;
    ordered := Backwards(found);
  }

  // The second loop: the array, last first.
  method Backwards(found: seq<int>) returns (ordered: seq<int>)
    ensures ordered == Reversed(found)
  {
    hide Reversed;
    ordered := [];
    var i := |found|;
    assert found[..i] == found && [] + Reversed(found) == Reversed(found);
    while i > 0
      invariant 0 <= i <= |found|
      invariant ordered + Reversed(found[..i]) == Reversed(found)
    {
      ReversedStep(ordered, found, i);
      ordered := ordered + [found[i - 1]];
      i := i - 1;
    }
    ReversedOfNone();
    assert found[..i] == [] && ordered + [] == ordered;
  }

  lemma ReversedOfNone()
    ensures Reversed([]) == []
  {
  }

  lemma {:induction false} ReversedPush(a: seq<int>, x: int)
    ensures Reversed(a + [x]) == [x] + Reversed(a)
  {
    if a != [] {
      ReversedPush(a[1..], x);
      assert (a + [x])[1..] == a[1..] + [x];
    }
  }

  // The independent walk upwards.
  ghost predicate IsBelow(s: Snapshot, pid: int, root: int) {
    pid > 0 && root > 0 && pid != root &&
    exists k: nat :: 1 <= k <= MAX_HOPS && s.Up(pid, k) == root && forall j :: 1 <= j < k ==> s.Up(pid, j) > 1
  }

  method ProcessIsDescendantOf(s: Snapshot, pid: int, root: int) returns (r: bool)
    ensures r <==> IsBelow(s, pid, root)
  {
    if pid <= 0 || root <= 0 || pid == root {
      return false;
    }
    var at := pid;
    for hops := 0 to MAX_HOPS
      invariant at == s.Up(pid, hops)
      invariant forall j :: 1 <= j <= hops ==> s.Up(pid, j) > 1 && s.Up(pid, j) != root
    {
      at := s.ParentOf(at);
      assert at == s.Up(pid, hops + 1);
      if at == root {
        return true;
      }
      if at <= 1 {
        return false;
      }
    }
    return false;
  }

  // ---------------------------------------------------------------------
  // What the list holds.

  lemma {:induction false} UpAdds(s: Snapshot, p: int, a: nat, b: nat)
    ensures s.Up(s.Up(p, a), b) == s.Up(p, a + b)
  {
    if b > 0 {
      UpAdds(s, p, a, b - 1);
    }
  }

  predicate IsChild(s: Snapshot, c: int, parent: int) {
    c > 1 && c != parent && s.ParentOf(c) == parent
  }

  // p is the child c of parent, or listed below it.
  predicate Through(s: Snapshot, c: int, parent: int, depth: nat, p: int)
    requires depth <= MAX_DEPTH
  {
    IsChild(s, c, parent) && (p == c || p in Preorder(s, c, depth + 1, s.listing))
  }

  // The list below parent is each child in rest, followed by the list below it.
  lemma {:induction false} PreorderUnfolds(s: Snapshot, parent: int, depth: nat, rest: seq<int>, p: int)
    requires depth <= MAX_DEPTH
    ensures p in Preorder(s, parent, depth, rest) <==> exists c :: c in rest && Through(s, c, parent, depth, p)
    decreases |rest|
  {
    if rest != [] {
      PreorderUnfolds(s, parent, depth, rest[1..], p);
      assert p in Preorder(s, parent, depth, rest) <==>
        Through(s, rest[0], parent, depth, p) || p in Preorder(s, parent, depth, rest[1..]);
      assert forall c :: c in rest <==> c == rest[0] || c in rest[1..];
    }
  }

  // A chain to root ends in a step from one of root's children.
  lemma ChainEnds(s: Snapshot, p: int, root: int, k: nat)
    requires k >= 1
    ensures s.Reaches(p, root, k) <==>
      var c := s.Up(p, k - 1);
      s.Reaches(p, c, k - 1) && c in s.listing && IsChild(s, c, root)
  {
    assert s.Up(p, k) == s.ParentOf(s.Up(p, k - 1));
  }

  lemma {:induction false} ListedReaches(s: Snapshot, parent: int, depth: nat, p: int) returns (k: nat)
    requires p in Preorder(s, parent, depth, s.listing)
    ensures 1 <= k <= MAX_DEPTH + 1 - depth && s.Reaches(p, parent, k)
    decreases MAX_DEPTH + 1 - depth
  {
    PreorderUnfolds(s, parent, depth, s.listing, p);
    var c :| c in s.listing && Through(s, c, parent, depth, p);
    if p == c {
      k := 0;
    } else {
      k := ListedReaches(s, c, depth + 1, p);
    }
    k := k + 1;
    ChainEnds(s, p, parent, k);
  }

  lemma {:induction false} ReachesListed(s: Snapshot, parent: int, depth: nat, p: int, k: nat)
    requires 1 <= k <= MAX_DEPTH + 1 - depth && s.Reaches(p, parent, k)
    ensures p in Preorder(s, parent, depth, s.listing)
    decreases k
  {
    ChainEnds(s, p, parent, k);
    var c := s.Up(p, k - 1);
    if k > 1 {
      ReachesListed(s, c, depth + 1, p, k - 1);
    }
    assert Through(s, c, parent, depth, p);
    PreorderUnfolds(s, parent, depth, s.listing, p);
  }

  lemma PreorderHolds(s: Snapshot, parent: int, depth: nat, p: int)
    requires depth <= MAX_DEPTH + 1
    ensures p in Preorder(s, parent, depth, s.listing) <==>
      exists k: nat :: 1 <= k <= MAX_DEPTH + 1 - depth && s.Reaches(p, parent, k)
  {
    if p in Preorder(s, parent, depth, s.listing) {
      var k := ListedReaches(s, parent, depth, p);
    }
    if exists k: nat :: 1 <= k <= MAX_DEPTH + 1 - depth && s.Reaches(p, parent, k) {
      var k: nat :| 1 <= k <= MAX_DEPTH + 1 - depth && s.Reaches(p, parent, k);
      ReachesListed(s, parent, depth, p, k);
    }
  }

  // Exactly the processes 1 to 33 levels below root, whatever /proc says.
  lemma DescendantsAreLevels(s: Snapshot, root: int, p: int)
    ensures p in Descendants(s, root) <==> root > 1 && exists k: nat :: 1 <= k <= 33 && s.Reaches(p, root, k)
  {
    PreorderHolds(s, root, 0, p);
    ReversedHolds(Preorder(s, root, 0, s.listing), p);
  }

  lemma ReversedHolds(a: seq<int>, p: int)
    ensures p in Reversed(a) <==> p in a
  {
    if p in a {
      var i :| 0 <= i < |a| && a[i] == p;
      assert Reversed(a)[|a| - 1 - i] == p;
    }
  }

  // ---------------------------------------------------------------------
  // No duplicates, and children before parents.

  ghost predicate NoDuplicates(a: seq<int>) {
    forall i, j :: 0 <= i < j < |a| ==> a[i] != a[j]
  }

  lemma JoinNoDuplicates(a: seq<int>, b: seq<int>)
    requires NoDuplicates(a) && NoDuplicates(b) && forall x :: x in a ==> x !in b
    ensures NoDuplicates(a + b)
  {
    forall i, j | 0 <= i < j < |a + b| ensures (a + b)[i] != (a + b)[j] {
      if i < |a| <= j {
        assert (a + b)[i] in a && (a + b)[j] in b;
      }
    }
  }

  // Nothing below a root that is off every cycle is on one.
  lemma OffCycleBelow(s: Snapshot, root: int, p: int, k: nat)
    requires s.OffCycle(root) && s.Up(p, k) == root
    ensures s.OffCycle(p)
  {
    forall m: nat | m >= 1 ensures s.Up(p, m) != p {
      UpAdds(s, p, m, k);
      UpAdds(s, p, k, m);
      assert s.Up(root, m) != root;
    }
  }

  // The subtrees of two children of one process share nothing.
  lemma SubtreesDisjoint(s: Snapshot, parent: int, c: int, d: int, p: int, k: nat, m: nat)
    requires s.OffCycle(parent) && c != d
    requires s.ParentOf(c) == parent && s.ParentOf(d) == parent
    requires s.Up(p, k) == c
    ensures s.Up(p, m) != d
  {
    if s.Up(p, m) == d {
      assert s.Up(p, k + 1) == parent && s.Up(p, m + 1) == parent;
      if k < m {
        UpAdds(s, p, k + 1, m - k);
      } else {
        UpAdds(s, p, m + 1, k - m);
      }
    }
  }

  lemma {:induction false} PreorderNoDuplicates(s: Snapshot, parent: int, depth: nat, rest: seq<int>)
    requires s.OffCycle(parent) && NoDuplicates(rest) && NoDuplicates(s.listing)
    ensures NoDuplicates(Preorder(s, parent, depth, rest))
    decreases MAX_DEPTH + 1 - depth, |rest|
  {
    if depth <= MAX_DEPTH && rest != [] {
      var c := rest[0];
      assert forall i, j :: 0 <= i < j < |rest[1..]| ==> rest[1..][i] == rest[i + 1] && rest[1..][j] == rest[j + 1];
      PreorderNoDuplicates(s, parent, depth, rest[1..]);
      if IsChild(s, c, parent) {
        SubtreeNoDuplicates(s, parent, depth, rest);
      } else {
        assert [] + Preorder(s, parent, depth, rest[1..]) == Preorder(s, parent, depth, rest[1..]);
      }
    }
  }

  lemma {:induction false} SubtreeNoDuplicates(s: Snapshot, parent: int, depth: nat, rest: seq<int>)
    requires s.OffCycle(parent) && NoDuplicates(rest) && depth <= MAX_DEPTH && rest != []
    requires IsChild(s, rest[0], parent)
    requires NoDuplicates(Preorder(s, parent, depth, rest[1..])) && NoDuplicates(s.listing)
    ensures NoDuplicates(Preorder(s, parent, depth, rest))
    decreases MAX_DEPTH + 1 - depth, 0
  {
    var c := rest[0];
    assert s.Up(c, 0) == c && s.Up(c, 1) == parent;
    OffCycleBelow(s, parent, c, 1);
    var below := Preorder(s, c, depth + 1, s.listing);
    var others := Preorder(s, parent, depth, rest[1..]);
    PreorderNoDuplicates(s, c, depth + 1, s.listing);
    forall p | p in below ensures p != c {
      var k := ListedReaches(s, c, depth + 1, p);
      assert s.Up(c, k) != c;
    }
    JoinNoDuplicates([c], below);
    forall p | p in [c] + below ensures p !in others {
      var k := BelowOrSelf(s, c, depth, p);
      NotAmongOthers(s, parent, depth, rest, p, k);
    }
    JoinNoDuplicates([c] + below, others);
  }

  lemma BelowOrSelf(s: Snapshot, c: int, depth: nat, p: int) returns (k: nat)
    requires depth <= MAX_DEPTH
    requires p == c || p in Preorder(s, c, depth + 1, s.listing)
    ensures s.Up(p, k) == c
  {
    if p == c {
      return 0;
    }
    k := ListedReaches(s, c, depth + 1, p);
  }

  lemma NotAmongOthers(s: Snapshot, parent: int, depth: nat, rest: seq<int>, p: int, k: nat)
    requires s.OffCycle(parent) && NoDuplicates(rest) && depth <= MAX_DEPTH && rest != []
    requires IsChild(s, rest[0], parent) && s.Up(p, k) == rest[0]
    ensures p !in Preorder(s, parent, depth, rest[1..])
  {
    PreorderUnfolds(s, parent, depth, rest[1..], p);
    forall d | d in rest[1..] ensures !Through(s, d, parent, depth, p) {
      var i :| 0 <= i < |rest[1..]| && rest[1..][i] == d;
      assert rest[i + 1] == d;
      if Through(s, d, parent, depth, p) {
        var m := BelowOrSelf(s, d, depth, p);
        SubtreesDisjoint(s, parent, rest[0], d, p, k, m);
      }
    }
  }

  // p's parent is root or stands earlier in a.
  predicate ParentEarlier(s: Snapshot, a: seq<int>, root: int, i: nat)
    requires i < |a|
  {
    s.ParentOf(a[i]) == root || s.ParentOf(a[i]) in a[..i]
  }

  ghost predicate ParentsFirst(s: Snapshot, a: seq<int>, root: int) {
    forall i :: 0 <= i < |a| ==> ParentEarlier(s, a, root, i)
  }

  lemma JoinParentsFirst(s: Snapshot, a: seq<int>, b: seq<int>, root: int)
    requires ParentsFirst(s, a, root) && ParentsFirst(s, b, root)
    ensures ParentsFirst(s, a + b, root)
  {
    forall i | 0 <= i < |a + b| ensures ParentEarlier(s, a + b, root, i) {
      if i < |a| {
        assert ParentEarlier(s, a, root, i) && (a + b)[..i] == a[..i];
      } else {
        assert ParentEarlier(s, b, root, i - |a|) && (a + b)[..i] == a + b[..i - |a|];
      }
    }
  }

  lemma {:induction false} PreorderParentsFirst(s: Snapshot, parent: int, depth: nat, rest: seq<int>)
    ensures ParentsFirst(s, Preorder(s, parent, depth, rest), parent)
    decreases MAX_DEPTH + 1 - depth, |rest|
  {
    if depth <= MAX_DEPTH && rest != [] {
      var c := rest[0];
      PreorderParentsFirst(s, parent, depth, rest[1..]);
      var others := Preorder(s, parent, depth, rest[1..]);
      if IsChild(s, c, parent) {
        var below := Preorder(s, c, depth + 1, s.listing);
        PreorderParentsFirst(s, c, depth + 1, s.listing);
        forall i | 0 <= i < |[c] + below| ensures ParentEarlier(s, [c] + below, parent, i) {
          if i > 0 {
            assert ParentEarlier(s, below, c, i - 1);
            assert ([c] + below)[..i] == [c] + below[..i - 1];
          }
        }
        JoinParentsFirst(s, [c] + below, others, parent);
      } else {
        assert [] + others == others;
      }
    }
  }

  lemma NotAboveAndBelow(s: Snapshot, root: int, q: int, n: nat, m: nat)
    requires s.OffCycle(root) && s.Up(root, n) == q && s.Up(q, m) == root
    ensures q == root
  {
    UpAdds(s, root, n, m);
    assert s.Up(root, 0) == root;
  }

  // In a list where parents come first, every ancestor that is listed does.
  lemma {:induction false} AncestorsFirst(s: Snapshot, a: seq<int>, root: int, i: nat, j: nat, k: nat)
    requires ParentsFirst(s, a, root) && NoDuplicates(a) && s.OffCycle(root)
    requires i < |a| && j < |a| && k >= 1 && s.Up(a[i], k) == a[j]
    requires exists m: nat :: s.Up(a[j], m) == root
    requires a[j] != root
    ensures j < i
    decreases k
  {
    var up := s.ParentOf(a[i]);
    assert s.Up(a[i], 0) == a[i] && s.Up(a[i], 1) == up;
    UpAdds(s, a[i], 1, k - 1);
    assert ParentEarlier(s, a, root, i);
    if up == root {
      // a[j] would be above root as well as below it.
      var m: nat :| s.Up(a[j], m) == root;
      NotAboveAndBelow(s, root, a[j], k - 1, m);
    } else {
      var h :| 0 <= h < i && a[h] == up;
      if k == 1 {
        assert a[h] == a[j];
      } else {
        AncestorsFirst(s, a, root, h, j, k - 1);
      }
    }
  }

  // For a root that is not on a cycle of parents: nothing is listed twice, the
  // root is not listed, and every process stands before each of its ancestors.
  lemma DescendantsInKillOrder(s: Snapshot, root: int)
    requires root > 1 && s.Consistent() && s.OffCycle(root)
    ensures NoDuplicates(Descendants(s, root))
    ensures root !in Descendants(s, root)
    ensures var d := Descendants(s, root);
      forall i, j, k: nat :: 0 <= i < |d| && 0 <= j < |d| && k >= 1 && s.Up(d[i], k) == d[j] ==> i < j
  {
    var a := Preorder(s, root, 0, s.listing);
    var d := Descendants(s, root);
    PreorderNoDuplicates(s, root, 0, s.listing);
    PreorderParentsFirst(s, root, 0, s.listing);
    if root in d {
      ReversedHolds(a, root);
      var k := ListedReaches(s, root, 0, root);
    }
    forall i, j, k: nat | 0 <= i < |d| && 0 <= j < |d| && k >= 1 && s.Up(d[i], k) == d[j] ensures i < j {
      var x, y := |a| - 1 - i, |a| - 1 - j;
      assert d[i] == a[x] && d[j] == a[y];
      var m := ListedReaches(s, root, 0, a[y]);
      assert s.Up(root, m) != root;
      AncestorsFirst(s, a, root, x, y, k);
    }
  }

  // ---------------------------------------------------------------------
  // The two walks agree.

  lemma {:induction false} LowStaysLow(s: Snapshot, p: int, k: nat)
    requires s.Consistent() && p <= 1
    ensures s.Up(p, k) <= 1
  {
    if k > 0 {
      LowStaysLow(s, p, k - 1);
    }
  }

  lemma {:induction false} FixedStays(s: Snapshot, p: int, k: nat)
    requires s.ParentOf(p) == p
    ensures s.Up(p, k) == p
  {
    if k > 0 {
      FixedStays(s, p, k - 1);
    }
  }

  lemma AboveInit(s: Snapshot, x: int, root: int, m: nat)
    requires s.Consistent() && s.Up(x, m) == root > 1
    ensures x > 1
  {
    if x <= 1 {
      LowStaysLow(s, x, m);
    }
  }

  lemma NotFixed(s: Snapshot, x: int, root: int, m: nat)
    requires s.OffCycle(root) && s.Up(x, m) == root
    ensures s.ParentOf(x) != x
  {
    assert s.Up(root, 0) == root && s.Up(root, 1) == s.ParentOf(root);
    if s.ParentOf(x) == x {
      FixedStays(s, x, m);
    }
  }

  lemma UpTo(s: Snapshot, p: int, j: nat, k: nat, root: int)
    requires j <= k && s.Up(p, k) == root
    ensures s.Up(s.Up(p, j), k - j) == root
  {
    UpAdds(s, p, j, k - j);
  }

  // Any chain of parents to such a root is one the downward walk follows.
  lemma ChainsAreFollowed(s: Snapshot, p: int, root: int, k: nat)
    requires root > 1 && s.Consistent() && s.OffCycle(root) && s.Up(p, k) == root
    ensures s.Reaches(p, root, k)
  {
    forall j | 0 <= j < k ensures s.Up(p, j) in s.listing && s.Up(p, j) > 1 && s.Up(p, j) != s.Up(p, j + 1) {
      UpTo(s, p, j, k, root);
      UpTo(s, p, j + 1, k, root);
      var x, y := s.Up(p, j), s.Up(p, j + 1);
      AboveInit(s, x, root, k - j);
      AboveInit(s, y, root, k - (j + 1));
      NotFixed(s, x, root, k - j);
    }
  }

  // A process is listed exactly when the bounded walk upwards finds root and
  // the chain has at most 33 steps.
  lemma WalksAgree(s: Snapshot, root: int, p: int)
    requires root > 1 && s.Consistent() && s.OffCycle(root)
    ensures p in Descendants(s, root) <==>
      IsBelow(s, p, root) && exists k: nat :: 1 <= k <= 33 && s.Up(p, k) == root
  {
    DescendantsAreLevels(s, root, p);
    if p in Descendants(s, root) {
      var k: nat :| 1 <= k <= 33 && s.Reaches(p, root, k);
      assert s.Up(p, 0) == p;
      assert p != root by {
        DescendantsInKillOrder(s, root);
      }
    }
    if exists k: nat :: 1 <= k <= 33 && s.Up(p, k) == root {
      var k: nat :| 1 <= k <= 33 && s.Up(p, k) == root;
      ChainsAreFollowed(s, p, root, k);
    }
  }

  // The two bounds differ: from 34 to 64 steps, only the walk upwards sees it.
  lemma OnlyTheUpwardWalk(s: Snapshot, root: int, p: int, k: nat)
    requires root > 1 && s.Consistent() && s.OffCycle(root)
    requires 34 <= k <= 64 && s.Up(p, k) == root
    ensures IsBelow(s, p, root) && p !in Descendants(s, root)
  {
    ChainsAreFollowed(s, p, root, k);
    assert s.Up(p, 0) == p;
    assert p != root by {
      assert s.Up(root, k) != root;
    }
    DescendantsAreLevels(s, root, p);
    forall m: nat | 1 <= m <= 33 ensures s.Up(p, m) != root {
      UpAdds(s, p, m, k - m);
      assert s.Up(root, k - m) != root;
    }
  }

  // And that is all they disagree on: at 33 steps or fewer both see the process,
  // beyond 64 neither does.
  lemma WalksDisagree(s: Snapshot, root: int, p: int)
    requires root > 1 && s.Consistent() && s.OffCycle(root)
    ensures p in Descendants(s, root) ==> IsBelow(s, p, root)
    ensures (IsBelow(s, p, root) && p !in Descendants(s, root)) <==>
      exists k: nat :: 34 <= k <= 64 && s.Up(p, k) == root
  {
    WalksAgree(s, root, p);
    if IsBelow(s, p, root) && p !in Descendants(s, root) {
      var k: nat :| 1 <= k <= MAX_HOPS && s.Up(p, k) == root;
      DescendantsAreLevels(s, root, p);
      ChainsAreFollowed(s, p, root, k);
    }
    if k: nat :| 34 <= k <= 64 && s.Up(p, k) == root {
      OnlyTheUpwardWalk(s, root, p, k);
    }
  }
}
