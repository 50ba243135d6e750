// The recursive collector (src/clawt-backup.c: read_file and collect).

module BackupCollect {
  import opened Options
  import opened Strings
  import opened Files
  import opened BackupPolicy

  datatype Refusal = TooDeep | TooManyEntries | UnsafeName | Symlink | Oversize | TooLarge | IoError

  datatype Outcome = Ok | Refused(why: Refusal)

  // What the running total counts.
  function Weight(ms: seq<Member>): nat {
    if ms == [] then 0
    else Weight(ms[..|ms| - 1]) + |ms[|ms| - 1].data| + |ms[|ms| - 1].path| + 128
  }

  lemma WeightPush(ms: seq<Member>, m: Member)
    ensures Weight(ms + [m]) == Weight(ms) + |m.data| + |m.path| + 128
  {
    assert (ms + [m])[..|ms|] == ms;
  }

  // s is the tree below the state directory, seen from it, as descriptor-relative
  // calls see it. m records the file at q, checksum included.
  ghost predicate Records(s: Tree, sha: string -> string, q: Path, m: Member) {
    q != [] && AreNames(q) && Kept(q) && m.path == PathText(q) && SafePath(m.path) &&
    q in s && s[q] == File(m.data) && m.sum == sha(m.data)
  }

  // The entries a collection of the directory at is about, once the
  // children named in done have been dealt with.
  predicate InScope(s: Tree, at: Path, done: set<string>, q: Path) {
    at < q && q[|at|] in done && Kept(q) && q in s
  }

  // Every member records a file in scope.
  ghost predicate Recorded(s: Tree, sha: string -> string, at: Path, done: set<string>, ms: seq<Member>) {
    forall i :: 0 <= i < |ms| ==>
      var q := Split(ms[i].path, '/');
      Records(s, sha, q, ms[i]) && InScope(s, at, done, q)
  }

  // Nothing in scope is a link, has an unsafe path or is a directory too deep to
  // enter, and its files are among ms.
  ghost predicate Covered(s: Tree, at: Path, done: set<string>, ms: seq<Member>) {
    forall q :: InScope(s, at, done, q) ==>
      !s[q].Link? && SafePath(PathText(q)) && (s[q].Dir? ==> |q| <= 64) && (s[q].File? ==> PathText(q) in Paths(ms))
  }

  // ms are some of the files in scope, each once.
  ghost predicate Partial(s: Tree, sha: string -> string, at: Path, done: set<string>, ms: seq<Member>) {
    DistinctPaths(ms) && Recorded(s, sha, at, done, ms)
  }

  // ms are exactly the files in scope, each once.
  ghost predicate Gathers(s: Tree, sha: string -> string, at: Path, done: set<string>, ms: seq<Member>) {
    Partial(s, sha, at, done, ms) && Covered(s, at, done, ms)
  }

  // The whole of s.
  ghost predicate Snapshot(s: Tree, sha: string -> string, ms: seq<Member>) {
    Gathers(s, sha, [], Children(s, []), ms)
  }

  lemma ScopeChild(s: Tree, at: Path, q: Path)
    requires Valid(s) && at < q && q in s
    ensures q[|at|] in Children(s, at) && AreNames(q)
    ensures |q| > |at| + 1 ==> IsDir(s, at + [q[|at|]])
  {
    PathsAreNames(s, q);
    assert q[..|at| + 1] == at + [q[|at|]];
    if |q| > |at| + 1 {
      PrefixIsDir(s, q, |at| + 1);
    } else {
      assert q == at + [q[|at|]];
    }
  }

  // What is in scope through one child of at that is not a directory.
  lemma ScopeThrough(s: Tree, at: Path, q: Path, name: string)
    requires Valid(s) && at < q && q[|at|] == name && q in s
    requires !IsDir(s, at + [name])
    ensures q == at + [name]
  {
    ScopeChild(s, at, q);
    assert q == at + [name];
  }

  lemma KeptPrefix(q: Path, k: nat)
    requires Kept(q) && k <= |q|
    ensures Kept(q[..k])
  {
  }

  lemma DealtWith(all: set<string>, todo: set<string>, name: string)
    requires name in todo && todo <= all
    ensures all - (todo - {name}) == all - todo + {name}
    ensures |todo - {name}| < |todo|
  {
    assert todo == (todo - {name}) + {name};
  }

  lemma Regroup(a: seq<Member>, b: seq<Member>, c: seq<Member>)
    ensures (a + b) + c == a + (b + c)
  {
  }

  lemma GathersNothing(s: Tree, sha: string -> string, at: Path)
    ensures Gathers(s, sha, at, {}, [])
  {
  }

  // A child with nothing kept at or below it.
  lemma GathersDropped(s: Tree, sha: string -> string, at: Path, done: set<string>, ms: seq<Member>, name: string)
    requires Gathers(s, sha, at, done, ms)
    requires !Kept(at + [name])
    ensures Gathers(s, sha, at, done + {name}, ms)
  {
    forall q ensures InScope(s, at, done + {name}, q) <==> InScope(s, at, done, q) {
      NotBelowDropped(s, at, done, name, q);
    }
    SameScope(s, sha, at, done, done + {name}, ms);
  }

  lemma NotBelowDropped(s: Tree, at: Path, done: set<string>, name: string, q: Path)
    requires !Kept(at + [name])
    ensures InScope(s, at, done + {name}, q) <==> InScope(s, at, done, q)
  {
    if InScope(s, at, done + {name}, q) {
      KeptPrefix(q, |at| + 1);
      assert q[..|at| + 1] == at + [q[|at|]];
    }
  }

  lemma SameScope(s: Tree, sha: string -> string, at: Path, done: set<string>, more: set<string>, ms: seq<Member>)
    requires Gathers(s, sha, at, done, ms) && forall q :: InScope(s, at, more, q) <==> InScope(s, at, done, q)
    ensures Gathers(s, sha, at, more, ms)
  {
    hide InScope;
  }

  // A child that is neither a file nor a directory nor a link.
  lemma GathersOther(s: Tree, sha: string -> string, at: Path, done: set<string>, ms: seq<Member>, name: string)
    requires Valid(s) && at + [name] in s
    requires Gathers(s, sha, at, done, ms)
    requires s[at + [name]].Other? && SafePath(PathText(at + [name]))
    ensures Gathers(s, sha, at, done + {name}, ms)
  {
    forall q | InScope(s, at, done + {name}, q)
      ensures !s[q].Link? && SafePath(PathText(q)) && (s[q].Dir? ==> |q| <= 64) && (s[q].File? ==> PathText(q) in Paths(ms))
    {
      if q[|at|] == name {
        ScopeThrough(s, at, q, name);
      } else {
        assert InScope(s, at, done, q);
      }
    }
  }

  lemma GathersFile(s: Tree, sha: string -> string, at: Path, done: set<string>, ms: seq<Member>, name: string, m: Member)
    requires Valid(s) && name !in done
    requires Gathers(s, sha, at, done, ms)
    requires Records(s, sha, at + [name], m)
    ensures Gathers(s, sha, at, done + {name}, ms + [m])
  {
    PartialFile(s, sha, at, done, ms, name, m);
    FileCovered(s, at, done, ms, name, m);
  }

  lemma PartialFile(s: Tree, sha: string -> string, at: Path, done: set<string>, ms: seq<Member>, name: string, m: Member)
    requires name !in done
    requires Partial(s, sha, at, done, ms) && Records(s, sha, at + [name], m)
    ensures Partial(s, sha, at, done + {name}, ms + [m])
  {
    PathTextSplits(at + [name]);
    MergeDistinct(s, sha, at, done, ms, name, [m]);
    forall i | 0 <= i < |ms| ensures InScope(s, at, done + {name}, Split(ms[i].path, '/')) {
      assert InScope(s, at, done, Split(ms[i].path, '/'));
    }
    assert InScope(s, at, done + {name}, at + [name]);
  }

  lemma FileCovered(s: Tree, at: Path, done: set<string>, ms: seq<Member>, name: string, m: Member)
    requires Valid(s) && at + [name] in s && s[at + [name]].File?
    requires m.path == PathText(at + [name]) && SafePath(m.path)
    requires Covered(s, at, done, ms)
    ensures Covered(s, at, done + {name}, ms + [m])
  {
    PathsGrow(ms, [m]);
    assert m in [m];
    forall q | InScope(s, at, done + {name}, q)
      ensures !s[q].Link? && SafePath(PathText(q)) && (s[q].Dir? ==> |q| <= 64) &&
              (s[q].File? ==> PathText(q) in Paths(ms + [m]))
    {
      if q[|at|] == name {
        ScopeThrough(s, at, q, name);
      } else {
        assert InScope(s, at, done, q);
      }
    }
  }

  lemma PathsGrow(ms: seq<Member>, more: seq<Member>)
    ensures Paths(ms + more) == Paths(ms) + Paths(more)
  {
    var both := ms + more;
    assert forall m :: m in both <==> m in ms || m in more;
  }

  lemma GathersDirectory(s: Tree, sha: string -> string, at: Path, done: set<string>,
                         ms: seq<Member>, name: string, below: seq<Member>)
    requires Valid(s) && name !in done
    requires IsDir(s, at + [name]) && SafePath(PathText(at + [name])) && |at + [name]| <= 64
    requires Gathers(s, sha, at, done, ms)
    requires Gathers(s, sha, at + [name], Children(s, at + [name]), below)
    ensures Gathers(s, sha, at, done + {name}, ms + below)
  {
    PartialDirectory(s, sha, at, done, ms, name, below);
    DirectoryCovered(s, at, done, ms, name, below);
  }

  lemma PartialDirectory(s: Tree, sha: string -> string, at: Path, done: set<string>,
                         ms: seq<Member>, name: string, below: seq<Member>)
    requires name !in done
    requires Partial(s, sha, at, done, ms)
    requires Partial(s, sha, at + [name], Children(s, at + [name]), below)
    ensures Partial(s, sha, at, done + {name}, ms + below)
  {
    DirectoryRecorded(s, sha, at, done, name, below);
    MergeDistinct(s, sha, at, done, ms, name, below);
    forall i | 0 <= i < |ms| ensures InScope(s, at, done + {name}, Split(ms[i].path, '/')) {
      assert InScope(s, at, done, Split(ms[i].path, '/'));
    }
  }

  lemma PartialGrows(s: Tree, sha: string -> string, at: Path, done: set<string>, all: set<string>, ms: seq<Member>)
    requires Partial(s, sha, at, done, ms) && done <= all
    ensures Partial(s, sha, at, all, ms)
  {
    forall i | 0 <= i < |ms| ensures InScope(s, at, all, Split(ms[i].path, '/')) {
      assert InScope(s, at, done, Split(ms[i].path, '/'));
    }
  }

  lemma DirectoryRecorded(s: Tree, sha: string -> string, at: Path, done: set<string>, name: string, below: seq<Member>)
    requires Recorded(s, sha, at + [name], Children(s, at + [name]), below)
    ensures Recorded(s, sha, at, done + {name}, below)
    ensures forall i :: 0 <= i < |below| ==>
      var q := Split(below[i].path, '/'); |q| > |at| && q[|at|] == name
  {
    var own := at + [name];
    forall i | 0 <= i < |below|
      ensures var q := Split(below[i].path, '/'); InScope(s, at, done + {name}, q) && q[|at|] == name
    {
      var q := Split(below[i].path, '/');
      assert InScope(s, own, Children(s, own), q);
      assert q[|at|] == own[|at|] == name;
    }
  }

  lemma MergeDistinct(s: Tree, sha: string -> string, at: Path, done: set<string>,
                      ms: seq<Member>, name: string, below: seq<Member>)
    requires name !in done
    requires DistinctPaths(ms) && Recorded(s, sha, at, done, ms)
    requires DistinctPaths(below)
    requires forall i :: 0 <= i < |below| ==>
      var q := Split(below[i].path, '/'); |q| > |at| && q[|at|] == name
    ensures DistinctPaths(ms + below)
  {
    forall i, j | 0 <= i < |ms| && 0 <= j < |below| ensures ms[i].path != below[j].path {
      assert InScope(s, at, done, Split(ms[i].path, '/'));
    }
  }

  // What is in scope through a child is the child itself or in scope for it.
  lemma ScopeInside(s: Tree, at: Path, name: string, q: Path)
    requires Valid(s) && at < q && q[|at|] == name && Kept(q) && q in s
    ensures q == at + [name] || InScope(s, at + [name], Children(s, at + [name]), q)
  {
    assert q[..|at| + 1] == at + [name];
    if |q| == |at| + 1 {
      assert q == q[..|at| + 1];
    } else {
      assert at + [name] < q;
      ScopeChild(s, at + [name], q);
    }
  }

  lemma DirectoryCovered(s: Tree, at: Path, done: set<string>, ms: seq<Member>, name: string, below: seq<Member>)
    requires Valid(s)
    requires IsDir(s, at + [name]) && SafePath(PathText(at + [name])) && |at + [name]| <= 64
    requires Covered(s, at, done, ms)
    requires Covered(s, at + [name], Children(s, at + [name]), below)
    ensures Covered(s, at, done + {name}, ms + below)
  {
    PathsGrow(ms, below);
    forall q | InScope(s, at, done + {name}, q)
      ensures !s[q].Link? && SafePath(PathText(q)) && (s[q].Dir? ==> |q| <= 64) &&
              (s[q].File? ==> PathText(q) in Paths(ms + below))
    {
      if q[|at|] != name {
        assert InScope(s, at, done, q);
      } else {
        ScopeInside(s, at, name, q);
      }
    }
  }

  // ---------------------------------------------------------------------
  // What is counted, and what a refusal means.

  // The entries that count towards the limit, through the children in done:
  // every name that is not excluded, in every directory that is entered.
  function Seen(s: Tree, at: Path, done: set<string>): set<Path> {
    set q | q in s && at < q && q[|at|] in done && Kept(Parent(q)) && !Excluded(Last(q))
  }

  // The refusals that blame the tree have something to blame.
  ghost predicate Justified(s: Tree, at: Path, why: Refusal) {
    && (why == TooDeep ==> exists q :: IsDir(s, q) && at <= q && Kept(q) && |q| > 64)
    && (why == UnsafeName ==> exists q :: InScope(s, at, Children(s, at), q) && !Spellable(PathText(q)))
    && (why == Symlink ==> exists q :: InScope(s, at, Children(s, at), q) && s[q].Link?)
  }

  // The refusals that blame size: before is what the builder held, and reached the
  // files met since, the last of which may not have been added.
  ghost predicate Heavy(why: Refusal, before: seq<Member>, reached: seq<Member>) {
    && (why == TooLarge ==> Weight(before + reached) > ARCHIVE_LIMIT)
    && (why == Oversize ==>
          reached != [] &&
          (|reached[|reached| - 1].data| > FILE_LIMIT || Weight(before + reached) > ARCHIVE_LIMIT))
  }

  // Some of the files a backup of s keeps weigh more than an archive may.
  ghost predicate Overweight(s: Tree, sha: string -> string) {
    exists ms :: Partial(s, sha, [], Children(s, []), ms) && Weight(ms) > ARCHIVE_LIMIT
  }

  // Or one of them is longer than a file may be.
  ghost predicate Overlong(s: Tree) {
    exists q :: InScope(s, [], Children(s, []), q) && s[q].File? && |s[q].data| > FILE_LIMIT
  }

  lemma HeavyMeans(s: Tree, sha: string -> string, why: Refusal, reached: seq<Member>)
    requires Partial(s, sha, [], Children(s, []), reached) && Heavy(why, [], reached)
    ensures why == TooLarge ==> Overweight(s, sha)
    ensures why == Oversize ==> Overweight(s, sha) || Overlong(s)
  {
    assert [] + reached == reached;
    if why == Oversize {
      var q := Split(reached[|reached| - 1].path, '/');
      assert Records(s, sha, q, reached[|reached| - 1]) && InScope(s, [], Children(s, []), q);
    }
  }

  lemma HeavyLater(why: Refusal, before: seq<Member>, added: seq<Member>, reached: seq<Member>)
    requires Heavy(why, before + added, reached)
    ensures Heavy(why, before, added + reached)
  {
    Regroup(before, added, reached);
  }

  // Nothing in s stands in the way of a backup.
  ghost predicate Fit(s: Tree, sha: string -> string) {
    && !Overlong(s) && !Overweight(s, sha) && |Seen(s, [], Children(s, []))| <= ENTRY_LIMIT
    && forall q :: InScope(s, [], Children(s, []), q) ==>
         !s[q].Link? && Spellable(PathText(q)) && (s[q].Dir? ==> |q| <= 64)
  }

  // Whatever a refusal blames is in the way.
  lemma RefusedIsUnfit(s: Tree, sha: string -> string, why: Refusal, reached: seq<Member>)
    requires Valid(s) && Justified(s, [], why) && why != IoError
    requires Partial(s, sha, [], Children(s, []), reached) && Heavy(why, [], reached)
    requires why == TooManyEntries ==> |Seen(s, [], Children(s, []))| > ENTRY_LIMIT
    ensures !Fit(s, sha)
  {
    HeavyMeans(s, sha, why, reached);
    if why == TooDeep {
      var q :| IsDir(s, q) && [] <= q && Kept(q) && |q| > 64;
      ScopeChild(s, [], q);
      assert InScope(s, [], Children(s, []), q);
    }
  }

  lemma {:induction false} WeightAppend(a: seq<Member>, b: seq<Member>)
    ensures Weight(a + b) == Weight(a) + Weight(b)
    decreases |b|
  {
    if b == [] {
      assert a + b == a;
    } else {
      var front, last := b[..|b| - 1], b[|b| - 1];
      WeightAppend(a, front);
      WeightPush(a + front, last);
      assert a + b == (a + front) + [last];
    }
  }

  // Some of a list, each once, weighs no more than the list.
  lemma {:induction false} WeightOfSome(some: seq<Member>, ms: seq<Member>)
    requires DistinctPaths(some) && forall i :: 0 <= i < |some| ==> some[i] in ms
    ensures Weight(some) <= Weight(ms)
    decreases |some|
  {
    if some != [] {
      var front, last := some[..|some| - 1], some[|some| - 1];
      var j :| 0 <= j < |ms| && ms[j] == last;
      var others := ms[..j] + ms[j + 1..];
      forall i | 0 <= i < |front| ensures front[i] in others {
        assert front[i] == some[i] && some[i].path != last.path;
        var k :| 0 <= k < |ms| && ms[k] == some[i];
        assert k < j ==> others[k] == ms[k];
        assert k > j ==> others[k - 1] == ms[k];
      }
      WeightOfSome(front, others);
      assert ms == ms[..j] + ([last] + ms[j + 1..]) && [last][..0] == [];
      WeightAppend(ms[..j], [last] + ms[j + 1..]);
      WeightAppend([last], ms[j + 1..]);
      WeightAppend(ms[..j], ms[j + 1..]);
    }
  }

  // Two records of one file are the same.
  lemma KeptIsMember(s: Tree, sha: string -> string, ms: seq<Member>, q: Path) returns (m: Member)
    requires Valid(s) && Snapshot(s, sha, ms) && InScope(s, [], Children(s, []), q) && s[q].File?
    ensures m in ms && Records(s, sha, q, m)
  {
    PathsAreNames(s, q);
    PathTextSplits(q);
    assert PathText(q) in Paths(ms);
    m :| m in ms && m.path == PathText(q);
    var i :| 0 <= i < |ms| && ms[i] == m;
    assert Records(s, sha, Split(ms[i].path, '/'), ms[i]);
  }

  // And a collection that went through found nothing.
  lemma SnapshotIsFit(s: Tree, sha: string -> string, ms: seq<Member>)
    requires Valid(s) && Snapshot(s, sha, ms) && |Seen(s, [], Children(s, []))| <= ENTRY_LIMIT
    requires Weight(ms) <= ARCHIVE_LIMIT && forall m :: m in ms ==> |m.data| <= FILE_LIMIT
    ensures Fit(s, sha)
  {
    if Overlong(s) {
      var q :| InScope(s, [], Children(s, []), q) && s[q].File? && |s[q].data| > FILE_LIMIT;
      var _ := KeptIsMember(s, sha, ms, q);
    }
    if Overweight(s, sha) {
      var some: seq<Member> :| Partial(s, sha, [], Children(s, []), some) && Weight(some) > ARCHIVE_LIMIT;
      forall i | 0 <= i < |some| ensures some[i] in ms {
        var q := Split(some[i].path, '/');
        assert Records(s, sha, q, some[i]) && InScope(s, [], Children(s, []), q);
        var m := KeptIsMember(s, sha, ms, q);
        assert m == some[i];
      }
      WeightOfSome(some, ms);
    }
  }

  lemma JustifiedThrough(s: Tree, at: Path, name: string, why: Refusal)
    requires name in Children(s, at) && Justified(s, at + [name], why)
    ensures Justified(s, at, why)
  {
    var c := at + [name];
    assert forall q :: c <= q ==> at < q && q[|at|] == c[|at|] == name;
    assert forall q :: InScope(s, c, Children(s, c), q) ==> c <= q && InScope(s, at, Children(s, at), q);
  }

  lemma JustifiedHere(s: Tree, at: Path, name: string, why: Refusal)
    requires at + [name] in s && Kept(at + [name])
    requires why == UnsafeName ==> !Spellable(PathText(at + [name]))
    requires why == Symlink ==> s[at + [name]].Link?
    requires why != TooDeep
    ensures Justified(s, at, why)
  {
    assert (at + [name])[|at|] == name;
    assert InScope(s, at, Children(s, at), at + [name]);
  }

  lemma JustifiedDepth(s: Tree, at: Path)
    requires IsDir(s, at) && Kept(at) && |at| > 64
    ensures Justified(s, at, TooDeep)
  {
  }

  // Some refusals blame nothing in the tree.
  lemma BlamesNothing(s: Tree, at: Path)
    ensures forall why :: why !in {TooDeep, UnsafeName, Symlink} ==> Justified(s, at, why)
  {
  }

  // And where nothing is dealt with, nothing was seen.
  lemma NothingSeenYet(s: Tree, at: Path)
    ensures Justified(s, at, IoError) && Justified(s, at, TooLarge) && Justified(s, at, Oversize)
    ensures |Seen(s, at, {})| == 0
  {
    assert Seen(s, at, {}) == {};
  }

  lemma SeenPush(s: Tree, at: Path, done: set<string>, name: string)
    requires name !in done
    ensures |Seen(s, at, done + {name})| == |Seen(s, at, done)| + |Seen(s, at, {name})|
  {
    assert Seen(s, at, done + {name}) == Seen(s, at, done) + Seen(s, at, {name});
  }

  lemma {:induction false} SubsetIsSmaller(a: set<Path>, b: set<Path>)
    requires a <= b
    ensures |a| <= |b|
    decreases |a|
  {
    if a == {} {
    } else {
      var q :| q in a;
      SubsetIsSmaller(a - {q}, b - {q});
    }
  }

  lemma SeenWithin(s: Tree, at: Path, done: set<string>, name: string, all: set<string>)
    requires name !in done && done + {name} <= all
    ensures |Seen(s, at, done)| + |Seen(s, at, {name})| <= |Seen(s, at, all)|
  {
    SeenPush(s, at, done, name);
    SubsetIsSmaller(Seen(s, at, done + {name}), Seen(s, at, all));
  }

  lemma ThroughName(at: Path, name: string, q: Path)
    requires at < q && q[|at|] == name
    ensures q == at + [name] || (at + [name] < q && at + [name] <= Parent(q))
    ensures q == at + [name] ==> Parent(q) == at && Last(q) == name
  {
    assert q[..|at| + 1] == at + [name];
  }

  lemma KeptBelow(p: Path, q: Path)
    requires p <= q && Kept(q)
    ensures Kept(p)
  {
    assert p == q[..|p|];
    KeptPrefix(q, |p|);
  }

  lemma SeenExcluded(s: Tree, at: Path, name: string)
    requires Excluded(name)
    ensures Seen(s, at, {name}) == {}
  {
    forall q ensures q !in Seen(s, at, {name}) {
      if at < q && q[|at|] == name {
        ThroughName(at, name, q);
        ExcludedDrops(at, name, Parent(q));
      }
    }
  }

  lemma ExcludedDrops(at: Path, name: string, p: Path)
    requires Excluded(name)
    ensures at + [name] <= p ==> !Kept(p)
  {
    assert (at + [name])[|at|] == name;
  }

  // A child that is not entered counts for itself.
  lemma SeenAlone(s: Tree, at: Path, name: string)
    requires Valid(s) && at + [name] in s && Kept(at) && !Excluded(name)
    requires !Kept(at + [name]) || !IsDir(s, at + [name])
    ensures |Seen(s, at, {name})| == 1
  {
    ThroughName(at, name, at + [name]);
    forall q | q in Seen(s, at, {name}) ensures q == at + [name] {
      ThroughName(at, name, q);
      if q != at + [name] {
        KeptBelow(at + [name], Parent(q));
        ScopeThrough(s, at, q, name);
      }
    }
    assert Seen(s, at, {name}) == {at + [name]};
  }

  // A child that is entered counts for itself and for what is seen in it.
  lemma SeenDirectory(s: Tree, at: Path, name: string)
    requires Valid(s) && at + [name] in s && Kept(at) && !Excluded(name)
    ensures |Seen(s, at, {name})| == 1 + |Seen(s, at + [name], Children(s, at + [name]))|
  {
    var c := at + [name];
    ThroughName(at, name, c);
    forall q ensures q in Seen(s, at, {name}) <==> q == c || q in Seen(s, c, Children(s, c)) {
      if c <= q {
        assert q[|at|] == c[|at|];
      }
      if at < q && q[|at|] == name {
        ThroughName(at, name, q);
        if q in s && c < q {
          ScopeChild(s, c, q);
        }
      }
    }
    assert Seen(s, at, {name}) == {c} + Seen(s, c, Children(s, c));
    assert c !in Seen(s, c, Children(s, c));
  }

  datatype ReadResult = Bytes(data: string) | NotRegular | TooBig | ReadFailed

  // read_file: the whole regular file or nothing, however the reads are cut up.
  method ReadFile(disk: Disk, p: Path, limit: nat) returns (r: ReadResult)
    modifies disk`interrupts
    ensures r.Bytes? ==> p in disk.tree && disk.tree[p] == File(r.data) && |r.data| <= limit
    ensures r.NotRegular? ==> !IsFile(disk.tree, p)
    ensures r.TooBig? ==> IsFile(disk.tree, p) && |disk.tree[p].data| > limit
    ensures disk.interrupts <= old(disk.interrupts)
    ensures old(disk.Smooth()) ==> r != ReadFailed
  {
    var fails := disk.Fails();
    if fails {
      return ReadFailed;
    }
    if !IsFile(disk.tree, p) {
      return NotRegular;
    }
    if |disk.tree[p].data| > limit {
      return TooBig;
    }
    var size := |disk.tree[p].data|;
    var data := "";
    var offset := 0;
    while offset < size
      invariant offset == |data| <= size && disk.interrupts <= old(disk.interrupts)
      invariant data == disk.tree[p].data[..offset]
      decreases size - offset, disk.interrupts
    {
      var r, bytes := disk.Read(p, offset, size - offset);
      if r.Interrupted? {
        continue;
      }
      if !r.Moved? || r.count == 0 {
        break;
      }
      data := data + bytes;
      offset := offset + r.count;
    }
    var extra, _ := disk.Read(p, offset, 1);
    if offset != size || extra != Moved(0) {
      return ReadFailed;
    }
    assert disk.tree[p].data[..size] == disk.tree[p].data;
    return Bytes(data);
  }

  lemma NothingReached(s: Tree, sha: string -> string, at: Path, all: set<string>, before: seq<Member>)
    ensures Partial(s, sha, at, all, [])
    ensures forall why :: why !in {TooLarge, Oversize} ==> Heavy(why, before, [])
  {
  }

  // A refusal that blames no size leaves what came before as it was.
  lemma ScopeOf(s: Tree, sha: string -> string, at: Path, done: set<string>, name: string, ms: seq<Member>,
                before: seq<Member>)
    requires Gathers(s, sha, at, done, ms)
    ensures Partial(s, sha, at, done, ms) && Partial(s, sha, at, done + {name}, ms)
    ensures forall why :: why !in {TooLarge, Oversize} ==> Heavy(why, before, [])
  {
    PartialGrows(s, sha, at, done, done + {name}, ms);
  }

  // The builder and the two counters that collect updates through pointers.
  class Collector {
    var members: seq<Member>
    var total: nat
    var entries: nat

    constructor ()
      ensures members == [] && total == 0 && entries == 0
    {
      members, total, entries := [], 0, 0;
    }

    // The total is the weight of the members, within every limit.
    ghost predicate Accounted()
      reads this
    {
      && total == Weight(members) <= ARCHIVE_LIMIT
      && |members| <= entries <= ENTRY_LIMIT
      && forall m :: m in members ==> |m.data| <= FILE_LIMIT
    }

    // Where the accounts stand when a refusal ends the collection: as at the
    // last member, except that the count that went over its limit shows it.
    ghost predicate AccountedRefusal(why: Refusal)
      reads this
    {
      && (if why == TooLarge then total > ARCHIVE_LIMIT else total == Weight(members))
      && Weight(members) <= ARCHIVE_LIMIT && |members| <= entries
      && (if why == TooManyEntries then entries == ENTRY_LIMIT + 1 else entries <= ENTRY_LIMIT)
      && forall m :: m in members ==> |m.data| <= FILE_LIMIT
    }

    // What a caller of collect may rely on, for the directory at.
    ghost predicate Ready(s: Tree, at: Path, prefix: string, depth: nat)
      reads this
    {
      Valid(s) && IsDir(s, at) && AreNames(at) && Kept(at) &&
      prefix == PathText(at) && depth == |at| && Accounted()
    }

    // collect: every entry of the directory at, in any listing order. The state
    // directory is base on disk, and s is what lies below it. added is what this
    // call contributed to the builder.
    method Collect(disk: Disk, base: Path, s: Tree, sha: string -> string, at: Path, prefix: string, depth: nat)
      returns (r: Outcome, ghost added: seq<Member>, ghost reached: seq<Member>)
      requires s == Below(disk.tree, base)
      requires Ready(s, at, prefix, depth)
      modifies this, disk`interrupts
      ensures members == old(members) + added
      ensures disk.interrupts <= old(disk.interrupts)
      ensures old(disk.Smooth()) ==> r != Refused(IoError)
      ensures r == Ok ==> Accounted() && depth <= 64
      ensures r == Ok ==> Gathers(s, sha, at, Children(s, at), added)
      ensures r == Ok ==> entries == old(entries) + |Seen(s, at, Children(s, at))|
      ensures entries <= old(entries) + |Seen(s, at, Children(s, at))|
      ensures r.Refused? ==> AccountedRefusal(r.why) && Justified(s, at, r.why)
      ensures r.Refused? ==> Partial(s, sha, at, Children(s, at), reached) && Heavy(r.why, old(members), reached)
      decreases 65 - depth, 2
    {
      hide Justified, Gathers, Seen, Partial, Heavy, Weight, Children, Below, Valid, Kept, AreNames;
      added, reached := [], [];
      NothingReached(s, sha, at, Children(s, at), old(members));
      if depth > 64 {
        JustifiedDepth(s, at);
        return Refused(TooDeep), [], [];
      }
      NothingSeenYet(s, at);
      var fails := disk.Fails();
      if fails {
        return Refused(IoError), [], [];
      }
      r := Ok;
      var all := Children(s, at);
      var todo := all;
      ghost var done: set<string> := {};
      GathersNothing(s, sha, at);
      while todo != {}
        invariant todo <= all && done == all - todo && disk.interrupts <= old(disk.interrupts)
        invariant r == Ok && Accounted() && members == old(members) + added
        invariant Gathers(s, sha, at, done, added)
        invariant entries == old(entries) + |Seen(s, at, done)|
        decreases |todo|
      {
        var name :| name in todo;
        ghost var more, met;
        SeenWithin(s, at, done, name, all);
        r, more, met := CollectEntry(disk, base, s, sha, at, prefix, depth, name, done, added);
        assert members == old(members) + (added + more) by {
          Regroup(old(members), added, more);
        }
        if r.Refused? {
          PartialGrows(s, sha, at, done + {name}, all, added + met);
          HeavyLater(r.why, old(members), added, met);
          reached := added + met;
          added := added + more;
          return;
        }
        added := added + more;
        DealtWith(all, todo, name);
        SeenPush(s, at, done, name);
        todo := todo - {name};
        done := done + {name};
      }
      assert done == all;
    }

    // One turn of the loop in collect; ghost arguments say what came before it.
    method CollectEntry(disk: Disk, base: Path, s: Tree, sha: string -> string, at: Path, prefix: string, depth: nat,
                        name: string, ghost done: set<string>, ghost before: seq<Member>)
      returns (r: Outcome, ghost added: seq<Member>, ghost reached: seq<Member>)
      requires s == Below(disk.tree, base)
      requires Ready(s, at, prefix, depth) && depth <= 64
      requires at + [name] in s && name !in done
      requires Gathers(s, sha, at, done, before)
      modifies this, disk`interrupts
      ensures members == old(members) + added
      ensures disk.interrupts <= old(disk.interrupts)
      ensures old(disk.Smooth()) ==> r != Refused(IoError)
      ensures r == Ok ==> Accounted()
      ensures r == Ok ==> Gathers(s, sha, at, done + {name}, before + added)
      ensures r == Ok ==> entries == old(entries) + |Seen(s, at, {name})|
      ensures entries <= old(entries) + |Seen(s, at, {name})|
      ensures r.Refused? ==> AccountedRefusal(r.why) && Justified(s, at, r.why)
      ensures r.Refused? ==> Partial(s, sha, at, done + {name}, before + reached) && Heavy(r.why, old(members), reached)
      decreases 65 - depth, 1
    {
      hide Justified, Gathers, Seen, Partial, Heavy, Excluded, GeneratedConfig, Kept, PathText;
      added, reached := [], [];
      assert before + [] == before;
      BlamesNothing(s, at);
      ScopeOf(s, sha, at, done, name, before, old(members));
      PathsAreNames(s, at + [name]);
      KeptChild(at, name);
      if Excluded(name) {
        SeenExcluded(s, at, name);
        GathersDropped(s, sha, at, done, before, name);
        return Ok, [], [];
      }
      SeenDirectory(s, at, name);
      entries := entries + 1;
      if entries > ENTRY_LIMIT {
        return Refused(TooManyEntries), [], [];
      }
      var path := if prefix != "" then prefix + "/" + name else name;
      ChildText(at, name);
      if GeneratedConfig(path) {
        SeenAlone(s, at, name);
        GathersDropped(s, sha, at, done, before, name);
        return Ok, [], [];
      }
      r, added, reached := CollectKept(disk, base, s, sha, at, depth, name, path, done, before);
    }

    // The rest of the turn, for a name the backup keeps.
    method CollectKept(disk: Disk, base: Path, s: Tree, sha: string -> string, at: Path, depth: nat,
                       name: string, path: string, ghost done: set<string>, ghost before: seq<Member>)
      returns (r: Outcome, ghost added: seq<Member>, ghost reached: seq<Member>)
      requires s == Below(disk.tree, base)
      requires Valid(s) && depth == |at| && depth <= 64 && Kept(at) && !Excluded(name)
      requires Accounted() && |members| < entries
      requires path == PathText(at + [name]) && AreNames(at + [name]) && Kept(at + [name])
      requires at + [name] in s && name !in done
      requires Gathers(s, sha, at, done, before)
      modifies this, disk`interrupts
      ensures members == old(members) + added
      ensures disk.interrupts <= old(disk.interrupts)
      ensures old(disk.Smooth()) ==> r != Refused(IoError)
      ensures r == Ok ==> Accounted()
      ensures r == Ok ==> Gathers(s, sha, at, done + {name}, before + added)
      ensures r == Ok ==> entries + 1 == old(entries) + |Seen(s, at, {name})|
      ensures entries + 1 <= old(entries) + |Seen(s, at, {name})|
      ensures r.Refused? ==> AccountedRefusal(r.why) && Justified(s, at, r.why)
      ensures r.Refused? ==> Partial(s, sha, at, done + {name}, before + reached) && Heavy(r.why, old(members), reached)
      decreases 65 - depth, 0
    {
      hide Justified, Gathers, Seen, Partial, Heavy, Excluded, GeneratedConfig, Kept, PathText, SafePath;
      added, reached := [], [];
      assert before + [] == before;
      BlamesNothing(s, at);
      ScopeOf(s, sha, at, done, name, before, old(members));
      SeenDirectory(s, at, name);
      var safe := CheckSafePath(path);
      DepthIsComponents(at + [name]);
      if !safe {
        JustifiedHere(s, at, name, UnsafeName);
        return Refused(UnsafeName), [], [];
      }
      var fails := disk.Fails();
      if fails {
        return Refused(IoError), [], [];
      }
      var here := s[at + [name]];
      if here.Link? {
        JustifiedHere(s, at, name, Symlink);
        return Refused(Symlink), [], [];
      }
      if here.Dir? {
        fails := disk.Fails();
        if fails {
          return Refused(IoError), [], [];
        }
        r, added, reached := Collect(disk, base, s, sha, at + [name], path, depth + 1);
        if r.Refused? {
          PartialDirectory(s, sha, at, done, before, name, reached);
          JustifiedThrough(s, at, name, r.why);
        } else {
          GathersDirectory(s, sha, at, done, before, name, added);
        }
      } else if !here.File? {
        SeenAlone(s, at, name);
        GathersOther(s, sha, at, done, before, name);
        return Ok, [], [];
      } else {
        SeenAlone(s, at, name);
        ghost var m;
        r, m := CollectFile(disk, base, s, sha, at, name, path);
        if r == Ok {
          GathersFile(s, sha, at, done, before, name, m);
          added := [m];
        } else if r.why in {TooLarge, Oversize} {
          PartialFile(s, sha, at, done, before, name, m);
          reached := [m];
        }
      }
    }

    // The tail of the loop: a regular file becomes a member, m.
    method CollectFile(disk: Disk, base: Path, s: Tree, sha: string -> string, at: Path, name: string, path: string)
      returns (r: Outcome, ghost m: Member)
      requires s == Below(disk.tree, base) && IsFile(s, at + [name])
      requires |members| < entries && Accounted()
      requires path == PathText(at + [name]) && SafePath(path) && AreNames(at + [name]) && Kept(at + [name])
      modifies this, disk`interrupts
      ensures entries == old(entries) && disk.interrupts <= old(disk.interrupts)
      ensures old(disk.Smooth()) ==> r != Refused(IoError)
      ensures r == Ok ==> members == old(members) + [m] && Accounted()
      ensures Records(s, sha, at + [name], m)
      ensures r.Refused? ==> members == old(members) && AccountedRefusal(r.why) && r.why in {IoError, Oversize, TooLarge}
      ensures r.Refused? ==> Heavy(r.why, members, [m])
    {
      // The subtraction never goes below zero: limit is a nat.
      var limit: nat := if FILE_LIMIT < ARCHIVE_LIMIT - total then FILE_LIMIT else ARCHIVE_LIMIT - total;
      var here := base + (at + [name]);
      m := Member(path, sha(s[at + [name]].data), s[at + [name]].data);
      WeightPush(members, m);
      var bytes := ReadFile(disk, here, limit);
      if bytes.TooBig? {
        return Refused(Oversize), m;
      }
      if !bytes.Bytes? {
        return Refused(IoError), m;
      }
      total := total + |bytes.data| + |path| + 128;
      if total > ARCHIVE_LIMIT {
        return Refused(TooLarge), m;
      }
      members := members + [Member(path, sha(bytes.data), bytes.data)];
      return Ok, m;
    }
  }

  lemma ChildText(at: Path, name: string)
    requires AreNames(at + [name])
    ensures PathText(at + [name]) == if PathText(at) != "" then PathText(at) + "/" + name else name
  {
    if at != [] {
      assert AreNames(at) by {
        assert forall i :: 0 <= i < |at| ==> at[i] == (at + [name])[i];
      }
      PathTextSplits(at);
      JoinAppend(at, [name], "/");
    }
  }
}
