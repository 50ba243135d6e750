// Laying one tree over another (src/clawt-util.c, clawt_copy_tree): what is taken,
// where it goes, and how the whole grows child by child.

module Overlay {
  import opened Strings
  import opened Files

  predicate Kept(q: Path, keepGit: bool) {
    keepGit || ".git" !in q
  }

  // What a copy takes from s: everything, or everything outside .git.
  function Taken(s: Tree, keepGit: bool): Tree {
    map q | q in s && Kept(q, keepGit) :: s[q]
  }

  // The part of it that lies at the top or below the children named in done.
  function TakenPart(s: Tree, keepGit: bool, done: set<string>): Tree {
    map q | q in s && Kept(q, keepGit) && (q == [] || q[0] in done) :: s[q]
  }

  // What laying it over d makes of each path.
  lemma OverlayMeans(s: Tree, d: Tree, keepGit: bool)
    ensures forall q ::
      if q in s && (keepGit || ".git" !in q) then q in d + Taken(s, keepGit) && (d + Taken(s, keepGit))[q] == s[q]
      else AgreeAt(d + Taken(s, keepGit), d, q)
    ensures Leaves(Taken(s, keepGit)) == set q | q in s && (keepGit || ".git" !in q) && !s[q].Dir?
  {
  }

  // The entries that count as copied.
  function Leaves(s: Tree): set<Path> {
    set q | q in s && !s[q].Dir?
  }

  // No directory to be copied is a link at the target.
  ghost predicate Unlinked(s: Tree, d: Tree, keepGit: bool) {
    forall q :: q in s && Kept(q, keepGit) && s[q].Dir? && q in d ==> !d[q].Link?
  }

  // ---------------------------------------------------------------------
  // Taking one more child.

  // r below the child name, as seen from the directory.
  function In(name: string, r: Path): Path {
    [name] + r
  }

  lemma InShape(name: string, r: Path)
    ensures In(name, r) != [] && In(name, r)[0] == name && In(name, r)[1..] == r
  {
  }

  lemma Inside(name: string, q: Path)
    requires q != [] && q[0] == name
    ensures q == In(name, q[1..])
  {
  }

  // Seeing from a child of what is seen from its directory.
  lemma BelowChild(t: Tree, p: Path, name: string, r: Path)
    ensures r in Below(t, p + [name]) <==> In(name, r) in Below(t, p)
    ensures r in Below(t, p + [name]) ==> Below(t, p + [name])[r] == Below(t, p)[In(name, r)]
  {
    assert (p + [name]) + r == p + In(name, r);
  }

  lemma KeptIn(name: string, r: Path, keepGit: bool)
    ensures Kept(In(name, r), keepGit) <==> Kept([name], keepGit) && Kept(r, keepGit)
  {
    assert forall c :: c in In(name, r) <==> c == name || c in r;
  }

  // x is what a child offers: seen from the child, the part of s below it.
  ghost predicate ChildOf(s: Tree, name: string, x: Tree) {
    forall r :: (r in x <==> In(name, r) in s) && (r in x ==> x[r] == s[In(name, r)])
  }

  lemma BelowIsChild(t: Tree, p: Path, name: string)
    ensures ChildOf(Below(t, p), name, Below(t, p + [name]))
  {
    forall r
      ensures r in Below(t, p + [name]) <==> In(name, r) in Below(t, p)
      ensures r in Below(t, p + [name]) ==> Below(t, p + [name])[r] == Below(t, p)[In(name, r)]
    {
      BelowChild(t, p, name, r);
    }
  }

  lemma TakenInside(s: Tree, keepGit: bool, done: set<string>, name: string, x: Tree, r: Path)
    requires Kept([name], keepGit) && ChildOf(s, name, x)
    ensures In(name, r) in TakenPart(s, keepGit, done + {name}) <==> r in Taken(x, keepGit)
    ensures r in Taken(x, keepGit) ==> TakenPart(s, keepGit, done + {name})[In(name, r)] == Taken(x, keepGit)[r]
    ensures name !in done ==> In(name, r) !in TakenPart(s, keepGit, done)
  {
    InShape(name, r);
    KeptIn(name, r, keepGit);
    assert r in x <==> In(name, r) in s;
  }

  lemma TakenElsewhere(s: Tree, keepGit: bool, done: set<string>, name: string, q: Path)
    requires q == [] || q[0] != name
    ensures q in TakenPart(s, keepGit, done + {name}) <==> q in TakenPart(s, keepGit, done)
    ensures q in TakenPart(s, keepGit, done) ==>
      TakenPart(s, keepGit, done + {name})[q] == TakenPart(s, keepGit, done)[q]
  {
  }

  // e and f are the same node, or both nothing, at q.
  predicate AgreeAt(e: Tree, f: Tree, q: Path) {
    (q in e <==> q in f) && (q in e ==> e[q] == f[q])
  }

  // x, y and z are what the child name offers in s, d and e, and e and d differ only there.
  ghost predicate ChildView(name: string, s: Tree, d: Tree, e: Tree, x: Tree, y: Tree, z: Tree) {
    && ChildOf(s, name, x) && ChildOf(d, name, y) && ChildOf(e, name, z)
    && forall q :: q == [] || q[0] != name ==> AgreeAt(e, d, q)
  }

  // The target, seen as a whole, after one child of it was overlaid.
  lemma OverlayChild(s: Tree, keepGit: bool, done: set<string>, name: string, d0: Tree, d: Tree, e: Tree,
                     x: Tree, y: Tree, z: Tree)
    requires name !in done && Kept([name], keepGit)
    requires d == d0 + TakenPart(s, keepGit, done)
    requires ChildView(name, s, d, e, x, y, z)
    requires z == y + Taken(x, keepGit)
    ensures e == d0 + TakenPart(s, keepGit, done + {name})
  {
    var f := d0 + TakenPart(s, keepGit, done + {name});
    forall q ensures AgreeAt(e, f, q) {
      if q != [] && q[0] == name {
        Inside(name, q);
        OverlayInside(s, keepGit, done, name, d0, d, e, x, y, z, q[1..]);
      } else {
        assert AgreeAt(e, d, q);
        TakenElsewhere(s, keepGit, done, name, q);
      }
    }
    SameEverywhere(e, f);
  }

  lemma SameEverywhere(e: Tree, f: Tree)
    requires forall q :: AgreeAt(e, f, q)
    ensures e == f
  {
    forall q ensures q in e <==> q in f {
      assert AgreeAt(e, f, q);
    }
    forall q | q in e ensures e[q] == f[q] {
      assert AgreeAt(e, f, q);
    }
  }

  lemma OverlayInside(s: Tree, keepGit: bool, done: set<string>, name: string, d0: Tree, d: Tree, e: Tree,
                      x: Tree, y: Tree, z: Tree, r: Path)
    requires name !in done && Kept([name], keepGit)
    requires d == d0 + TakenPart(s, keepGit, done)
    requires ChildOf(s, name, x) && ChildOf(d, name, y) && ChildOf(e, name, z)
    requires z == y + Taken(x, keepGit)
    ensures AgreeAt(e, d0 + TakenPart(s, keepGit, done + {name}), In(name, r))
  {
    TakenInside(s, keepGit, done, name, x, r);
    OverlayPoint(d0, TakenPart(s, keepGit, done), TakenPart(s, keepGit, done + {name}), d, e, In(name, r),
                 y, Taken(x, keepGit), z, r);
  }

  // What a child gained at r is what the whole gained at q.
  lemma OverlayPoint(d0: Tree, before: Tree, after: Tree, d: Tree, e: Tree, q: Path, y: Tree, w: Tree, z: Tree, r: Path)
    requires d == d0 + before && q !in before
    requires (q in after <==> r in w) && (r in w ==> after[q] == w[r])
    requires (r in y <==> q in d) && (r in y ==> y[r] == d[q])
    requires (r in z <==> q in e) && (r in z ==> z[r] == e[q])
    requires z == y + w
    ensures AgreeAt(e, d0 + after, q)
  {
  }

  // The same paths, seen from the directory.
  function Raised(name: string, x: set<Path>): set<Path> {
    set r | r in x :: In(name, r)
  }

  lemma RaisedHolds(name: string, x: set<Path>, q: Path)
    ensures q in Raised(name, x) <==> q != [] && q[0] == name && q[1..] in x
  {
    if q != [] && q[0] == name {
      Inside(name, q);
    }
    if q in Raised(name, x) {
      var r :| r in x && q == In(name, r);
      InShape(name, r);
    }
  }

  lemma {:induction false} RaisedCount(name: string, x: set<Path>)
    ensures |Raised(name, x)| == |x|
  {
    if x == {} {
      assert Raised(name, x) == {};
    } else {
      var r :| r in x;
      RaisedCount(name, x - {r});
      InShape(name, r);
      forall q ensures q in Raised(name, x) <==> q in Raised(name, x - {r}) || q == In(name, r) {
        RaisedHolds(name, x, q);
        RaisedHolds(name, x - {r}, q);
        if q != [] && q[0] == name {
          Inside(name, q);
        }
      }
      RaisedHolds(name, x - {r}, In(name, r));
      assert Raised(name, x) == Raised(name, x - {r}) + {In(name, r)};
    }
  }

  lemma LeafAt(s: Tree, keepGit: bool, done: set<string>, name: string, x: Tree, q: Path)
    requires name !in done && Kept([name], keepGit) && ChildOf(s, name, x)
    ensures q in Leaves(TakenPart(s, keepGit, done + {name})) <==>
      q in Leaves(TakenPart(s, keepGit, done)) || q in Raised(name, Leaves(Taken(x, keepGit)))
    ensures !(q in Leaves(TakenPart(s, keepGit, done)) && q in Raised(name, Leaves(Taken(x, keepGit))))
  {
    RaisedHolds(name, Leaves(Taken(x, keepGit)), q);
    if q != [] && q[0] == name {
      Inside(name, q);
      TakenInside(s, keepGit, done, name, x, q[1..]);
    } else {
      TakenElsewhere(s, keepGit, done, name, q);
    }
  }

  lemma {:induction false} Count(after: set<Path>, before: set<Path>, more: set<Path>)
    requires forall q :: q in after <==> q in before || q in more
    requires forall q :: !(q in before && q in more)
    ensures |after| == |before| + |more|
  {
    assert after == before + more;
  }

  lemma LeavesChild(s: Tree, keepGit: bool, done: set<string>, name: string, x: Tree)
    requires name !in done && Kept([name], keepGit) && ChildOf(s, name, x)
    ensures |Leaves(TakenPart(s, keepGit, done + {name}))| ==
            |Leaves(TakenPart(s, keepGit, done))| + |Leaves(Taken(x, keepGit))|
  {
    var more := Leaves(Taken(x, keepGit));
    forall q
      ensures q in Leaves(TakenPart(s, keepGit, done + {name})) <==>
        q in Leaves(TakenPart(s, keepGit, done)) || q in Raised(name, more)
      ensures !(q in Leaves(TakenPart(s, keepGit, done)) && q in Raised(name, more))
    {
      LeafAt(s, keepGit, done, name, x, q);
    }
    Count(Leaves(TakenPart(s, keepGit, done + {name})), Leaves(TakenPart(s, keepGit, done)), Raised(name, more));
    RaisedCount(name, more);
  }

  // A child that is not taken changes neither.
  lemma SkipChild(s: Tree, keepGit: bool, done: set<string>, name: string)
    requires !Kept([name], keepGit)
    ensures TakenPart(s, keepGit, done + {name}) == TakenPart(s, keepGit, done)
  {
    forall q | q != [] && q[0] == name ensures !Kept(q, keepGit) {
      assert q[0] in q;
    }
  }

  // ---------------------------------------------------------------------
  // The tree while a copy goes on.

  // Away from p, all there was is as it was, and only directories above p are new.
  ghost predicate Around(t: Tree, u: Tree, p: Path) {
    && (forall q :: q in t && !Under(q, p) ==> q in u && u[q] == t[q])
    && (forall q :: q in u && q !in t && !Under(q, p) ==> q <= p && u[q].Dir?)
  }

  // Below a target, only what is taken from s may have changed.
  ghost predicate OnlyTaken(s: Tree, keepGit: bool, d: Tree, e: Tree) {
    forall q :: q != [] && q !in Taken(s, keepGit) ==> AgreeAt(e, d, q)
  }

  // Part way: the children named in done have been dealt with.
  ghost predicate Copying(t: Tree, u: Tree, source: Path, target: Path, keepGit: bool, done: set<string>) {
    && Valid(u) && IsDir(u, target) && Around(t, u, target)
    && Below(u, source) == Below(t, source)
    && Below(u, target) == Below(t, target) + TakenPart(Below(t, source), keepGit, done)
  }

  lemma NotUnderTarget(source: Path, target: Path, r: Path)
    requires Apart(source, target)
    ensures !Under(source + r, target) && !(source + r <= target)
  {
    if Under(source + r, target) {
      PrefixesCompare(source, target, source + r);
    }
    if source + r <= target {
      PrefixOfPrefix(source, r, target);
    }
  }

  lemma PrefixOfPrefix(p: Path, r: Path, q: Path)
    requires p + r <= q
    ensures Under(q, p)
  {
    assert p == (p + r)[..|p|] == q[..|p|];
  }

  lemma AroundKeepsSource(t: Tree, u: Tree, source: Path, target: Path)
    requires Apart(source, target) && Around(t, u, target)
    ensures Below(u, source) == Below(t, source)
  {
    forall r ensures AgreeAt(Below(u, source), Below(t, source), r) {
      NotUnderTarget(source, target, r);
    }
    SameEverywhere(Below(u, source), Below(t, source));
  }

  lemma MadeIsAround(t: Tree, u: Tree, p: Path)
    requires forall q :: q in t ==> q in u && u[q] == t[q]
    requires forall q :: q in u && q !in t ==> q <= p && u[q].Dir?
    ensures Around(t, u, p)
    ensures forall r :: r != [] ==> AgreeAt(Below(u, p), Below(t, p), r)
  {
    forall r | r != [] ensures AgreeAt(Below(u, p), Below(t, p), r) {
      assert !(p + r <= p);
    }
  }

  lemma CopyingStarts(t: Tree, u: Tree, source: Path, target: Path, keepGit: bool)
    requires Valid(u) && Apart(source, target) && IsDir(t, source) && IsDir(u, target)
    requires Around(t, u, target) && forall r :: r != [] ==> AgreeAt(Below(u, target), Below(t, target), r)
    ensures Copying(t, u, source, target, keepGit, {})
  {
    AroundKeepsSource(t, u, source, target);
    assert source + [] == source && target + [] == target;
    var e, f := Below(u, target), Below(t, target) + TakenPart(Below(t, source), keepGit, {});
    forall q ensures AgreeAt(e, f, q) {
      if q != [] {
        assert AgreeAt(e, Below(t, target), q);
      }
    }
    SameEverywhere(e, f);
  }

  // Seen from p, a change below one child is seen nowhere else.
  lemma ElsewhereSame(u: Tree, v: Tree, p: Path, name: string, q: Path)
    requires SameOutside(u, v, p + [name]) && (q == [] || q[0] != name)
    ensures AgreeAt(Below(v, p), Below(u, p), q)
  {
    if Under(p + q, p + [name]) {
      ThroughChild(p, name, q);
    }
  }

  lemma ThroughChild(p: Path, name: string, q: Path)
    requires Under(p + q, p + [name])
    ensures q != [] && q[0] == name
  {
    assert (p + q)[|p|] == (p + [name])[|p|];
  }

  lemma ViewOfChild(u: Tree, v: Tree, source: Path, target: Path, name: string)
    requires SameOutside(u, v, target + [name])
    ensures ChildView(name, Below(u, source), Below(u, target), Below(v, target),
                      Below(u, source + [name]), Below(u, target + [name]), Below(v, target + [name]))
  {
    BelowIsChild(u, source, name);
    BelowIsChild(u, target, name);
    BelowIsChild(v, target, name);
    forall q | q == [] || q[0] != name ensures AgreeAt(Below(v, target), Below(u, target), q) {
      ElsewhereSame(u, v, target, name, q);
    }
  }

  lemma ChildOverlaid(u: Tree, v: Tree, source: Path, target: Path, keepGit: bool, done: set<string>, name: string, d0: Tree)
    requires name !in done && Kept([name], keepGit)
    requires Below(u, target) == d0 + TakenPart(Below(u, source), keepGit, done)
    requires SameOutside(u, v, target + [name])
    requires Below(v, target + [name]) == Below(u, target + [name]) + Taken(Below(u, source + [name]), keepGit)
    ensures Below(v, target) == d0 + TakenPart(Below(u, source), keepGit, done + {name})
  {
    ViewOfChild(u, v, source, target, name);
    OverlayChild(Below(u, source), keepGit, done, name, d0, Below(u, target), Below(v, target),
                 Below(u, source + [name]), Below(u, target + [name]), Below(v, target + [name]));
  }

  // The whole step of one child.
  lemma CopyingStep(t: Tree, u: Tree, v: Tree, source: Path, target: Path, keepGit: bool, done: set<string>, name: string)
    requires Apart(source, target) && Copying(t, u, source, target, keepGit, done)
    requires name !in done && Kept([name], keepGit)
    requires Valid(v) && SameOutside(u, v, target + [name])
    requires Below(v, target + [name]) == Below(u, target + [name]) + Taken(Below(u, source + [name]), keepGit)
    ensures Copying(t, v, source, target, keepGit, done + {name})
  {
    StaysAround(t, u, v, source, target, name);
    ChildOverlaid(u, v, source, target, keepGit, done, name, Below(t, target));
  }

  lemma StaysAround(t: Tree, u: Tree, v: Tree, source: Path, target: Path, name: string)
    requires Apart(source, target) && IsDir(u, target) && Around(t, u, target) && SameOutside(u, v, target + [name])
    ensures IsDir(v, target) && Around(t, v, target) && Below(v, source) == Below(u, source)
  {
    assert !Under(target, target + [name]);
    forall q | !Under(q, target) ensures !Under(q, target + [name]) {
      assert target <= target + [name];
    }
    assert Around(u, v, target);
    AroundKeepsSource(u, v, source, target);
  }

  lemma StaysUnlinked(s: Tree, keepGit: bool, done: set<string>, d: Tree, e: Tree)
    requires Unlinked(s, d, keepGit) && e == d + TakenPart(s, keepGit, done)
    ensures Unlinked(s, e, keepGit)
  {
  }

  lemma UnlinkedChild(s: Tree, d: Tree, keepGit: bool, name: string, x: Tree, y: Tree)
    requires Unlinked(s, d, keepGit) && Kept([name], keepGit) && ChildOf(s, name, x) && ChildOf(d, name, y)
    ensures Unlinked(x, y, keepGit)
  {
    forall r | r in x && Kept(r, keepGit) && x[r].Dir? && r in y ensures !y[r].Link? {
      KeptIn(name, r, keepGit);
      assert In(name, r) in s;
    }
  }

  lemma OnlyTakenPart(s: Tree, keepGit: bool, done: set<string>, d: Tree, e: Tree)
    requires e == d + TakenPart(s, keepGit, done)
    ensures OnlyTaken(s, keepGit, d, e)
  {
  }

  // What a failed child leaves behind is only what is taken.
  lemma OnlyTakenChild(s: Tree, keepGit: bool, d0: Tree, d: Tree, e: Tree, name: string, x: Tree, y: Tree, z: Tree)
    requires OnlyTaken(s, keepGit, d0, d) && [name] in s && Kept([name], keepGit)
    requires ChildView(name, s, d, e, x, y, z)
    requires OnlyTaken(x, keepGit, y, z)
    ensures OnlyTaken(s, keepGit, d0, e)
  {
    forall q | q != [] && q !in Taken(s, keepGit) ensures AgreeAt(e, d0, q) {
      assert AgreeAt(d, d0, q);
      if q[0] == name {
        Inside(name, q);
        UntakenInside(s, keepGit, d, e, name, x, y, z, q[1..]);
      } else {
        assert AgreeAt(e, d, q);
      }
    }
  }

  lemma UntakenInside(s: Tree, keepGit: bool, d: Tree, e: Tree, name: string, x: Tree, y: Tree, z: Tree, r: Path)
    requires [name] in s && Kept([name], keepGit) && In(name, r) !in Taken(s, keepGit)
    requires ChildOf(s, name, x) && ChildOf(d, name, y) && ChildOf(e, name, z)
    requires OnlyTaken(x, keepGit, y, z)
    ensures AgreeAt(e, d, In(name, r))
  {
    KeptIn(name, r, keepGit);
    assert In(name, []) == [name];
    assert r != [] && r !in Taken(x, keepGit);
    assert AgreeAt(z, y, r);
  }

  // A child that failed half way has still changed only what is taken.
  lemma OnlyTakenStep(u: Tree, v: Tree, source: Path, target: Path, keepGit: bool, d0: Tree, name: string)
    requires OnlyTaken(Below(u, source), keepGit, d0, Below(u, target))
    requires [name] in Below(u, source) && Kept([name], keepGit) && SameOutside(u, v, target + [name])
    requires OnlyTaken(Below(u, source + [name]), keepGit, Below(u, target + [name]), Below(v, target + [name]))
    ensures OnlyTaken(Below(u, source), keepGit, d0, Below(v, target))
  {
    ViewOfChild(u, v, source, target, name);
    OnlyTakenChild(Below(u, source), keepGit, d0, Below(u, target), Below(v, target), name,
                   Below(u, source + [name]), Below(u, target + [name]), Below(v, target + [name]));
  }

  lemma AncestorsAreDirs(u: Tree, p: Path)
    requires Valid(u) && IsDir(u, p)
    ensures forall q :: q <= p ==> IsDir(u, q)
  {
    forall q | q <= p ensures IsDir(u, q) {
      if q != p {
        PrefixIsDir(u, p, |q|);
        assert q == p[..|q|];
      }
    }
  }

  lemma ChildrenApart(source: Path, target: Path, name: string)
    requires Apart(source, target)
    ensures Apart(source + [name], target + [name])
  {
    NotUnderTarget(source, target, [name]);
    NotUnderTarget(target, source, [name]);
    assert target <= target + [name] && source <= source + [name];
  }

  // A directory at the target is in place, so nothing above it is new.
  lemma AroundIsSame(u: Tree, v: Tree, target: Path, name: string)
    requires Valid(u) && IsDir(u, target) && Around(u, v, target + [name])
    ensures SameOutside(u, v, target + [name])
  {
    AncestorsAreDirs(u, target);
    forall q | !Under(q, target + [name]) && q in v ensures q in u {
      if q <= target + [name] {
        ProperPrefix(q, target, name);
        assert IsDir(u, q);
      }
    }
  }

  lemma OneTaken(x: Tree, n: Node, d: Tree, keepGit: bool)
    requires x == map[[] := n] && !n.Dir?
    ensures d + Taken(x, keepGit) == d[[] := n] && |Leaves(Taken(x, keepGit))| == 1
  {
    assert Taken(x, keepGit) == x;
    assert Leaves(x) == {[]};
  }

  lemma BelowOneNode(u: Tree, p: Path)
    requires Valid(u) && p in u && !IsDir(u, p)
    ensures Below(u, p) == map[[] := u[p]]
  {
    assert p + [] == p;
    forall r | r in Below(u, p) ensures r == [] {
      if r != [] {
        AncestorIsDir(u, p, r);
        assert false;
      }
    }
  }

  // An entry that is no directory, copied.
  lemma OneNode(u: Tree, v: Tree, source: Path, target: Path, name: string, keepGit: bool)
    requires Valid(u) && source + [name] in u && !IsDir(u, source + [name])
    requires v == u[target + [name] := u[source + [name]]]
    ensures Below(v, target + [name]) == Below(u, target + [name]) + Taken(Below(u, source + [name]), keepGit)
    ensures |Leaves(Taken(Below(u, source + [name]), keepGit))| == 1
  {
    var n := u[source + [name]];
    BelowOneNode(u, source + [name]);
    OneTaken(Below(u, source + [name]), n, Below(u, target + [name]), keepGit);
    assert (target + [name]) + [] == target + [name];
    BelowUpdate(u, target + [name], [], n);
  }

  lemma CopiedNode(u: Tree, v: Tree, target: Path, name: string)
    requires Valid(u) && IsDir(u, target) && IsName(name)
    requires v == u || (!IsDir(u, target + [name]) && target + [name] in v && v == u[target + [name] := v[target + [name]]])
    ensures Valid(v) && SameOutside(u, v, target + [name])
    ensures forall r :: r != [] ==> AgreeAt(Below(v, target + [name]), Below(u, target + [name]), r)
  {
    var to := target + [name];
    if v != u {
      if to in u {
        RewriteKeepsValid(u, to, v[to]);
      } else {
        AddKeepsValid(u, target, name, v[to]);
      }
    }
    forall r | r != [] ensures to + r != to {
      assert |to + r| > |to|;
    }
  }

  lemma SameBelow(t: Tree, u: Tree, p: Path)
    requires Below(u, p) == Below(t, p)
    ensures IsDir(u, p) <==> IsDir(t, p)
    ensures Children(u, p) == Children(t, p) && Subtree(u, p) == Subtree(t, p)
  {
    assert p + [] == p;
    assert [] in Below(t, p) <==> p in t;
    assert [] in Below(u, p) <==> p in u;
    forall n ensures p + [n] in u <==> p + [n] in t {
      assert [n] in Below(u, p) <==> [n] in Below(t, p);
    }
    forall q | Under(q, p) ensures q in u <==> q in t {
      assert q == p + q[|p|..];
      assert q[|p|..] in Below(u, p) <==> q[|p|..] in Below(t, p);
    }
  }

  lemma NothingTakenYet(s: Tree, keepGit: bool)
    requires IsDir(s, [])
    ensures Leaves(TakenPart(s, keepGit, {})) == {}
  {
  }

  // Once every child is dealt with, all that is taken has been.
  lemma AllTaken(t: Tree, source: Path, keepGit: bool)
    requires Valid(t) && IsDir(t, source)
    ensures TakenPart(Below(t, source), keepGit, Children(t, source)) == Taken(Below(t, source), keepGit)
  {
    var s := Below(t, source);
    BelowIsValid(t, source);
    forall q | q in s && q != [] ensures q[0] in Children(t, source) {
      assert q[..1] == [q[0]];
      if |q| > 1 {
        PrefixIsDir(s, q, 1);
      } else {
        assert q == q[..1];
      }
      assert [q[0]] in s;
    }
  }

  lemma CountedOnce(t: Tree, source: Path, keepGit: bool, done: set<string>, name: string)
    requires name !in done && Kept([name], keepGit)
    ensures var s := Below(t, source);
      |Leaves(TakenPart(s, keepGit, done + {name}))| ==
      |Leaves(TakenPart(s, keepGit, done))| + |Leaves(Taken(Below(t, source + [name]), keepGit))|
  {
    BelowIsChild(t, source, name);
    LeavesChild(Below(t, source), keepGit, done, name, Below(t, source + [name]));
  }

  // The same child, seen at the start.
  lemma ChildWasThere(t: Tree, u: Tree, source: Path, name: string)
    requires Below(u, source) == Below(t, source) && name in Children(t, source)
    ensures source + [name] in u && Below(u, source + [name]) == Below(t, source + [name])
  {
    assert [name] in Below(t, source);
    assert [name] in Below(u, source);
    BelowIsChild(t, source, name);
    BelowIsChild(u, source, name);
    forall r ensures AgreeAt(Below(u, source + [name]), Below(t, source + [name]), r) {
      BelowChild(t, source, name, r);
      BelowChild(u, source, name, r);
    }
    SameEverywhere(Below(u, source + [name]), Below(t, source + [name]));
  }

  lemma OneMore(all: set<string>, todo: set<string>, done: set<string>, name: string)
    requires todo <= all && done == all - todo && name in todo
    ensures todo - {name} <= all && done + {name} == all - (todo - {name}) && name !in done && todo - {name} < todo
  {
  }

  // ---------------------------------------------------------------------
  // What no copy can do.

  // Nothing disappears, and nothing turns into a directory or stops being one.
  ghost predicate Settled(t: Tree, u: Tree) {
    forall q :: q in t ==> q in u && (IsDir(u, q) <==> IsDir(t, q))
  }

  // Where a directory to be copied meets a link, the overlay is out of reach.
  lemma LinkedIsNeverOverlaid(t: Tree, u: Tree, source: Path, target: Path, keepGit: bool)
    requires Settled(t, u) && !Unlinked(Below(t, source), Below(t, target), keepGit)
    ensures Below(u, target) != Below(t, target) + Taken(Below(t, source), keepGit)
  {
    var s, d := Below(t, source), Below(t, target);
    var q :| q in s && Kept(q, keepGit) && s[q].Dir? && q in d && d[q].Link?;
    assert target + q in t && !IsDir(t, target + q);
    assert !IsDir(u, target + q);
    assert (d + Taken(s, keepGit))[q] == Dir;
    assert q in Below(u, target) ==> Below(u, target)[q] == u[target + q];
  }

  // ---------------------------------------------------------------------
  // When nothing stands in the way of a copy.

  // What is taken from s can be laid over d: only files, links and directories, none
  // where there is the other kind, and no directory more than room levels down.
  ghost predicate Fitting(s: Tree, d: Tree, keepGit: bool, room: int) {
    forall q :: q in Taken(s, keepGit) ==> FitsAt(s, d, room, q)
  }

  predicate FitsAt(s: Tree, d: Tree, room: int, q: Path) {
    q in s ==> !s[q].Other? && (q in d ==> (s[q].Dir? <==> d[q].Dir?)) && (s[q].Dir? ==> |q| <= room)
  }

  lemma StaysFitting(s: Tree, keepGit: bool, done: set<string>, d: Tree, e: Tree, room: int)
    requires e == d + TakenPart(s, keepGit, done)
    ensures Fitting(s, d, keepGit, room) ==> Fitting(s, e, keepGit, room)
  {
    if Fitting(s, d, keepGit, room) {
      forall q | q in Taken(s, keepGit) ensures FitsAt(s, e, room, q) {
        assert FitsAt(s, d, room, q);
      }
    }
  }

  lemma FittingChild(s: Tree, d: Tree, keepGit: bool, room: int, name: string, x: Tree, y: Tree)
    requires Fitting(s, d, keepGit, room) && Kept([name], keepGit) && ChildOf(s, name, x) && ChildOf(d, name, y)
    ensures Fitting(x, y, keepGit, room - 1)
  {
    forall r | r in Taken(x, keepGit) ensures FitsAt(x, y, room - 1, r) {
      KeptIn(name, r, keepGit);
      assert r in x <==> In(name, r) in s;
      assert FitsAt(s, d, room, In(name, r));
      assert r in y <==> In(name, r) in d;
    }
  }

  // Directories made on the way to p do not get in the way either.
  lemma FittingOnceMade(s: Tree, d: Tree, e: Tree, keepGit: bool, room: int)
    requires IsDir(s, []) && IsDir(e, [])
    requires forall r :: r != [] ==> AgreeAt(e, d, r)
    ensures Fitting(s, d, keepGit, room) ==> Fitting(s, e, keepGit, room)
  {
    if Fitting(s, d, keepGit, room) {
      forall q | q in Taken(s, keepGit) ensures FitsAt(s, e, room, q) {
        assert FitsAt(s, d, room, q);
        if q != [] {
          assert AgreeAt(e, d, q);
        }
      }
    }
  }
}
