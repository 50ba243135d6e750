// Walking a path through symbolic links: realpath and lstat, and
// clawt_canonicalize_missing on top of them (src/clawt-util.c:227-276).

module Resolve {
  import opened Options
  import opened Strings
  import opened Files
  import P = Paths

  // Paths here are the components of an absolute path without doubled or
  // trailing separators; "." and ".." may be among them.

  // budget is how many links may still be followed.
  datatype Walked = Found(p: Path, budget: nat) | Nowhere | TooManyLinks

  // The walk from the canonical directory at.
  function Walk(t: Tree, at: Path, todo: Path, budget: nat): Walked
    decreases budget, |todo|
  {
    if todo == [] then Found(at, budget)
    else if !IsDir(t, at) then Nowhere
    else
      var c, rest := todo[0], todo[1..];
      if c == "" || c == "." then Walk(t, at, rest, budget)
      else if c == ".." then Walk(t, if at == [] then [] else Parent(at), rest, budget)
      else
        var q := at + [c];
        if q !in t then Nowhere
        else if !t[q].Link? then Walk(t, q, rest, budget)
        else if budget == 0 then TooManyLinks
        else
          var target := t[q].target;
          Walk(t, if P.IsAbsolute(target) then [] else at, Split(target, '/') + rest, budget - 1)
  }

  // realpath
  function RealPath(t: Tree, path: Path, limit: nat): Walked {
    Walk(t, [], path, limit)
  }

  // The entry that lstat, unlink, rmdir and mkdir act on: the last component is
  // not followed, and a dot entry is nothing to act on.
  function EntryAt(t: Tree, path: Path, limit: nat): Option<Path> {
    if path == [] || !IsName(Last(path)) then None
    else
      var dir := RealPath(t, Parent(path), limit);
      if dir.Found? && IsDir(t, dir.p) then Some(dir.p + [Last(path)]) else None
  }

  // The link lstat finds there, if it is one.
  function LinkAt(t: Tree, path: Path, limit: nat): Option<Path> {
    var entry := EntryAt(t, path, limit);
    if entry.Some? && entry.value in t && t[entry.value].Link? then entry else None
  }

  // clawt_canonicalize_missing: the deepest part that resolves, and the rest as
  // it was written.
  function Canonical(t: Tree, path: Path, limit: nat): Path {
    var walked := RealPath(t, path, limit);
    if walked.Found? then walked.p
    else if path == [] then []
    else Canonical(t, Parent(path), limit) + [Last(path)]
  }

  method CanonicalizeMissing(t: Tree, path: Path, limit: nat) returns (r: Path)
    ensures r == Canonical(t, path, limit)
    ensures forall k: nat :: Deepest(t, path, k, limit) ==> r == RealPath(t, path[..k], limit).p + path[k..]
  {
    hide Walk, Deepest;
    ghost var deepest := CanonicalIsDeepest(t, path, limit);
    EmptyIsFound(t, limit);
    var remainder: Path := [];
    var current := path;
    assert Canonical(t, current, limit) + remainder == Canonical(t, path, limit);
    while true
      invariant Canonical(t, current, limit) + remainder == Canonical(t, path, limit)
      decreases |current|
    {
      var walked := RealPath(t, current, limit);
      if walked.Found? {
        return walked.p + remainder;
      }
      if current == [] {
        return path;
      }
      assert Canonical(t, Parent(current), limit) + ([Last(current)] + remainder)
          == Canonical(t, Parent(current), limit) + [Last(current)] + remainder;
      remainder := [Last(current)] + remainder;
      current := Parent(current);
    }
  }

  // ---------------------------------------------------------------------
  // Walks.

  // Where a walk can stand: in the tree, and not on a link.
  predicate Stands(t: Tree, p: Path) {
    p in t && !t[p].Link?
  }

  lemma {:induction false} WalkStands(t: Tree, at: Path, todo: Path, budget: nat)
    requires Valid(t) && Stands(t, at)
    ensures var w := Walk(t, at, todo, budget);
      w.Found? ==> Stands(t, w.p) && w.budget <= budget
    decreases budget, |todo|
  {
    if todo != [] && IsDir(t, at) {
      var c, rest := todo[0], todo[1..];
      if c == "" || c == "." {
        WalkStands(t, at, rest, budget);
      } else if c == ".." {
        if at != [] {
          assert Sits(t, at);
        }
        WalkStands(t, if at == [] then [] else Parent(at), rest, budget);
      } else if at + [c] in t {
        var q := at + [c];
        if !t[q].Link? {
          WalkStands(t, q, rest, budget);
        } else if budget > 0 {
          WalkStands(t, if P.IsAbsolute(t[q].target) then [] else at, Split(t[q].target, '/') + rest, budget - 1);
        }
      }
    }
  }

  // A walk in two parts.
  lemma {:induction false} WalkAppend(t: Tree, at: Path, a: Path, b: Path, budget: nat)
    ensures var w := Walk(t, at, a, budget);
      Walk(t, at, a + b, budget) ==
        if w.Found? then Walk(t, w.p, b, w.budget) else w
    decreases budget, |a|
  {
    if a == [] {
      assert a + b == b;
    } else if IsDir(t, at) {
      var c, rest := a[0], a[1..];
      assert (a + b)[0] == c && (a + b)[1..] == rest + b;
      if c == "" || c == "." {
        WalkAppend(t, at, rest, b, budget);
      } else if c == ".." {
        WalkAppend(t, if at == [] then [] else Parent(at), rest, b, budget);
      } else if at + [c] in t {
        var q := at + [c];
        if !t[q].Link? {
          WalkAppend(t, q, rest, b, budget);
        } else if budget > 0 {
          var from := if P.IsAbsolute(t[q].target) then [] else at;
          var parts := Split(t[q].target, '/');
          assert (parts + rest) + b == parts + (rest + b);
          WalkAppend(t, from, parts + rest, b, budget - 1);
        }
      }
    }
  }

  // More budget does not change a walk that did not run out of it.
  lemma {:induction false} WalkBudget(t: Tree, at: Path, todo: Path, budget: nat, more: nat)
    ensures var w := Walk(t, at, todo, budget);
      var v := Walk(t, at, todo, budget + more);
      (w.Found? ==> v == Found(w.p, w.budget + more)) && (w.Nowhere? ==> v.Nowhere?)
    decreases budget, |todo|
  {
    if todo != [] && IsDir(t, at) {
      var c, rest := todo[0], todo[1..];
      if c == "" || c == "." {
        WalkBudget(t, at, rest, budget, more);
      } else if c == ".." {
        WalkBudget(t, if at == [] then [] else Parent(at), rest, budget, more);
      } else if at + [c] in t {
        var q := at + [c];
        if !t[q].Link? {
          WalkBudget(t, q, rest, budget, more);
        } else if budget > 0 {
          WalkBudget(t, if P.IsAbsolute(t[q].target) then [] else at, Split(t[q].target, '/') + rest, budget - 1, more);
        }
      }
    }
  }

  // A canonical path is its own walk and follows no link.
  lemma {:induction false} CanonicalWalks(t: Tree, p: Path, i: nat, budget: nat)
    requires Valid(t) && Stands(t, p) && i <= |p|
    ensures Walk(t, p[..i], p[i..], budget) == Found(p, budget)
    decreases |p| - i
  {
    if i == |p| {
      assert p[..i] == p && p[i..] == [];
    } else {
      PrefixIsDir(t, p, i);
      PathsAreNames(t, p);
      var q := p[..i] + [p[i]];
      assert q == p[..i + 1] && p[i..][0] == p[i] && p[i..][1..] == p[i + 1..];
      if i + 1 < |p| {
        PrefixIsDir(t, p, i + 1);
      } else {
        assert q == p;
      }
      CanonicalWalks(t, p, i + 1, budget);
    }
  }

  lemma RealPathOfCanonical(t: Tree, p: Path, budget: nat)
    requires Valid(t) && Stands(t, p)
    ensures RealPath(t, p, budget) == Found(p, budget)
  {
    CanonicalWalks(t, p, 0, budget);
    assert p[..0] == [] && p[0..] == p;
  }

  // path[..k] is the longest part of path that resolves.
  ghost predicate Deepest(t: Tree, path: Path, k: nat, limit: nat) {
    && k <= |path| && RealPath(t, path[..k], limit).Found?
    && forall j :: k < j <= |path| ==> !RealPath(t, path[..j], limit).Found?
  }

  // The canonical form in terms of what resolves alone: that part's place, and the
  // rest as written.
  lemma {:induction false} CanonicalIsDeepest(t: Tree, path: Path, limit: nat) returns (k: nat)
    ensures Deepest(t, path, k, limit)
    ensures Canonical(t, path, limit) == RealPath(t, path[..k], limit).p + path[k..]
    ensures forall other: nat :: Deepest(t, path, other, limit) ==> other == k
    decreases |path|
  {
    hide RealPath;
    assert path[..|path|] == path;
    EmptyIsFound(t, limit);
    if RealPath(t, path, limit).Found? {
      k := |path|;
      assert path[k..] == [];
    } else {
      var init := Parent(path);
      k := CanonicalIsDeepest(t, init, limit);
      assert init[k..] + [Last(path)] == path[k..];
      DeepestOfParent(t, path, k, limit);
    }
    forall other | Deepest(t, path, other, limit) ensures other == k {
    }
  }

  lemma EmptyIsFound(t: Tree, limit: nat)
    ensures RealPath(t, [], limit) == Found([], limit)
  {
  }

  lemma DeepestOfParent(t: Tree, path: Path, k: nat, limit: nat)
    requires path != [] && !RealPath(t, path, limit).Found? && Deepest(t, Parent(path), k, limit)
    ensures Deepest(t, path, k, limit) && Parent(path)[..k] == path[..k]
  {
    hide RealPath;
    assert path[..|path|] == path;
    assert forall j :: 0 <= j <= |Parent(path)| ==> Parent(path)[..j] == path[..j];
  }

  // Canonicalising gives the part left unresolved a link budget of its own:
  // walking the result is walking the path with up to twice the links.
  lemma {:induction false} CanonicalWalksOn(t: Tree, path: Path, limit: nat) returns (more: nat)
    requires Valid(t)
    ensures more <= limit
    ensures RealPath(t, Canonical(t, path, limit), limit) == RealPath(t, path, limit + more)
    decreases |path|
  {
    var walked := RealPath(t, path, limit);
    if walked.Found? {
      WalkStands(t, [], path, limit);
      RealPathOfCanonical(t, walked.p, limit);
      more := limit - walked.budget;
      WalkBudget(t, [], path, limit, more);
    } else {
      var init, last := Parent(path), [Last(path)];
      assert path == init + last;
      more := CanonicalWalksOn(t, init, limit);
      WalkAppend(t, [], Canonical(t, init, limit), last, limit);
      WalkAppend(t, [], init, last, limit + more);
    }
  }

  // So what leads nowhere leads nowhere still, and only a path with too many links
  // can come to lead somewhere.
  lemma CanonicalOfMissing(t: Tree, path: Path, limit: nat)
    requires Valid(t)
    ensures RealPath(t, path, limit).Nowhere? ==> RealPath(t, Canonical(t, path, limit), limit).Nowhere?
    ensures RealPath(t, path, limit).Found? ==>
      RealPath(t, Canonical(t, path, limit), limit) == Found(RealPath(t, path, limit).p, limit)
  {
    var more := CanonicalWalksOn(t, path, limit);
    WalkBudget(t, [], path, limit, more);
    if RealPath(t, path, limit).Found? {
      WalkStands(t, [], path, limit);
      RealPathOfCanonical(t, Canonical(t, path, limit), limit);
    }
  }

  // ---------------------------------------------------------------------
  // Walks through what is still to be made.

  // Where a path leads once the directories missing on it are made.
  function Lead(t: Tree, at: Path, todo: Path, budget: nat): Option<Path>
    decreases budget, |todo|
  {
    if todo == [] then Some(at)
    else if at in t && !t[at].Dir? then None
    else
      var c, rest := todo[0], todo[1..];
      if c == "" || c == "." then Lead(t, at, rest, budget)
      else if c == ".." then Lead(t, if at == [] then [] else Parent(at), rest, budget)
      else
        var q := at + [c];
        if q !in t || !t[q].Link? then Lead(t, q, rest, budget)
        else if budget == 0 then None
        else
          Lead(t, if P.IsAbsolute(t[q].target) then [] else at, Split(t[q].target, '/') + rest, budget - 1)
  }

  // The links followed on the way.
  function Trail(t: Tree, at: Path, todo: Path, budget: nat): set<Path>
    decreases budget, |todo|
  {
    if todo == [] then {}
    else
      var c, rest := todo[0], todo[1..];
      if c == "" || c == "." then Trail(t, at, rest, budget)
      else if c == ".." then Trail(t, if at == [] then [] else Parent(at), rest, budget)
      else
        var q := at + [c];
        if q !in t || !t[q].Link? then Trail(t, q, rest, budget)
        else if budget == 0 then {}
        else
          {q} + Trail(t, if P.IsAbsolute(t[q].target) then [] else at, Split(t[q].target, '/') + rest, budget - 1)
  }

  // Directories may be new, and nothing else is.
  ghost predicate MoreDirs(t: Tree, u: Tree) {
    (forall q :: q in t ==> q in u && u[q] == t[q]) &&
    (forall q :: q in u && q !in t ==> u[q].Dir?)
  }

  lemma {:induction false} WalkLeads(t: Tree, u: Tree, at: Path, todo: Path, budget: nat)
    requires MoreDirs(t, u) && Walk(u, at, todo, budget).Found?
    ensures Lead(t, at, todo, budget) == Some(Walk(u, at, todo, budget).p)
    ensures Trail(t, at, todo, budget) == Trail(u, at, todo, budget)
    decreases budget, |todo|
  {
    if todo != [] {
      var c, rest := todo[0], todo[1..];
      if c == "" || c == "." {
        WalkLeads(t, u, at, rest, budget);
      } else if c == ".." {
        WalkLeads(t, u, if at == [] then [] else Parent(at), rest, budget);
      } else {
        var q := at + [c];
        if !u[q].Link? {
          WalkLeads(t, u, q, rest, budget);
        } else {
          WalkLeads(t, u, if P.IsAbsolute(u[q].target) then [] else at, Split(u[q].target, '/') + rest, budget - 1);
        }
      }
    }
  }

  // A walk to a directory is the same where directories stay directories and the
  // links on its trail stay what they are.
  lemma {:induction false} WalkStays(t: Tree, u: Tree, at: Path, todo: Path, budget: nat)
    requires forall q :: IsDir(t, q) ==> IsDir(u, q)
    requires forall q :: q in Trail(t, at, todo, budget) && q in t ==> q in u && u[q] == t[q]
    requires var w := Walk(t, at, todo, budget); w.Found? && IsDir(t, w.p)
    ensures Walk(u, at, todo, budget) == Walk(t, at, todo, budget)
    ensures Trail(u, at, todo, budget) == Trail(t, at, todo, budget)
    decreases budget, |todo|
  {
    if todo != [] {
      var c, rest := todo[0], todo[1..];
      if c == "" || c == "." {
        WalkStays(t, u, at, rest, budget);
      } else if c == ".." {
        WalkStays(t, u, if at == [] then [] else Parent(at), rest, budget);
      } else {
        var q := at + [c];
        if !t[q].Link? {
          assert IsDir(t, q);
          WalkStays(t, u, q, rest, budget);
        } else {
          WalkStays(t, u, if P.IsAbsolute(t[q].target) then [] else at, Split(t[q].target, '/') + rest, budget - 1);
        }
      }
    }
  }

  // Leads and trails in two parts.
  lemma {:induction false} LeadAppend(t: Tree, at: Path, a: Path, b: Path, budget: nat)
    requires Walk(t, at, a, budget).Found?
    ensures var w := Walk(t, at, a, budget);
      Lead(t, at, a + b, budget) == Lead(t, w.p, b, w.budget) &&
      Trail(t, at, a + b, budget) == Trail(t, at, a, budget) + Trail(t, w.p, b, w.budget)
    decreases budget, |a|
  {
    if a == [] {
      assert a + b == b;
    } else {
      var c, rest := a[0], a[1..];
      assert (a + b)[0] == c && (a + b)[1..] == rest + b;
      if c == "" || c == "." {
        LeadAppend(t, at, rest, b, budget);
      } else if c == ".." {
        LeadAppend(t, if at == [] then [] else Parent(at), rest, b, budget);
      } else {
        var q := at + [c];
        if !t[q].Link? {
          LeadAppend(t, q, rest, b, budget);
        } else {
          var from := if P.IsAbsolute(t[q].target) then [] else at;
          var parts := Split(t[q].target, '/');
          assert (parts + rest) + b == parts + (rest + b);
          LeadAppend(t, from, parts + rest, b, budget - 1);
        }
      }
    }
  }

  // A name in a directory that a path leads to, unless it is a link there.
  lemma LeadOfChild(t: Tree, path: Path, name: string, limit: nat)
    requires IsName(name) && RealPath(t, path, limit).Found? && IsDir(t, RealPath(t, path, limit).p)
    ensures var q := RealPath(t, path, limit).p + [name];
      q !in t || !t[q].Link? ==>
        Lead(t, [], path + [name], limit) == Some(q) &&
        Trail(t, [], path + [name], limit) == Trail(t, [], path, limit)
    ensures var q := RealPath(t, path, limit).p + [name];
      q in t && !t[q].Link? ==> RealPath(t, path + [name], limit) == Found(q, RealPath(t, path, limit).budget)
    ensures EntryAt(t, path + [name], limit) == Some(RealPath(t, path, limit).p + [name])
  {
    LeadAppend(t, [], path, [name], limit);
    WalkAppend(t, [], path, [name], limit);
    assert [name][1..] == [] && Parent(path + [name]) == path && Last(path + [name]) == name;
  }

  // Every part of a path that leads somewhere does.
  lemma PrefixLeads(t: Tree, path: Path, k: nat, limit: nat)
    requires Valid(t) && RealPath(t, path, limit).Found? && k <= |path|
    ensures RealPath(t, path[..k], limit).Found? && RealPath(t, path[..k], limit).p in t
    ensures Lead(t, [], path[..k], limit) == Some(RealPath(t, path[..k], limit).p)
  {
    assert path == path[..k] + path[k..];
    WalkAppend(t, [], path[..k], path[k..], limit);
    WalkStands(t, [], path[..k], limit);
    WalkLeads(t, t, [], path[..k], limit);
  }

  // A part of a tree has no walks of its own.
  ghost predicate PartOf(u: Tree, t: Tree) {
    forall q :: q in u ==> q in t && t[q] == u[q]
  }

  lemma {:induction false} WalkInPart(t: Tree, u: Tree, at: Path, todo: Path, budget: nat)
    requires PartOf(u, t) && Walk(u, at, todo, budget).Found?
    ensures Walk(t, at, todo, budget) == Walk(u, at, todo, budget)
    decreases budget, |todo|
  {
    if todo != [] {
      var c, rest := todo[0], todo[1..];
      if c == "" || c == "." {
        WalkInPart(t, u, at, rest, budget);
      } else if c == ".." {
        WalkInPart(t, u, if at == [] then [] else Parent(at), rest, budget);
      } else {
        var q := at + [c];
        if !u[q].Link? {
          WalkInPart(t, u, q, rest, budget);
        } else {
          WalkInPart(t, u, if P.IsAbsolute(u[q].target) then [] else at, Split(u[q].target, '/') + rest, budget - 1);
        }
      }
    }
  }

  // And a walk that arrives in the whole tree arrives at the same place in the
  // part, or nowhere.
  lemma {:induction false} WalkOfPart(t: Tree, u: Tree, at: Path, todo: Path, budget: nat)
    requires PartOf(u, t) && Walk(t, at, todo, budget).Found?
    ensures Walk(u, at, todo, budget) in {Walk(t, at, todo, budget), Nowhere}
    decreases budget, |todo|
  {
    if todo != [] && IsDir(u, at) {
      var c, rest := todo[0], todo[1..];
      if c == "" || c == "." {
        WalkOfPart(t, u, at, rest, budget);
      } else if c == ".." {
        WalkOfPart(t, u, if at == [] then [] else Parent(at), rest, budget);
      } else if at + [c] in u {
        var q := at + [c];
        if !u[q].Link? {
          WalkOfPart(t, u, q, rest, budget);
        } else {
          WalkOfPart(t, u, if P.IsAbsolute(u[q].target) then [] else at, Split(u[q].target, '/') + rest, budget - 1);
        }
      }
    }
  }

  // Two link targets, taken apart.
  lemma TargetParts()
    ensures Split(".", '/') == ["."] && Split("/out", '/') == ["", "out"]
  {
    PiecesOfJoin(["."], '/');
    PiecesOfJoin(["", "out"], '/');
    assert Join(["", "out"], "/") == "/out";
  }
}
