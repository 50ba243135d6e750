// Lexical path normalisation and the containment test used with it
// (src/clawt-util.c, clawt_normalize_path_lexically and clawt_path_is_within).

module Paths {
  import opened Options
  import opened Strings

  // ---------------------------------------------------------------------
  // What a path means: the walk of section 4.13 of the POSIX.1-2017 Base
  // Definitions, without symbolic links. A location is the list of names
  // from the root; the root is its own parent.

  function StepTo(at: seq<string>, part: string): seq<string> {
    if part == "" || part == "." then at
    else if part != ".." then at + [part]
    else if at == [] then []
    else at[..|at| - 1]
  }

  function Walk(at: seq<string>, parts: seq<string>): seq<string>
    decreases |parts|
  {
    if parts == [] then at else Walk(StepTo(at, parts[0]), parts[1..])
  }

  predicate IsAbsolute(path: string) {
    path != "" && path[0] == '/'
  }

  // Where a walk begins: absolute paths ignore the starting directory.
  function From(absolute: bool, start: seq<string>): seq<string> {
    if absolute then [] else start
  }

  function WalkTarget(path: string, start: seq<string>): seq<string> {
    Walk(From(IsAbsolute(path), start), Split(path, '/'))
  }

  lemma {:induction false} WalkAppend(at: seq<string>, a: seq<string>, b: seq<string>)
    ensures Walk(at, a + b) == Walk(Walk(at, a), b)
    decreases |a|
  {
    if a == [] {
      assert a + b == b;
    } else {
      assert (a + b)[1..] == a[1..] + b;
      WalkAppend(StepTo(at, a[0]), a[1..], b);
    }
  }

  // ---------------------------------------------------------------------
  // The stack of kept components.

  // One turn of the C loop over the components.
  function Keep(absolute: bool, kept: seq<string>, part: string): seq<string> {
    if part == "" || part == "." then kept
    else if part != ".." then kept + [part]
    else if |kept| > 0 && kept[|kept| - 1] != ".." then kept[..|kept| - 1]
    else if !absolute then kept + [part]
    else kept
  }

  function Reduce(absolute: bool, kept: seq<string>, parts: seq<string>): seq<string>
    decreases |parts|
  {
    if parts == [] then kept else Reduce(absolute, Keep(absolute, kept, parts[0]), parts[1..])
  }

  // Names only, except that a relative path may lead with "..".
  predicate NormalForm(absolute: bool, kept: seq<string>) {
    forall i :: 0 <= i < |kept| ==>
      IsName(kept[i]) ||
      (kept[i] == ".." && !absolute && forall j :: 0 <= j < i ==> kept[j] == "..")
  }

  function Render(absolute: bool, kept: seq<string>): string {
    if absolute then "/" + Join(kept, "/")
    else if kept == [] then "."
    else Join(kept, "/")
  }

  // The function the method below is proved against.
  function Normalized(path: string): string {
    Render(IsAbsolute(path), Reduce(IsAbsolute(path), [], Split(path, '/')))
  }

  lemma KeepStep(absolute: bool, kept: seq<string>, part: string, start: seq<string>)
    requires NormalForm(absolute, kept) && '/' !in part
    ensures NormalForm(absolute, Keep(absolute, kept, part))
    ensures Walk(From(absolute, start), Keep(absolute, kept, part))
         == StepTo(Walk(From(absolute, start), kept), part)
  {
    var at := From(absolute, start);
    if part == "" || part == "." {
    } else if part == ".." && |kept| > 0 && kept[|kept| - 1] != ".." {
      var init := kept[..|kept| - 1];
      WalkAppend(at, init, [kept[|kept| - 1]]);
      assert kept == init + [kept[|kept| - 1]];
      assert Walk(at, kept) == Walk(at, init) + [kept[|kept| - 1]];
    } else if part == ".." && absolute {
      assert kept == [];
    } else {
      WalkAppend(at, kept, [part]);
    }
  }

  lemma {:induction false} ReduceKeepsMeaning(absolute: bool, kept: seq<string>, parts: seq<string>, start: seq<string>)
    requires NormalForm(absolute, kept) && FreeOf(parts, '/')
    ensures NormalForm(absolute, Reduce(absolute, kept, parts))
    ensures Walk(From(absolute, start), Reduce(absolute, kept, parts))
         == Walk(Walk(From(absolute, start), kept), parts)
    decreases |parts|
  {
    if parts != [] {
      KeepStep(absolute, kept, parts[0], start);
      ReduceKeepsMeaning(absolute, Keep(absolute, kept, parts[0]), parts[1..], start);
    }
  }

  lemma SplitIsFree(path: string)
    ensures FreeOf(Split(path, '/'), '/')
  {
    PiecesAreFree(path, '/');
  }

  // The written form of a stack means the stack.
  lemma RenderMeans(absolute: bool, kept: seq<string>, start: seq<string>)
    requires NormalForm(absolute, kept)
    ensures IsAbsolute(Render(absolute, kept)) == absolute
    ensures WalkTarget(Render(absolute, kept), start) == Walk(From(absolute, start), kept)
  {
    var text := Render(absolute, kept);
    if kept == [] {
      assert absolute ==> text == "/" && Pieces(text, '/') == [""] + Pieces(text[1..], '/');
      assert !absolute ==> Pieces(text, '/') == [['.'] + Pieces(text[1..], '/')[0]] + Pieces(text[1..], '/')[1..];
      assert Pieces("", '/') == [""];
      assert !absolute ==> ['.'] + "" == ".";
      assert Walk(From(absolute, start), [""]) == Walk(From(absolute, start), []);
    } else {
      assert FreeOf(kept, '/') && kept[0] != "";
      PiecesOfJoin(kept, '/');
      var body := Join(kept, "/");
      assert body[0] == kept[0][0];
      if absolute {
        assert text[1..] == body;
        assert Split(text, '/') == [""] + kept;
      }
    }
  }

  // A walk of a normalised path ends where the walk of the path itself ends,
  // from every starting directory.
  lemma NormalizedMeansTheSame(path: string, start: seq<string>)
    ensures WalkTarget(Normalized(path), start) == WalkTarget(path, start)
    ensures IsAbsolute(Normalized(path)) == IsAbsolute(path)
    ensures NormalForm(IsAbsolute(path), Reduce(IsAbsolute(path), [], Split(path, '/')))
  {
    SplitIsFree(path);
    ReduceKeepsMeaning(IsAbsolute(path), [], Split(path, '/'), start);
    RenderMeans(IsAbsolute(path), Reduce(IsAbsolute(path), [], Split(path, '/')), start);
  }

  // ---------------------------------------------------------------------
  // Canonicity: equal walks have equal normal forms.

  function Ups(kept: seq<string>): (k: nat)
    ensures k <= |kept|
  {
    if kept != [] && kept[0] == ".." then 1 + Ups(kept[1..]) else 0
  }

  lemma {:induction false} WalkNames(at: seq<string>, names: seq<string>)
    requires AreNames(names)
    ensures Walk(at, names) == at + names
    decreases |names|
  {
    if names != [] {
      WalkNames(at + [names[0]], names[1..]);
      assert at + [names[0]] + names[1..] == at + names;
    } else {
      assert at + names == at;
    }
  }

  lemma NormalTail(absolute: bool, kept: seq<string>)
    requires NormalForm(absolute, kept) && kept != []
    ensures NormalForm(absolute, kept[1..])
  {
    forall i | 0 <= i < |kept[1..]|
      ensures IsName(kept[1..][i]) ||
        (kept[1..][i] == ".." && !absolute && forall j :: 0 <= j < i ==> kept[1..][j] == "..")
    {
      assert kept[1..][i] == kept[i + 1];
    }
  }

  lemma NormalNames(absolute: bool, kept: seq<string>)
    requires NormalForm(absolute, kept) && (kept != [] ==> kept[0] != "..")
    ensures AreNames(kept)
  {
    forall i | 0 <= i < |kept| ensures IsName(kept[i]) {
      assert i > 0 ==> kept[0] != "..";
    }
  }

  // A normal form drops Ups components of a deep enough start and adds names.
  lemma {:induction false} ClosedForm(absolute: bool, kept: seq<string>, start: seq<string>)
    requires NormalForm(absolute, kept) && Ups(kept) <= |start|
    ensures AreNames(kept[Ups(kept)..])
    ensures Walk(start, kept) == start[..|start| - Ups(kept)] + kept[Ups(kept)..]
    decreases |kept|
  {
    hide NormalForm;
    if kept != [] && kept[0] == ".." {
      NormalTail(absolute, kept);
      ClosedForm(absolute, kept[1..], start[..|start| - 1]);
      assert kept[1..][Ups(kept) - 1..] == kept[Ups(kept)..];
      assert start[..|start| - 1][..|start| - Ups(kept)] == start[..|start| - Ups(kept)];
    } else {
      NormalNames(absolute, kept);
      WalkNames(start, kept);
      assert start[..|start|] == start;
    }
  }

  function Times(n: nat, name: string): (r: seq<string>)
    ensures |r| == n
  {
    seq(n, _ => name)
  }

  // The side that drops more of the start must spell the start's name itself.
  lemma DeeperHead(n: nat, p: nat, q: nat, name: string, less: seq<string>, more: seq<string>)
    requires p < q <= n
    requires Times(n, name)[..n - p] + less == Times(n, name)[..n - q] + more
    ensures more != [] && more[0] == name
  {
    var whole := Times(n, name)[..n - q] + more;
    assert |whole| > n - q && whole[n - q] == name;
  }

  // Equal walks from a deep start drop equally many components of it, or spell
  // the start's own name.
  lemma WalksDropAlike(kept: seq<string>, other: seq<string>, n: nat, name: string)
    requires NormalForm(false, kept) && NormalForm(false, other)
    requires Ups(kept) < Ups(other) <= n && Walk(Times(n, name), kept) == Walk(Times(n, name), other)
    ensures other[Ups(other)..] != [] && other[Ups(other)..][0] == name
  {
    ClosedForm(false, kept, Times(n, name));
    ClosedForm(false, other, Times(n, name));
    DeeperHead(n, Ups(kept), Ups(other), name, kept[Ups(kept)..], other[Ups(other)..]);
  }

  lemma SameUpsSameForm(kept: seq<string>, other: seq<string>, n: nat)
    requires NormalForm(false, kept) && NormalForm(false, other)
    requires Ups(kept) == Ups(other) <= n && Walk(Times(n, "x"), kept) == Walk(Times(n, "x"), other)
    ensures kept == other
  {
    var p, x := Ups(kept), Times(n, "x");
    ClosedForm(false, kept, x);
    ClosedForm(false, other, x);
    assert kept[p..] == Walk(x, kept)[n - p..] == other[p..];
    UpsAreUps(kept);
    UpsAreUps(other);
    assert kept == kept[..p] + kept[p..] && other == other[..p] + other[p..];
  }

  // Walks from "x/x/..." and from "y/y/..." tell two relative forms apart.
  lemma WalksDetermineRelative(kept: seq<string>, other: seq<string>)
    requires NormalForm(false, kept) && NormalForm(false, other)
    requires forall start :: Walk(start, kept) == Walk(start, other)
    ensures kept == other
  {
    var n := Ups(kept) + Ups(other);
    assert Walk(Times(n, "x"), kept) == Walk(Times(n, "x"), other);
    assert Walk(Times(n, "y"), kept) == Walk(Times(n, "y"), other);
    if Ups(kept) < Ups(other) {
      WalksDropAlike(kept, other, n, "x");
      WalksDropAlike(kept, other, n, "y");
    } else if Ups(other) < Ups(kept) {
      WalksDropAlike(other, kept, n, "x");
      WalksDropAlike(other, kept, n, "y");
    } else {
      SameUpsSameForm(kept, other, n);
    }
  }

  // And from an absolute form, whose walk does not see the start at all.
  lemma AbsoluteDiffersFromRelative(kept: seq<string>, other: seq<string>)
    requires NormalForm(true, kept) && NormalForm(false, other)
    ensures exists start :: Walk(From(true, start), kept) != Walk(From(false, start), other)
  {
    var n := Ups(other) + 1;
    ClosedForm(false, other, Times(n, "x"));
    ClosedForm(false, other, Times(n, "y"));
    var x, y := Times(n, "x"), Times(n, "y");
    assert Walk(From(false, x), other)[0] == "x" && Walk(From(false, y), other)[0] == "y";
    assert Walk(From(true, x), kept) == Walk(From(true, y), kept);
  }

  lemma WalksDetermineForm(a: bool, kept: seq<string>, b: bool, other: seq<string>)
    requires NormalForm(a, kept) && NormalForm(b, other)
    requires forall start :: Walk(From(a, start), kept) == Walk(From(b, start), other)
    ensures a == b && kept == other
  {
    if a && b {
      WalkNames([], kept);
      WalkNames([], other);
      assert Walk(From(a, []), kept) == Walk(From(b, []), other);
      assert [] + kept == kept && [] + other == other;
    } else if a {
      AbsoluteDiffersFromRelative(kept, other);
    } else if b {
      AbsoluteDiffersFromRelative(other, kept);
    } else {
      forall start ensures Walk(start, kept) == Walk(start, other) {
        assert Walk(From(a, start), kept) == Walk(From(b, start), other);
      }
      WalksDetermineRelative(kept, other);
    }
  }

  lemma {:induction false} UpsAreUps(kept: seq<string>)
    ensures kept[..Ups(kept)] == Times(Ups(kept), "..")
  {
    if kept != [] && kept[0] == ".." {
      UpsAreUps(kept[1..]);
      assert kept[..Ups(kept)] == [kept[0]] + kept[1..][..Ups(kept[1..])];
    }
  }

  // Two paths are the same walk from every start exactly when their normal
  // forms are the same string.
  lemma NormalizedIsCanonical(p: string, q: string)
    ensures (forall start :: WalkTarget(p, start) == WalkTarget(q, start)) <==> Normalized(p) == Normalized(q)
  {
    if Normalized(p) == Normalized(q) {
      forall start ensures WalkTarget(p, start) == WalkTarget(q, start) {
        NormalizedMeansTheSame(p, start);
        NormalizedMeansTheSame(q, start);
      }
    }
    if forall start :: WalkTarget(p, start) == WalkTarget(q, start) {
      var a, b := IsAbsolute(p), IsAbsolute(q);
      var kept, other := Reduce(a, [], Split(p, '/')), Reduce(b, [], Split(q, '/'));
      NormalizedMeansTheSame(p, []);
      NormalizedMeansTheSame(q, []);
      forall start ensures Walk(From(a, start), kept) == Walk(From(b, start), other) {
        NormalizedMeansTheSame(p, start);
        NormalizedMeansTheSame(q, start);
        RenderMeans(a, kept, start);
        RenderMeans(b, other, start);
        assert WalkTarget(p, start) == WalkTarget(q, start);
      }
      WalksDetermineForm(a, kept, b, other);
    }
  }

  lemma NormalizedIsIdempotent(p: string)
    ensures Normalized(Normalized(p)) == Normalized(p)
  {
    forall start ensures WalkTarget(Normalized(p), start) == WalkTarget(p, start) {
      NormalizedMeansTheSame(p, start);
    }
    NormalizedIsCanonical(Normalized(p), p);
  }

  // A normalised absolute path spells its own walk target.
  lemma AbsoluteShape(p: string)
    requires IsAbsolute(p)
    ensures AreNames(WalkTarget(p, [])) && Normalized(p) == Absolute(WalkTarget(p, []))
  {
    var kept := Reduce(true, [], Split(p, '/'));
    NormalizedMeansTheSame(p, []);
    RenderMeans(true, kept, []);
    WalkNames([], kept);
    assert [] + kept == kept;
  }

  // A normalised relative path is "." or a run of ".." followed by names.
  lemma RelativeShape(p: string) returns (k: nat, names: seq<string>)
    requires !IsAbsolute(p)
    ensures AreNames(names)
    ensures Normalized(p) == if k + |names| == 0 then "." else Join(Times(k, "..") + names, "/")
  {
    var kept := Reduce(false, [], Split(p, '/'));
    NormalizedMeansTheSame(p, []);
    k := Ups(kept);
    names := kept[k..];
    ClosedForm(false, kept, Times(k, "x"));
    UpsAreUps(kept);
    assert kept == Times(k, "..") + names;
  }

  method NormalizePathLexically(path: Option<string>) returns (r: Option<string>)
    ensures r == if path.None? then None else Some(Normalized(path.value))
  {
    if path.None? {
      return None;
    }
    var absolute := IsAbsolute(path.value);
    var parts := Split(path.value, '/');
    SplitIsFree(path.value);
    var kept: seq<string> := [];
    for i := 0 to |parts|
      invariant NormalForm(absolute, kept)
      invariant Reduce(absolute, kept, parts[i..]) == Reduce(absolute, [], parts)
    {
      KeepStep(absolute, kept, parts[i], []);
      assert parts[i..][1..] == parts[i + 1..];
      if parts[i] == "" || parts[i] == "." {
        continue;
      }
      if parts[i] != ".." {
        kept := kept + [parts[i]];
        continue;
      }
      if |kept| > 0 && kept[|kept| - 1] != ".." {
        kept := kept[..|kept| - 1];
      } else if !absolute {
        kept := kept + [parts[i]];
      }
    }
    var out := WriteOut(absolute, kept);
    return Some(out);
  }

  // What has been written once some components are.
  function Written(absolute: bool, parts: seq<string>): string {
    if parts == [] then "" else (if absolute then "/" else "") + Join(parts, "/")
  }

  lemma WrittenNext(absolute: bool, parts: seq<string>, part: string)
    ensures Written(absolute, parts + [part]) ==
      (if parts != [] || absolute then Written(absolute, parts) + "/" else Written(absolute, parts)) + part
  {
    if parts == [] {
      assert parts + [part] == [part];
    } else {
      JoinAppend(parts, [part], "/");
    }
  }

  lemma WrittenIsRendered(absolute: bool, kept: seq<string>)
    requires NormalForm(absolute, kept)
    ensures Render(absolute, kept) ==
      if kept != [] then Written(absolute, kept) else if absolute then "/" else "."
  {
    assert "" + Join(kept, "/") == Join(kept, "/") && "/" + "" == "/";
  }

  // The second half of the C function: the kept components as a string.
  method WriteOut(absolute: bool, kept: seq<string>) returns (out: string)
    requires NormalForm(absolute, kept)
    ensures out == Render(absolute, kept)
  {
    hide Written, Render;
    out := "";
    WrittenNone(absolute);
    for i := 0 to |kept|
      invariant out == Written(absolute, kept[..i])
      invariant out == "" <==> i == 0
    {
      assert kept[..i + 1] == kept[..i] + [kept[i]];
      WrittenNext(absolute, kept[..i], kept[i]);
      assert kept[i] != "";
      if out != "" || absolute {
        out := out + "/";
      }
      out := out + kept[i];
    }
    assert kept[..|kept|] == kept;
    WrittenIsRendered(absolute, kept);
    if out == "" {
      out := if absolute then "/" else ".";
    }
  }

  lemma WrittenNone(absolute: bool)
    ensures Written(absolute, []) == ""
  {
  }

  // ---------------------------------------------------------------------
  // Containment.

  predicate HasPrefix(s: string, prefix: string) {
    |prefix| <= |s| && s[..|prefix|] == prefix
  }

  predicate PathIsWithin(path: Option<string>, root: Option<string>) {
    path.Some? && root.Some? &&
    var p, r := path.value, root.value;
    HasPrefix(p, r) &&
    (|p| == |r| || p[|r|] == '/' || (|r| > 0 && r[|r| - 1] == '/'))
  }

  // The string of a canonical absolute path.
  function Absolute(p: seq<string>): string {
    "/" + Join(p, "/")
  }

  // Components as they stand between separators; "." and ".." included.
  predicate AreParts(p: seq<string>) {
    forall i :: 0 <= i < |p| ==> p[i] != "" && '/' !in p[i]
  }

  // Each name with a slash before it; Absolute except at the root.
  function Slashed(p: seq<string>): (s: string)
    ensures p != [] ==> s != "" && s[0] == '/'
  {
    if p == [] then "" else "/" + p[0] + Slashed(p[1..])
  }

  lemma {:induction false} AbsoluteIsSlashed(p: seq<string>)
    ensures p != [] ==> Absolute(p) == Slashed(p)
  {
    if |p| > 1 {
      AbsoluteIsSlashed(p[1..]);
      assert Absolute(p) == "/" + p[0] + ("/" + Join(p[1..], "/"));
    } else if |p| == 1 {
      assert Slashed(p[1..]) == "";
      assert "/" + p[0] + "" == "/" + p[0];
    }
  }

  // s continues prefix, at a separator or at its end.
  predicate ContinuesAtSlash(s: string, prefix: string) {
    HasPrefix(s, prefix) && (|s| == |prefix| || s[|prefix|] == '/')
  }

  lemma SlashedCons(p: seq<string>)
    requires p != []
    ensures Slashed(p) == "/" + (p[0] + Slashed(p[1..])) && Slashed(p)[1..] == p[0] + Slashed(p[1..])
  {
  }

  lemma ContinuesPrepend(front: string, s: string, prefix: string)
    requires ContinuesAtSlash(s, prefix)
    ensures ContinuesAtSlash(front + s, front + prefix)
  {
    assert s == prefix + s[|prefix|..];
    assert front + s == (front + prefix) + s[|prefix|..];
  }

  lemma AfterSlash(s: string, r: string, rest: string)
    requires "/" + s == ("/" + r) + rest
    ensures s == r + rest
  {
    assert s == ("/" + s)[1..] && (("/" + r) + rest)[1..] == r + rest;
  }

  lemma SlashedGivesPrefix(r: seq<string>, p: seq<string>)
    requires r != [] && p != [] && AreParts(r) && AreParts(p)
    requires ContinuesAtSlash(Slashed(p), Slashed(r))
    ensures r[0] == p[0] && ContinuesAtSlash(Slashed(p[1..]), Slashed(r[1..]))
  {
    SlashedCons(r);
    SlashedCons(p);
    var tr, tp := Slashed(r[1..]), Slashed(p[1..]);
    var rest := Slashed(p)[|Slashed(r)|..];
    assert Slashed(p) == Slashed(r) + rest;
    AfterSlash(p[0] + tp, r[0] + tr, rest);
    Assoc(r[0], tr, rest);
    HeadIsUnique(p[0], tp, r[0], tr + rest, '/');
  }

  lemma {:induction false} SlashedPrefix(r: seq<string>, p: seq<string>)
    requires AreParts(r) && AreParts(p)
    ensures r <= p <==> ContinuesAtSlash(Slashed(p), Slashed(r))
  {
    if r != [] && p != [] {
      SlashedPrefix(r[1..], p[1..]);
      if r <= p {
        ContinuesPrepend("/" + p[0], Slashed(p[1..]), Slashed(r[1..]));
      }
      if ContinuesAtSlash(Slashed(p), Slashed(r)) {
        SlashedGivesPrefix(r, p);
        assert r == [r[0]] + r[1..] && p == [p[0]] + p[1..];
      }
    }
  }

  // On canonical absolute paths, the root "/" included, the string test is
  // "the root's components are a prefix of the path's".
  lemma WithinIsComponentPrefix(p: seq<string>, r: seq<string>)
    requires AreParts(p) && AreParts(r)
    ensures PathIsWithin(Some(Absolute(p)), Some(Absolute(r))) <==> r <= p
  {
    AbsoluteIsSlashed(p);
    AbsoluteIsSlashed(r);
    SlashedPrefix(r, p);
    if r == [] {
      assert Absolute(r) == "/";
    } else {
      var last := r[|r| - 1];
      JoinEndsWithLast(r);
      if p == [] {
        assert Absolute(p) == "/";
        assert |Absolute(r)| > 1;
      }
    }
  }

  lemma {:induction false} JoinEndsWithLast(r: seq<string>)
    requires AreParts(r) && r != []
    ensures var s := Absolute(r); |s| > 1 && s[|s| - 1] != '/'
  {
    if |r| == 1 {
      var n := r[0];
      assert n[|n| - 1] in n;
    } else {
      JoinEndsWithLast(r[1..]);
      assert Absolute(r) == "/" + r[0] + Absolute(r[1..]);
    }
  }

  // Applied to the normal forms of any two absolute paths, the test decides
  // whether one walk ends at or below the place where the other ends.
  lemma WithinDecidesWalkTargets(p: string, r: string)
    requires IsAbsolute(p) && IsAbsolute(r)
    ensures PathIsWithin(Some(Normalized(p)), Some(Normalized(r)))
       <==> WalkTarget(r, []) <= WalkTarget(p, [])
  {
    AbsoluteShape(p);
    AbsoluteShape(r);
    WithinIsComponentPrefix(WalkTarget(p, []), WalkTarget(r, []));
  }

  // A missing path or root is within nothing.
  lemma NothingIsWithinNone(path: Option<string>, root: Option<string>)
    requires PathIsWithin(path, root)
    ensures path.Some? && root.Some? && |root.value| <= |path.value|
  {
  }

  // Hence a partial order on normalised absolute paths.
  lemma WithinIsPartialOrder(p: string, q: string, r: string)
    requires IsAbsolute(p) && IsAbsolute(q) && IsAbsolute(r)
    ensures PathIsWithin(Some(Normalized(p)), Some(Normalized(p)))
    ensures PathIsWithin(Some(Normalized(p)), Some(Normalized(q))) && PathIsWithin(Some(Normalized(q)), Some(Normalized(p)))
            ==> Normalized(p) == Normalized(q)
    ensures PathIsWithin(Some(Normalized(p)), Some(Normalized(q))) && PathIsWithin(Some(Normalized(q)), Some(Normalized(r)))
            ==> PathIsWithin(Some(Normalized(p)), Some(Normalized(r)))
  {
    WithinDecidesWalkTargets(p, p);
    WithinDecidesWalkTargets(p, q);
    WithinDecidesWalkTargets(q, p);
    WithinDecidesWalkTargets(q, r);
    WithinDecidesWalkTargets(p, r);
    AbsoluteShape(p);
    AbsoluteShape(q);
  }
}
