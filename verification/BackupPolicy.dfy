// What a backup may contain (src/clawt-backup.c: excluded, generated_config,
// safe_path) and the members it is made of.

module BackupPolicy {
  import opened Strings
  import opened Files
  import Utf8

  const ARCHIVE_LIMIT: nat := 256 * 1024 * 1024
  const FILE_LIMIT: nat := 64 * 1024 * 1024
  const ENTRY_LIMIT: nat := 100000
  const MAGIC: string := "CLAWT-BACKUP-1\n"

  datatype Member = Member(path: string, sum: string, data: string)

  predicate Excluded(name: string) {
    name in {".", "..", ".git", ".env", ".mcp.json", ".ssh", "secrets", "credentials",
             "token", "tcp-token", "daemon.lock", "sessions"}
  }

  predicate GeneratedConfig(path: string) {
    var parts := Split(path, '/');
    |parts| == 3 && parts[0] == "agents" && parts[2] == "config.yaml"
  }

  predicate IsControl(c: char) {
    c as int < 32 || c as int == 127
  }

  // What can be asked of a path as a string, before its components.
  predicate Spellable(path: string) {
    && |path| <= 4096
    && Utf8.WellFormed(path)
    && (forall i :: 0 <= i < |path| ==> !IsControl(path[i]))
  }

  predicate SafePath(path: string) {
    && Spellable(path)
    && !GeneratedConfig(path)
    && var parts := Split(path, '/');
       |parts| <= 65 && forall i :: 0 <= i < |parts| ==> parts[i] != "" && !Excluded(parts[i])
  }

  // safe_path as the two loops it is.
  method CheckSafePath(path: string) returns (ok: bool)
    ensures ok == SafePath(path)
  {
    if |path| > 4096 || !Utf8.WellFormed(path) {
      return false;
    }
    var parts := Split(path, '/');
    if GeneratedConfig(path) {
      return false;
    }
    for p := 0 to |path|
      invariant forall i :: 0 <= i < p ==> !IsControl(path[i])
    {
      if path[p] as int < 32 || path[p] as int == 127 {
        return false;
      }
    }
    for i := 0 to |parts|
      invariant i <= 65
      invariant forall k :: 0 <= k < i ==> parts[k] != "" && !Excluded(parts[k])
    {
      if parts[i] == "" || Excluded(parts[i]) || i > 64 {
        return false;
      }
    }
    return true;
  }

  // The relative paths a backup keeps: no excluded component, and not at or
  // below a generated agents/X/config.yaml.
  predicate Kept(q: Path) {
    (forall i :: 0 <= i < |q| ==> !Excluded(q[i])) &&
    !(|q| >= 3 && q[0] == "agents" && q[2] == "config.yaml")
  }

  // A relative path as the archive spells it.
  function PathText(q: Path): string {
    Join(q, "/")
  }

  function Paths(ms: seq<Member>): set<string> {
    set m | m in ms :: m.path
  }

  predicate DistinctPaths(ms: seq<Member>) {
    forall i, j :: 0 <= i < j < |ms| ==> ms[i].path != ms[j].path
  }

  lemma PathTextSplits(q: Path)
    requires AreNames(q) && q != []
    ensures PathText(q) != "" && Split(PathText(q), '/') == q
  {
    PiecesOfJoin(q, '/');
  }

  lemma KeptChild(q: Path, name: string)
    requires AreNames(q + [name]) && Kept(q)
    ensures Kept(q + [name]) <==> !Excluded(name) && !GeneratedConfig(PathText(q + [name]))
  {
    PathTextSplits(q + [name]);
    var child := q + [name];
    assert forall i :: 0 <= i < |q| ==> child[i] == q[i];
    assert child[|q|] == name;
  }

  // A path that passes the check is a list of file names with nothing excluded.
  lemma SafePathParts(path: string)
    requires SafePath(path) && path != ""
    ensures var q := Split(path, '/');
            1 <= |q| <= 65 && AreNames(q) && PathText(q) == path
  {
    PiecesAreFree(path, '/');
    JoinOfPieces(path, '/');
  }

  lemma ThreeParts(a: string, b: string, c: string)
    ensures Join([a, b, c], "/") == a + "/" + b + "/" + c
  {
    assert [a, b, c][1..] == [b, c] && [b, c][1..] == [c];
    assert Join([b, c], "/") == b + "/" + c;
  }

  // The generated configuration, as text.
  lemma GeneratedMeans(path: string)
    ensures GeneratedConfig(path) <==> exists x :: '/' !in x && path == "agents" + "/" + x + "/" + "config.yaml"
  {
    forall x | '/' !in x && path == "agents" + "/" + x + "/" + "config.yaml" ensures GeneratedConfig(path) {
      GeneratedSplits(x);
    }
    if GeneratedConfig(path) {
      var x := GeneratedJoins(path);
    }
  }

  lemma GeneratedSplits(x: string)
    requires '/' !in x
    ensures GeneratedConfig("agents" + "/" + x + "/" + "config.yaml")
  {
    hide Pieces, Join;
    var parts := ["agents", x, "config.yaml"];
    ThreeParts("agents", x, "config.yaml");
    PiecesOfJoin(parts, '/');
    assert Split(Join(parts, "/"), '/') == parts;
  }

  lemma GeneratedJoins(path: string) returns (x: string)
    requires GeneratedConfig(path)
    ensures '/' !in x && path == "agents" + "/" + x + "/" + "config.yaml"
  {
    hide Pieces, Join;
    var parts := Split(path, '/');
    x := parts[1];
    PiecesAreFree(path, '/');
    JoinOfPieces(path, '/');
    ThreeParts(parts[0], x, parts[2]);
    assert parts == [parts[0], x, parts[2]];
  }

  // A path that passes, spelt out: nothing at all, or up to 65 names between slashes,
  // none of them one that is never kept, in at most 4096 bytes of UTF-8 without
  // control characters, and not the configuration that is generated.
  lemma SafePathMeans(path: string)
    ensures SafePath("")
    ensures path != "" ==>
      (SafePath(path) <==>
         && |path| <= 4096 && Utf8.WellFormed(path) && !GeneratedConfig(path)
         && (forall i :: 0 <= i < |path| ==> 32 <= path[i] as int != 127)
         && exists q: Path :: path == Join(q, "/") && 1 <= |q| <= 65 && AreNames(q) && forall c :: c in q ==> !Excluded(c))
  {
    EmptyPathIsSafe();
    hide Join, Pieces, Excluded, GeneratedConfig, Utf8.WellFormed;
    if SafePath(path) && path != "" {
      SafePathParts(path);
      assert path == Join(Split(path, '/'), "/");
      forall i | 0 <= i < |path| ensures 32 <= path[i] as int != 127 {
        assert !IsControl(path[i]);
      }
    }
    forall q: Path | path == Join(q, "/") && 1 <= |q| && AreNames(q) ensures Split(path, '/') == q {
      PathTextSplits(q);
    }
  }

  // The k-th name on the way down q is none of those that are dropped, and what it names
  // is no generated configuration.
  predicate PassesAt(q: Path, k: nat)
    requires 0 < k <= |q|
  {
    q[k - 1] !in {".", "..", ".git", ".env", ".mcp.json", ".ssh", "secrets", "credentials",
                  "token", "tcp-token", "daemon.lock", "sessions"} &&
    !GeneratedConfig(PathText(q[..k]))
  }

  // A path is kept exactly when everything on it, from the top down to it, passes.
  lemma {:induction false} KeptMeans(q: Path)
    requires AreNames(q)
    ensures Kept(q) <==> forall k :: 0 < k <= |q| ==> PassesAt(q, k)
    decreases |q|
  {
    hide PassesAt, Excluded, GeneratedConfig, PathText;
    if q != [] {
      var init, name := q[..|q| - 1], q[|q| - 1];
      assert q == init + [name] && q[..|q|] == q;
      KeptMeans(init);
      forall k | 0 < k <= |init| ensures PassesAt(init, k) <==> PassesAt(q, k) {
        PassesInPart(q, k);
      }
      if Kept(init) {
        KeptChild(init, name);
        PassesLast(q);
      }
      KeptOfPart(init, name);
    }
  }

  lemma PassesLast(q: Path)
    requires q != []
    ensures PassesAt(q, |q|) <==> !Excluded(q[|q| - 1]) && !GeneratedConfig(PathText(q))
  {
    assert q[..|q|] == q;
  }

  lemma PassesInPart(q: Path, k: nat)
    requires 0 < k < |q|
    ensures PassesAt(q[..|q| - 1], k) <==> PassesAt(q, k)
  {
    hide GeneratedConfig;
    assert q[..|q| - 1][..k] == q[..k];
  }

  lemma KeptOfPart(q: Path, name: string)
    ensures Kept(q + [name]) ==> Kept(q)
  {
    assert forall i :: 0 <= i < |q| ==> (q + [name])[i] == q[i];
  }

  // The one string the component loop says nothing about: it has no components.
  lemma EmptyPathIsSafe()
    ensures SafePath("") && Split("", '/') == []
  {
  }

  // For a path the backup keeps, the components matter by their number alone, and
  // the bound is what a recursion of depth 64 can reach.
  lemma DepthIsComponents(q: Path)
    requires q != [] && AreNames(q) && Kept(q)
    ensures SafePath(PathText(q)) <==> Spellable(PathText(q)) && |q| <= 65
  {
    PathTextSplits(q);
  }
}
