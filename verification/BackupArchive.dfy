// The archive format and its verification before any write
// (src/clawt-backup.c, clawt_backup_create and the first half of
// clawt_backup_restore).

module BackupArchive {
  import opened Options
  import opened Strings
  import opened Files
  import opened BackupPolicy

  // SHA-256 and the serialised form of the member list, as functions.
  datatype Codec = Codec(sha: string -> string, enc: seq<Member> -> string, dec: string -> Option<seq<Member>>)

  // Digests are 64 hexadecimal digits, and reading back what was written works.
  ghost predicate Lossless(c: Codec) {
    (forall b :: |c.sha(b)| == 64) && forall ms :: c.dec(c.enc(ms)) == Some(ms)
  }

  const HEADER: nat := |MAGIC| + 65

  datatype Fault =
    | Io | BadHeader | BadSum | BadManifest | BadMember | Conflict
    | DestinationTaken
    | Clash     // a name was taken when a member was replayed
    | PastEnd   // the C code indexes past the component vector of ""

  datatype Verdict = Accepted(ms: seq<Member>, manifest: string) | Rejected(fault: Fault)

  // The whole file for a list of members.
  function Framed(c: Codec, ms: seq<Member>): string {
    MAGIC + c.sha(c.enc(ms)) + "\n" + c.enc(ms)
  }

  predicate GoodMember(c: Codec, m: Member) {
    SafePath(m.path) && |m.data| <= FILE_LIMIT && c.sha(m.data) == m.sum
  }

  predicate GoodMembers(c: Codec, ms: seq<Member>) {
    DistinctPaths(ms) && forall i :: 0 <= i < |ms| ==> GoodMember(c, ms[i])
  }

  // No member's path, cut at one of its slashes, is another member's path.
  predicate ParentFree(ms: seq<Member>) {
    forall i, k :: 0 <= i < |ms| && 0 <= k < |ms[i].path| && ms[i].path[k] == '/' ==> ms[i].path[..k] !in Paths(ms)
  }

  function Manifest(ms: seq<Member>): string {
    if ms == [] then "" else Manifest(ms[..|ms| - 1]) + ms[|ms| - 1].path + "\n"
  }

  // The verdict on the bytes of an archive, in the order the checks are made.
  function Judge(c: Codec, raw: string): Verdict {
    if |raw| < HEADER || raw[..|MAGIC|] != MAGIC || raw[HEADER - 1] != '\n' then Rejected(BadHeader)
    else if raw[|MAGIC|..HEADER - 1] != c.sha(raw[HEADER..]) then Rejected(BadSum)
    else
      var payload := c.dec(raw[HEADER..]);
      if payload.None? || |payload.value| > ENTRY_LIMIT then Rejected(BadManifest)
      else if !GoodMembers(c, payload.value) then Rejected(BadMember)
      else if !ParentFree(payload.value) then Rejected(Conflict)
      else Accepted(payload.value, Manifest(payload.value))
  }

  // What acceptance means: the header vouches for every byte after it, those bytes are
  // the list, and every member is what its own checksum says, safe and apart from the
  // others. Nothing else is asked.
  lemma AcceptedMeans(c: Codec, raw: string, ms: seq<Member>, manifest: string)
    ensures Judge(c, raw) == Accepted(ms, manifest) <==>
      && |raw| >= 80 && raw == "CLAWT-BACKUP-1\n" + c.sha(raw[80..]) + "\n" + raw[80..]
      && c.dec(raw[80..]) == Some(ms) && |ms| <= 100000
      && (forall m :: m in ms ==> SafePath(m.path) && c.sha(m.data) == m.sum && |m.data| <= 64 * 1024 * 1024)
      && DistinctPaths(ms) && ParentFree(ms) && manifest == Manifest(ms)
  {
    if |raw| >= HEADER {
      HeaderMeans(raw, c.sha(raw[HEADER..]));
      MembersMean(c, ms);
    }
  }

  lemma HeaderMeans(raw: string, sum: string)
    requires |raw| >= HEADER
    ensures raw == MAGIC + sum + "\n" + raw[HEADER..] <==>
      raw[..|MAGIC|] == MAGIC && raw[HEADER - 1] == '\n' && raw[|MAGIC|..HEADER - 1] == sum
  {
    var whole := MAGIC + sum + "\n" + raw[HEADER..];
    if raw == whole {
      assert |sum| == 64;
      assert whole[..|MAGIC|] == MAGIC && whole[|MAGIC|..HEADER - 1] == sum && whole[HEADER - 1] == '\n';
    }
    assert raw == raw[..|MAGIC|] + raw[|MAGIC|..HEADER - 1] + [raw[HEADER - 1]] + raw[HEADER..];
  }

  lemma MembersMean(c: Codec, ms: seq<Member>)
    ensures GoodMembers(c, ms) <==>
      DistinctPaths(ms) &&
      forall m :: m in ms ==> SafePath(m.path) && c.sha(m.data) == m.sum && |m.data| <= 64 * 1024 * 1024
  {
    if forall m :: m in ms ==> SafePath(m.path) && c.sha(m.data) == m.sum && |m.data| <= 64 * 1024 * 1024 {
      forall i | 0 <= i < |ms| ensures GoodMember(c, ms[i]) {
        assert ms[i] in ms;
      }
    }
    if GoodMembers(c, ms) {
      forall m | m in ms ensures GoodMember(c, m) {
        var i :| 0 <= i < |ms| && ms[i] == m;
      }
    }
  }

  // Which fault a refusal names: the first of the tests, in this order, that fails.
  lemma FaultMeans(c: Codec, raw: string)
    ensures (Judge(c, raw) == Rejected(BadHeader)) <==>
      (|raw| < 80 || raw[..15] != "CLAWT-BACKUP-1\n" || raw[79] != '\n')
    ensures Judge(c, raw) != Rejected(BadHeader) ==>
      (Judge(c, raw) == Rejected(BadSum) <==> raw != "CLAWT-BACKUP-1\n" + c.sha(raw[80..]) + "\n" + raw[80..])
    ensures Judge(c, raw) !in {Rejected(BadHeader), Rejected(BadSum)} ==>
      var payload := c.dec(raw[80..]);
      && (Judge(c, raw) == Rejected(BadManifest) <==> payload.None? || |payload.value| > 100000)
      && (Judge(c, raw) != Rejected(BadManifest) ==>
            && (Judge(c, raw) == Rejected(BadMember) <==> !GoodMembers(c, payload.value))
            && (Judge(c, raw) == Rejected(Conflict) <==>
                  GoodMembers(c, payload.value) && !ParentFree(payload.value)))
  {
    if |raw| >= HEADER {
      HeaderMeans(raw, c.sha(raw[HEADER..]));
    }
  }

  // So two archives with the same body are the same archive, when both are accepted.
  lemma BodyDecides(c: Codec, raw: string, other: string)
    requires Judge(c, raw).Accepted? && Judge(c, other).Accepted? && raw[HEADER..] == other[HEADER..]
    ensures raw == other
  {
    AcceptedMeans(c, raw, Judge(c, raw).ms, Judge(c, raw).manifest);
    AcceptedMeans(c, other, Judge(c, other).ms, Judge(c, other).manifest);
  }

  // strrchr(s, '/')
  function LastSlash(s: string): (r: Option<nat>)
    ensures r.Some? ==> r.value < |s| && s[r.value] == '/' && forall i :: r.value < i < |s| ==> s[i] != '/'
    ensures r.None? ==> '/' !in s
  {
    if s == "" then None
    else if s[|s| - 1] == '/' then Some(|s| - 1)
    else LastSlash(s[..|s| - 1])
  }

  method Verify(c: Codec, raw: string) returns (v: Verdict)
    ensures v == Judge(c, raw)
  {
    if |raw| < HEADER || raw[..|MAGIC|] != MAGIC || raw[HEADER - 1] != '\n' {
      return Rejected(BadHeader);
    }
    var body := raw[HEADER..];
    if raw[|MAGIC|..HEADER - 1] != c.sha(body) {
      return Rejected(BadSum);
    }
    var payload := c.dec(body);
    if payload.None? || |payload.value| > ENTRY_LIMIT {
      return Rejected(BadManifest);
    }
    var good, manifest := VerifyMembers(c, payload.value);
    if !good {
      return Rejected(BadMember);
    }
    var free := VerifyParents(payload.value);
    if !free {
      return Rejected(Conflict);
    }
    return Accepted(payload.value, manifest);
  }

  // The first loop: every member on its own, and duplicates.
  method VerifyMembers(c: Codec, ms: seq<Member>) returns (good: bool, manifest: string)
    ensures good == GoodMembers(c, ms)
    ensures good ==> manifest == Manifest(ms)
  {
    var paths: set<string> := {};
    manifest := "";
    for i := 0 to |ms|
      invariant paths == Paths(ms[..i])
      invariant GoodMembers(c, ms[..i])
      invariant manifest == Manifest(ms[..i])
    {
      var m := ms[i];
      GoodStep(c, ms, i);
      var safe := CheckSafePath(m.path);
      if !safe || m.path in paths || |m.data| > FILE_LIMIT || c.sha(m.data) != m.sum {
        return false, manifest;
      }
      paths := paths + {m.path};
      manifest := manifest + m.path + "\n";
    }
    assert ms[..|ms|] == ms;
    return true, manifest;
  }

  lemma PathsPush(ms: seq<Member>, m: Member)
    ensures Paths(ms + [m]) == Paths(ms) + {m.path}
  {
    assert forall x :: x in ms + [m] <==> x in ms || x == m;
  }

  lemma GoodPush(c: Codec, ms: seq<Member>, m: Member)
    ensures GoodMembers(c, ms + [m]) <==> GoodMembers(c, ms) && GoodMember(c, m) && m.path !in Paths(ms)
  {
    hide GoodMember;
    var next := ms + [m];
    assert next[|ms|] == m && forall k :: 0 <= k < |ms| ==> next[k] == ms[k];
    if GoodMembers(c, next) {
      assert forall k :: 0 <= k < |ms| ==> next[k].path != next[|ms|].path;
    }
    if m.path !in Paths(ms) {
      forall k | 0 <= k < |ms| ensures ms[k].path != m.path {
        assert ms[k] in ms;
      }
    }
  }

  lemma GoodPrefix(c: Codec, ms: seq<Member>, i: nat)
    requires i <= |ms| && GoodMembers(c, ms)
    ensures GoodMembers(c, ms[..i])
  {
    hide GoodMember;
    assert forall k :: 0 <= k < i ==> ms[..i][k] == ms[k];
  }

  // What one more member adds to the checks, the table and the manifest.
  lemma GoodStep(c: Codec, ms: seq<Member>, i: nat)
    requires i < |ms|
    ensures GoodMembers(c, ms[..i + 1]) <==>
      GoodMembers(c, ms[..i]) && GoodMember(c, ms[i]) && ms[i].path !in Paths(ms[..i])
    ensures GoodMembers(c, ms) ==> GoodMembers(c, ms[..i + 1])
    ensures Paths(ms[..i + 1]) == Paths(ms[..i]) + {ms[i].path}
    ensures Manifest(ms[..i + 1]) == Manifest(ms[..i]) + ms[i].path + "\n"
  {
    hide GoodMembers, GoodMember, Paths;
    var init, next := ms[..i], ms[..i + 1];
    assert next == init + [ms[i]] && next[..i] == init;
    PathsPush(init, ms[i]);
    GoodPush(c, init, ms[i]);
    if GoodMembers(c, ms) {
      GoodPrefix(c, ms, i + 1);
    }
  }

  // No slash of path from a position on cuts off another member's path.
  predicate CutsFree(path: string, from: nat, paths: set<string>) {
    forall k :: from <= k < |path| && path[k] == '/' ==> path[..k] !in paths
  }

  lemma CutNext(path: string, end: nat, cut: nat, paths: set<string>)
    requires cut < end <= |path| && path[cut] == '/' && '/' !in path[cut + 1..end]
    ensures path[..end][..cut] == path[..cut]
    ensures CutsFree(path, end, paths) && path[..cut] !in paths ==> CutsFree(path, cut, paths)
  {
    assert forall k :: cut < k < end ==> path[k] == path[cut + 1..end][k - cut - 1];
  }

  lemma CutLast(path: string, end: nat, paths: set<string>)
    requires end <= |path| && '/' !in path[..end] && CutsFree(path, end, paths)
    ensures CutsFree(path, 0, paths)
  {
    assert forall k :: 0 <= k < end ==> path[k] == path[..end][k];
  }

  // The second loop: cut each path at its slashes, last first, and look it up.
  method VerifyParents(ms: seq<Member>) returns (free: bool)
    ensures free == ParentFree(ms)
  {
    var paths := Paths(ms);
    for i := 0 to |ms|
      invariant forall j :: 0 <= j < i ==> CutsFree(ms[j].path, 0, paths)
    {
      var path := ms[i].path;
      var parent := path;
      var slash := LastSlash(parent);
      while slash.Some?
        invariant |parent| <= |path| && parent == path[..|parent|]
        invariant slash == LastSlash(parent)
        invariant CutsFree(path, |parent|, paths)
        decreases |parent|
      {
        var cut := slash.value;
        CutNext(path, |parent|, cut, paths);
        parent := parent[..cut];
        if parent in paths {
          return false;
        }
        slash := LastSlash(parent);
      }
      CutLast(path, |parent|, paths);
    }
    return true;
  }

  lemma LastPath(ms: seq<Member>, lines: seq<string>)
    requires ms != [] && |lines| == |ms| - 1 && forall i :: 0 <= i < |lines| ==> lines[i] == ms[i].path
    ensures lines + [ms[|ms| - 1].path, ""] == seq(|ms|, i requires 0 <= i < |ms| => ms[i].path) + [""]
  {
  }

  lemma NoLines()
    ensures Pieces("", '\n') == [""]
  {
  }

  // The preview is faithful: its lines are the member paths, in order.
  lemma {:induction false} ManifestLines(c: Codec, ms: seq<Member>)
    requires forall i :: 0 <= i < |ms| ==> GoodMember(c, ms[i])
    ensures Pieces(Manifest(ms), '\n') == seq(|ms|, i requires 0 <= i < |ms| => ms[i].path) + [""]
  {
    if ms != [] {
      var init, m := ms[..|ms| - 1], ms[|ms| - 1];
      ManifestLines(c, init);
      forall i | 0 <= i < |m.path| ensures m.path[i] != '\n' {
        assert !IsControl(m.path[i]);
      }
      // A line is what precedes its newline and follows the one before.
      var lines := seq(|init|, i requires 0 <= i < |init| => init[i].path);
      hide Pieces;
      LineAppend(Manifest(init), lines, m.path);
      LastPath(ms, lines);
    } else {
      NoLines();
    }
  }

  lemma OneLine(line: string)
    requires '\n' !in line
    ensures Pieces(line + "\n", '\n') == [line, ""]
  {
    assert Pieces("", '\n') == [""];
    PiecesAppend(line, "", '\n');
    PiecesPrepend(line, "", '\n');
    assert line + "" == line && ['\n'] + "" == "\n";
  }

  lemma LinesBefore(init: string, rest: string)
    ensures Pieces(init + "\n" + rest, '\n') == Pieces(init, '\n') + Pieces(rest, '\n')
  {
    PiecesAppend(init, rest, '\n');
    assert init + (['\n'] + rest) == init + "\n" + rest;
  }

  lemma DropEmpty(a: seq<string>, b: seq<string>)
    requires a + [""] == b + [""]
    ensures a == b
  {
    assert a == (a + [""])[..|a|] && b == (b + [""])[..|b|] && |a| == |b|;
  }

  lemma LineAfter(init: string, lines: seq<string>, line: string)
    requires Pieces(init + "\n" + "", '\n') == lines + [""] && '\n' !in line
    ensures Pieces(init + "\n" + (line + "\n"), '\n') == lines + [line, ""]
  {
    LinesBefore(init, "");
    assert Pieces("", '\n') == [""];
    DropEmpty(lines, Pieces(init, '\n'));
    LinesBefore(init, line + "\n");
    OneLine(line);
  }

  lemma LineFirst(lines: seq<string>, line: string)
    requires Pieces("", '\n') == lines + [""] && '\n' !in line
    ensures Pieces(line + "\n", '\n') == lines + [line, ""]
  {
    OneLine(line);
    assert |lines + [""]| == 1;
  }

  lemma Shapes(text: string, line: string)
    requires text == "" || text[|text| - 1] == '\n'
    ensures text == "" ==> text + line + "\n" == line + "\n"
    ensures text != "" ==>
      var init := text[..|text| - 1]; text == init + "\n" + "" && text + line + "\n" == init + "\n" + (line + "\n")
  {
  }

  lemma LineAppend(text: string, lines: seq<string>, line: string)
    requires text == "" || text[|text| - 1] == '\n'
    requires Pieces(text, '\n') == lines + [""] && '\n' !in line
    ensures Pieces(text + line + "\n", '\n') == lines + [line, ""]
  {
    hide Pieces;
    Shapes(text, line);
    if text == "" {
      LineFirst(lines, line);
    } else {
      LineAfter(text[..|text| - 1], lines, line);
    }
  }
}
