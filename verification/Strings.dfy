// Strings as the C code sees them: a `string` is the bytes of one C string up
// to its terminator, one `char` per byte. Splitting and joining follow GLib.

module Options {
  datatype Option<+T> = None | Some(value: T)
}

module Strings {

  // Joining sequences.
  lemma Assoc<T>(a: seq<T>, b: seq<T>, c: seq<T>)
    ensures (a + b) + c == a + (b + c)
  {
  }

  lemma HeadAndTail<T>(a: seq<T>, b: seq<T>)
    requires a != []
    ensures (a + b)[0] == a[0] && (a + b)[1..] == a[1..] + b
  {
  }

  // One more character in front of the text whose pieces are rest.
  function Front(c: char, sep: char, rest: seq<string>): (r: seq<string>)
    requires |rest| >= 1
    ensures |r| >= 1
  {
    if c == sep then [""] + rest else [[c] + rest[0]] + rest[1..]
  }

  // The pieces between separators; always at least one, possibly empty.
  function Pieces(s: string, sep: char): (r: seq<string>)
    ensures |r| >= 1
  {
    if s == "" then [""] else Front(s[0], sep, Pieces(s[1..], sep))
  }

  // g_strsplit(s, sep, -1): like Pieces, except that the empty string has no pieces.
  function Split(s: string, sep: char): seq<string> {
    if s == "" then [] else Pieces(s, sep)
  }

  // g_strjoinv(sep, parts)
  function Join(parts: seq<string>, sep: string): string {
    if |parts| == 0 then ""
    else if |parts| == 1 then parts[0]
    else parts[0] + sep + Join(parts[1..], sep)
  }

  predicate FreeOf(parts: seq<string>, sep: char) {
    forall i :: 0 <= i < |parts| ==> sep !in parts[i]
  }

  lemma {:induction false} PiecesAreFree(s: string, sep: char)
    ensures FreeOf(Pieces(s, sep), sep)
  {
    if s != "" {
      PiecesAreFree(s[1..], sep);
    }
  }

  // Joining what was split gives the string back.
  lemma {:induction false} JoinOfPieces(s: string, sep: char)
    ensures Join(Pieces(s, sep), [sep]) == s
  {
    if s != "" {
      JoinOfPieces(s[1..], sep);
      var rest := Pieces(s[1..], sep);
      if s[0] == sep {
        assert ([""] + rest)[1..] == rest;
      } else if |rest| > 1 {
        assert ([[s[0]] + rest[0]] + rest[1..])[1..] == rest[1..];
      }
    }
  }

  lemma GluedToFirst(c: char, sep: char, head: string, tail: seq<string>)
    requires c != sep
    ensures Front(c, sep, [head] + tail) == [[c] + head] + tail
  {
    assert ([head] + tail)[1..] == tail;
  }

  // A string without the separator, put in front of s, is glued to the first piece.
  lemma {:induction false} PiecesPrepend(a: string, s: string, sep: char)
    requires sep !in a
    ensures Pieces(a + s, sep) == [a + Pieces(s, sep)[0]] + Pieces(s, sep)[1..]
  {
    var p := Pieces(s, sep);
    if a == "" {
      assert a + s == s && a + p[0] == p[0];
    } else {
      PiecesPrepend(a[1..], s, sep);
      assert (a + s)[1..] == a[1..] + s;
      GluedToFirst(a[0], sep, a[1..] + p[0], p[1..]);
      assert [a[0]] + (a[1..] + p[0]) == a + p[0];
    }
  }

  lemma FrontAppend(c: char, sep: char, x: seq<string>, y: seq<string>)
    requires |x| >= 1
    ensures Front(c, sep, x + y) == Front(c, sep, x) + y
  {
    assert (x + y)[1..] == x[1..] + y;
  }

  // A separator separates.
  lemma {:induction false} PiecesAppend(a: string, b: string, sep: char)
    ensures Pieces(a + ([sep] + b), sep) == Pieces(a, sep) + Pieces(b, sep)
  {
    if a == "" {
      assert a + ([sep] + b) == [sep] + b && ([sep] + b)[1..] == b;
    } else {
      PiecesAppend(a[1..], b, sep);
      assert (a + ([sep] + b))[1..] == a[1..] + ([sep] + b);
      FrontAppend(a[0], sep, Pieces(a[1..], sep), Pieces(b, sep));
    }
  }

  // Splitting what was joined gives the parts back.
  lemma {:induction false} PiecesOfJoin(parts: seq<string>, sep: char)
    requires |parts| >= 1 && FreeOf(parts, sep)
    ensures Pieces(Join(parts, [sep]), sep) == parts
  {
    if |parts| == 1 {
      PiecesPrepend(parts[0], "", sep);
      assert parts[0] + "" == parts[0];
    } else {
      PiecesOfJoin(parts[1..], sep);
      var tail := [sep] + Join(parts[1..], [sep]);
      assert tail[1..] == Join(parts[1..], [sep]);
      PiecesPrepend(parts[0], tail, sep);
      assert parts[0] + tail == Join(parts, [sep]);
      assert Pieces(tail, sep) == [""] + parts[1..];
      assert parts[0] + "" == parts[0];
    }
  }

  lemma {:induction false} JoinAppend(a: seq<string>, b: seq<string>, sep: string)
    requires |a| > 0 && |b| > 0
    ensures Join(a + b, sep) == Join(a, sep) + sep + Join(b, sep)
  {
    if |a| == 1 {
      assert (a + b)[1..] == b;
    } else {
      JoinAppend(a[1..], b, sep);
      assert (a + b)[1..] == a[1..] + b;
    }
  }

  // The names a directory can hold: not empty, no separator, not a dot entry.
  predicate IsName(n: string) {
    n != "" && n != "." && n != ".." && '/' !in n
  }

  predicate AreNames(p: seq<string>) {
    forall i :: 0 <= i < |p| ==> IsName(p[i])
  }

  // Two splittings of one string into a separator-free head and a rest that is
  // empty or begins with the separator are the same splitting.
  lemma HeadIsUnique(a: string, x: string, b: string, y: string, sep: char)
    requires sep !in a && sep !in b
    requires x == "" || x[0] == sep
    requires y == "" || y[0] == sep
    requires a + x == b + y
    ensures a == b && x == y
  {
    var whole := a + x;
    assert forall i :: 0 <= i < |a| ==> whole[i] == a[i] != sep;
    assert forall i :: 0 <= i < |b| ==> whole[i] == b[i] != sep;
    assert |a| < |whole| ==> whole[|a|] == sep;
    assert |b| < |whole| ==> whole[|b|] == sep;
    assert a == whole[..|a|] && b == whole[..|b|];
    assert x == whole[|a|..] && y == whole[|b|..];
  }
}
