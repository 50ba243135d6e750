// A search query as one quoted phrase (src/clawt-util.c, clawt_fts5_phrase).
// The query is text: a sequence of characters.

module Phrase {
  import opened Options
  import opened Strings

  function Quoted(query: string): string {
    "\"" + Join(Split(query, '"'), "\"\"") + "\""
  }

  // alnum is g_unichar_isalnum.
  method Fts5Phrase(query: Option<string>, alnum: char -> bool) returns (r: Option<string>)
    ensures r.Some? <==> query.Some? && exists i :: 0 <= i < |query.value| && alnum(query.value[i])
    ensures r.Some? ==> r.value == Quoted(query.value)
  {
    if query.None? || query.value == "" {
      return None;
    }
    var hasToken := false;
    for p := 0 to |query.value|
      invariant !hasToken && forall i :: 0 <= i < p ==> !alnum(query.value[i])
    {
      if alnum(query.value[p]) {
        hasToken := true;
        break;
      }
    }
    if !hasToken {
      return None;
    }
    return Some(Quoted(query.value));
  }

  // The tokenizer of the query language, inside a literal: two quotes are one
  // quote, and a quote on its own ends the literal. Returns its value and the
  // text after it.
  function Body(s: string): Option<(string, string)>
    decreases |s|
  {
    if s == "" then None
    else if s[0] != '"' then Prepend(s[0], Body(s[1..]))
    else if |s| > 1 && s[1] == '"' then Prepend('"', Body(s[2..]))
    else Some(("", s[1..]))
  }

  function Prepend(c: char, r: Option<(string, string)>): Option<(string, string)> {
    if r.None? then None else Some(([c] + r.value.0, r.value.1))
  }

  function Literal(s: string): Option<(string, string)> {
    if s != "" && s[0] == '"' then Body(s[1..]) else None
  }

  lemma {:induction false} BodySkips(part: string, s: string, value: string, after: string)
    requires '"' !in part && Body(s) == Some((value, after))
    ensures Body(part + s) == Some((part + value, after))
  {
    if part == "" {
      assert part + s == s && part + value == value;
    } else {
      BodySkips(part[1..], s, value, after);
      assert (part + s)[1..] == part[1..] + s;
      assert [part[0]] + (part[1..] + value) == part + value;
    }
  }

  lemma BodyEnds(rest: string)
    requires rest != "" ==> rest[0] != '"'
    ensures Body("\"" + rest) == Some(("", rest))
  {
    assert ("\"" + rest)[1..] == rest;
  }

  // Two quotes stand for one.
  lemma BodyGoesOn(s: string, value: string, after: string)
    requires Body(s) == Some((value, after))
    ensures Body("\"\"" + s) == Some((['"'] + value, after))
  {
    assert ("\"\"" + s)[2..] == s;
  }

  lemma {:induction false} BodyOfJoin(parts: seq<string>, rest: string)
    requires |parts| >= 1 && FreeOf(parts, '"') && (rest != "" ==> rest[0] != '"')
    ensures Body(Join(parts, "\"\"") + ("\"" + rest)) == Some((Join(parts, "\""), rest))
    decreases |parts|
  {
    hide Body;
    var end := "\"" + rest;
    BodyEnds(rest);
    if |parts| == 1 {
      BodySkips(parts[0], end, "", rest);
      assert parts[0] + "" == parts[0];
    } else {
      BodyOfJoin(parts[1..], rest);
      var more := Join(parts[1..], "\"\"") + end;
      var gap := "\"\"" + more;
      BodyGoesOn(more, Join(parts[1..], "\""), rest);
      BodySkips(parts[0], gap, ['"'] + Join(parts[1..], "\""), rest);
      assert Join(parts, "\"\"") + end == parts[0] + gap;
      assert parts[0] + (['"'] + Join(parts[1..], "\"")) == Join(parts, "\"");
    }
  }

  lemma QuotedIsLiteral(query: string, rest: string)
    requires query != "" && (rest != "" ==> rest[0] != '"')
    ensures Literal(Quoted(query) + rest) == Some((query, rest))
  {
    var parts := Split(query, '"');
    PiecesAreFree(query, '"');
    JoinOfPieces(query, '"');
    BodyOfJoin(parts, rest);
    var inside := Join(parts, "\"\"") + ("\"" + rest);
    assert Quoted(query) + rest == "\"" + inside && ("\"" + inside)[1..] == inside;
  }

  // The output is one literal, to its last character, whose value is the query;
  // and whatever comes next in a query string, other than a quote, stays outside.
  lemma PhraseRoundTrip(query: string, rest: string)
    requires query != "" && (rest != "" ==> rest[0] != '"')
    ensures Literal(Quoted(query) + rest) == Some((query, rest))
    ensures Literal(Quoted(query)) == Some((query, ""))
  {
    QuotedIsLiteral(query, rest);
    QuotedIsLiteral(query, "");
    assert Quoted(query) + "" == Quoted(query);
  }
}
