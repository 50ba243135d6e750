// The scan for shell syntax in a command that no shell will run
// (src/clawt-util.c, clawt_command_shell_syntax_refusal), against a grammar of
// quoting: section 2.2 of the POSIX Shell Command Language, for the constructs
// the code lists.

module ShellScan {
  import opened Options
  import opened Strings

  datatype Construct =
    | Semicolon | Pipe | Ampersand | Redirection | LineBreak | Backquote | Substitution | Variable

  // ---------------------------------------------------------------------
  // Quoting, declaratively: a command is a list of pieces and perhaps a quote
  // or a backslash that the end of the command leaves open.

  // A character inside double quotes, on its own or behind a backslash.
  datatype Item = Char(c: char) | EscapedChar(c: char)

  datatype Piece =
    | Bare(c: char)                 // an unquoted character
    | Escaped(c: char)              // backslash and a character (2.2.1)
    | Single(text: string)          // '...' (2.2.2)
    | Double(items: seq<Item>)      // "..." (2.2.3)

  datatype Tail =
    | End
    | LoneBackslash
    | OpenSingle(text: string)
    | OpenDouble(items: seq<Item>, backslash: bool)

  predicate WellFormedItems(items: seq<Item>) {
    forall i :: 0 <= i < |items| && items[i].Char? ==> items[i].c != '"' && items[i].c != '\\'
  }

  predicate WellFormedPiece(p: Piece) {
    match p
    case Bare(c) => c != '\'' && c != '"' && c != '\\'
    case Escaped(_) => true
    case Single(text) => '\'' !in text
    case Double(items) => WellFormedItems(items)
  }

  predicate WellFormed(pieces: seq<Piece>, tail: Tail) {
    (forall i :: 0 <= i < |pieces| ==> WellFormedPiece(pieces[i])) &&
    match tail
    case OpenSingle(text) => '\'' !in text
    case OpenDouble(items, _) => WellFormedItems(items)
    case _ => true
  }

  function ItemText(item: Item): string {
    if item.Char? then [item.c] else ['\\', item.c]
  }

  // The text of items, before rest.
  function ItemsText(items: seq<Item>, rest: string): string {
    if items == [] then rest else ItemText(items[0]) + ItemsText(items[1..], rest)
  }

  function TailText(tail: Tail): string {
    match tail
    case End => ""
    case LoneBackslash => "\\"
    case OpenSingle(text) => "'" + text
    case OpenDouble(items, backslash) => "\"" + ItemsText(items, if backslash then "\\" else "")
  }

  function PieceText(p: Piece, rest: string): string {
    match p
    case Bare(c) => [c] + rest
    case Escaped(c) => ['\\', c] + rest
    case Single(text) => "'" + text + "'" + rest
    case Double(items) => "\"" + ItemsText(items, "\"" + rest)
  }

  function Text(pieces: seq<Piece>, tail: Tail): string {
    if pieces == [] then TailText(tail) else PieceText(pieces[0], Text(pieces[1..], tail))
  }

  predicate IsAlpha(c: char) {
    'a' <= c <= 'z' || 'A' <= c <= 'Z'
  }

  // What a dollar sign begins, by the text that follows it.
  function Dollar(rest: string): seq<Construct> {
    if rest == "" then []
    else if rest[0] == '(' then [Substitution]
    else if rest[0] == '{' || IsAlpha(rest[0]) || rest[0] == '_' then [Variable]
    else []
  }

  // The construct an unquoted character is, given what follows it.
  function BareConstruct(c: char, rest: string): seq<Construct> {
    match c
    case ';' => [Semicolon]
    case '|' => [Pipe]
    case '&' => [Ampersand]
    case '<' => [Redirection]
    case '>' => [Redirection]
    case '\n' => [LineBreak]
    case '`' => [Backquote]
    case '$' => Dollar(rest)
    case _ => []
  }

  // Inside double quotes only the backquote and the dollar sign stay active.
  function ItemsConstructs(items: seq<Item>, rest: string): seq<Construct> {
    if items == [] then []
    else
      var after := ItemsText(items[1..], rest);
      (if items[0] == Char('`') then [Backquote]
       else if items[0] == Char('$') then Dollar(after)
       else [])
      + ItemsConstructs(items[1..], rest)
  }

  // The constructs of one piece, before the text rest.
  function PieceConstructs(p: Piece, rest: string): seq<Construct> {
    match p
    case Bare(c) => BareConstruct(c, rest)
    case Double(items) => ItemsConstructs(items, "\"" + rest)
    case _ => []
  }

  // Every active construct of the command, from left to right.
  function Constructs(pieces: seq<Piece>, tail: Tail): seq<Construct> {
    if pieces == [] then
      if tail.OpenDouble? then ItemsConstructs(tail.items, if tail.backslash then "\\" else "") else []
    else
      PieceConstructs(pieces[0], Text(pieces[1..], tail)) + Constructs(pieces[1..], tail)
  }

  function First(cs: seq<Construct>): Option<Construct> {
    if cs == [] then None else Some(cs[0])
  }

  // ---------------------------------------------------------------------
  // The scanner.

  datatype Quote = Unquoted | InSingle | InDouble

  // What the rest of the loop finds from text s on, in the given state.
  function Scan(s: string, quote: Quote): Option<Construct>
    decreases |s|
  {
    if s == "" then None
    else if quote == InSingle then Scan(s[1..], if s[0] == '\'' then Unquoted else InSingle)
    else if s[0] == '\\' then (if |s| > 1 then Scan(s[2..], quote) else None)
    else if quote == InDouble then
      if s[0] == '"' then Scan(s[1..], Unquoted)
      else if s[0] == '`' then Some(Backquote)
      else if s[0] == '$' && Dollar(s[1..]) != [] then Some(Dollar(s[1..])[0])
      else Scan(s[1..], InDouble)
    else if s[0] == '\'' then Scan(s[1..], InSingle)
    else if s[0] == '"' then Scan(s[1..], InDouble)
    else if BareConstruct(s[0], s[1..]) != [] then Some(BareConstruct(s[0], s[1..])[0])
    else Scan(s[1..], Unquoted)
  }

  method CommandShellSyntaxRefusal(command: Option<string>) returns (found: Option<Construct>)
    ensures found == if command.None? then None else Scan(command.value, Unquoted)
  {
    found := None;
    if command.None? {
      return;
    }
    var s := command.value;
    var quote := Unquoted;
    var p := 0;
    assert s[0..] == s;
    while p < |s| && found.None?
      invariant p <= |s|
      invariant Scan(s, Unquoted) == if found.Some? then found else Scan(s[p..], quote)
      decreases |s| - p
    {
      var c := s[p];
      var next := if p + 1 < |s| then Some(s[p + 1]) else None;
      assert s[p..][0] == c && s[p..][1..] == s[p + 1..];
      assert next.Some? ==> s[p..][2..] == s[p + 2..] && s[p + 1..][0] == next.value;
      if quote == InSingle {
        if c == '\'' {
          quote := Unquoted;
        }
      } else if c == '\\' {
        if next.Some? {
          p := p + 1;
        }
      } else if quote == InDouble {
        if c == '"' {
          quote := Unquoted;
        } else if c == '`' {
          found := Some(Backquote);
        } else if c == '$' && next == Some('(') {
          found := Some(Substitution);
        } else if c == '$' && next.Some? && (next.value == '{' || IsAlpha(next.value) || next.value == '_') {
          found := Some(Variable);
        }
      } else {
        match c {
          case '\'' => quote := InSingle;
          case '"' => quote := InDouble;
          case ';' => found := Some(Semicolon);
          case '|' => found := Some(Pipe);
          case '&' => found := Some(Ampersand);
          case '<' => found := Some(Redirection);
          case '>' => found := Some(Redirection);
          case '\n' => found := Some(LineBreak);
          case '`' => found := Some(Backquote);
          case '$' =>
            if next == Some('(') {
              found := Some(Substitution);
            } else if next.Some? && (next.value == '{' || IsAlpha(next.value) || next.value == '_') {
              found := Some(Variable);
            }
          case _ =>
        }
      }
      p := p + 1;
    }
  }

  // ---------------------------------------------------------------------
  // The scanner refines the grammar.

  lemma {:induction false} ScanSkipsSingle(text: string, rest: string)
    requires '\'' !in text
    ensures Scan(text + "'" + rest, InSingle) == Scan(rest, Unquoted)
    ensures Scan(text, InSingle) == None
    decreases |text|
  {
    var s := text + "'" + rest;
    if text == "" {
      assert s[1..] == rest;
    } else {
      ScanSkipsSingle(text[1..], rest);
      assert s[1..] == text[1..] + "'" + rest;
    }
  }

  lemma {:induction false} ScanItems(items: seq<Item>, rest: string)
    requires WellFormedItems(items)
    ensures Scan(ItemsText(items, rest), InDouble) ==
      if ItemsConstructs(items, rest) != [] then First(ItemsConstructs(items, rest)) else Scan(rest, InDouble)
    decreases |items|
  {
    if items != [] {
      var s := ItemsText(items, rest);
      var after := ItemsText(items[1..], rest);
      ScanItems(items[1..], rest);
      if items[0].Char? {
        assert s[0] == items[0].c && s[1..] == after;
      } else {
        assert s[0] == '\\' && s[2..] == after;
      }
    }
  }

  lemma ScanTail(tail: Tail)
    requires WellFormed([], tail)
    ensures Scan(TailText(tail), Unquoted) == First(Constructs([], tail))
  {
    var s := TailText(tail);
    match tail {
      case End =>
      case LoneBackslash =>
      case OpenSingle(text) =>
        ScanSkipsSingle(text, "");
        assert s[1..] == text;
      case OpenDouble(items, backslash) =>
        var rest := if backslash then "\\" else "";
        ScanItems(items, rest);
        assert s[1..] == ItemsText(items, rest);
    }
  }

  lemma ScanPiece(p: Piece, rest: string)
    requires WellFormedPiece(p)
    ensures Scan(PieceText(p, rest), Unquoted) ==
      if PieceConstructs(p, rest) != [] then First(PieceConstructs(p, rest)) else Scan(rest, Unquoted)
  {
    var s := PieceText(p, rest);
    match p {
      case Bare(c) =>
        assert s[0] == c && s[1..] == rest;
      case Escaped(c) =>
        assert s[0] == '\\' && s[2..] == rest;
      case Single(text) =>
        ScanSkipsSingle(text, rest);
        assert s[1..] == text + "'" + rest;
      case Double(items) =>
        ScanItems(items, "\"" + rest);
        assert s[1..] == ItemsText(items, "\"" + rest);
        assert ("\"" + rest)[1..] == rest;
    }
  }

  // For every way a command can be read as pieces, the scan refuses exactly
  // when there is an active construct, and names the first.
  lemma {:induction false} ScanIsFirstConstruct(pieces: seq<Piece>, tail: Tail)
    requires WellFormed(pieces, tail)
    ensures Scan(Text(pieces, tail), Unquoted) == First(Constructs(pieces, tail))
    decreases |pieces|
  {
    if pieces == [] {
      ScanTail(tail);
    } else {
      ScanIsFirstConstruct(pieces[1..], tail);
      ScanPiece(pieces[0], Text(pieces[1..], tail));
    }
  }

  // ---------------------------------------------------------------------
  // Every command has a reading.

  // What follows an opening double quote: a closed run of items and the text
  // after it, or items up to the end.
  lemma {:induction false} ReadItems(s: string) returns (items: seq<Item>, closed: bool, rest: string, backslash: bool)
    ensures WellFormedItems(items) && |rest| <= |s|
    ensures s == ItemsText(items, if closed then "\"" + rest else if backslash then "\\" else "")
    ensures closed ==> |rest| < |s|
    decreases |s|
  {
    if s == "" {
      return [], false, "", false;
    }
    if s[0] == '"' {
      assert s == "\"" + s[1..];
      return [], true, s[1..], false;
    }
    if s == "\\" {
      return [], false, "", true;
    }
    var item := if s[0] == '\\' then EscapedChar(s[1]) else Char(s[0]);
    var more := if s[0] == '\\' then s[2..] else s[1..];
    items, closed, rest, backslash := ReadItems(more);
    var all := [item] + items;
    assert all[1..] == items;
    assert s == ItemText(item) + more;
    items := all;
  }

  lemma {:induction false} EveryCommandReads(s: string) returns (pieces: seq<Piece>, tail: Tail)
    ensures WellFormed(pieces, tail) && Text(pieces, tail) == s
    decreases |s|
  {
    if s == "" {
      return [], End;
    }
    if s == "\\" {
      return [], LoneBackslash;
    }
    var piece, more;
    if s[0] == '\'' {
      if '\'' !in s[1..] {
        assert s == "'" + s[1..];
        return [], OpenSingle(s[1..]);
      }
      var text, after := SplitAtQuote(s[1..]);
      piece, more := Single(text), after;
      assert s == "'" + text + "'" + after;
    } else if s[0] == '"' {
      var items, closed, rest, backslash := ReadItems(s[1..]);
      assert s == "\"" + s[1..];
      if !closed {
        return [], OpenDouble(items, backslash);
      }
      piece, more := Double(items), rest;
    } else if s[0] == '\\' {
      piece, more := Escaped(s[1]), s[2..];
    } else {
      piece, more := Bare(s[0]), s[1..];
    }
    assert s == PieceText(piece, more);
    pieces, tail := EveryCommandReads(more);
    var all := [piece] + pieces;
    assert all[1..] == pieces;
    pieces := all;
  }

  lemma {:induction false} SplitAtQuote(s: string) returns (text: string, after: string)
    requires '\'' in s
    ensures '\'' !in text && s == text + "'" + after && |after| < |s|
  {
    if s[0] == '\'' {
      text, after := "", s[1..];
    } else {
      text, after := SplitAtQuote(s[1..]);
      text := [s[0]] + text;
    }
  }

  // The verdict on any command, in terms of the grammar alone.
  lemma RefusedIffActive(s: string)
    ensures exists pieces, tail :: WellFormed(pieces, tail) && Text(pieces, tail) == s
    ensures forall pieces, tail :: WellFormed(pieces, tail) && Text(pieces, tail) == s ==>
      Scan(s, Unquoted) == First(Constructs(pieces, tail))
  {
    var pieces, tail := EveryCommandReads(s);
    forall pieces, tail | WellFormed(pieces, tail) && Text(pieces, tail) == s
      ensures Scan(s, Unquoted) == First(Constructs(pieces, tail))
    {
      ScanIsFirstConstruct(pieces, tail);
    }
  }

  // ---------------------------------------------------------------------
  // Which characters are refused, and as what, in so many words.

  // A dollar sign before this text begins a substitution, or a variable.
  predicate OpensSubstitution(next: string) {
    next != "" && next[0] == '('
  }

  predicate OpensVariable(next: string) {
    next != "" && (next[0] == '{' || next[0] == '_' || 'a' <= next[0] <= 'z' || 'A' <= next[0] <= 'Z')
  }

  // Or is just a dollar sign.
  predicate PlainDollar(next: string) {
    !OpensSubstitution(next) && !OpensVariable(next)
  }

  predicate QuietItems(items: seq<Item>, rest: string) {
    items == [] ||
    (items[0] != Char('`') &&
     (items[0] == Char('$') ==> PlainDollar(ItemsText(items[1..], rest))) && QuietItems(items[1..], rest))
  }

  predicate QuietPiece(p: Piece, rest: string) {
    match p
    case Bare(c) => c !in {';', '|', '&', '<', '>', '\n', '`'} && (c == '$' ==> PlainDollar(rest))
    case Double(items) => QuietItems(items, "\"" + rest)
    case _ => true
  }

  // The text of pieces, before rest.
  function TextBefore(pieces: seq<Piece>, rest: string): string {
    if pieces == [] then rest else PieceText(pieces[0], TextBefore(pieces[1..], rest))
  }

  // Nothing in the pieces is active, when rest follows them.
  predicate Quiet(pieces: seq<Piece>, rest: string) {
    pieces == [] || (QuietPiece(pieces[0], TextBefore(pieces[1..], rest)) && Quiet(pieces[1..], rest))
  }

  predicate QuietTail(tail: Tail) {
    tail.OpenDouble? ==> QuietItems(tail.items, if tail.backslash then "\\" else "")
  }

  lemma {:induction false} QuietItemsMean(items: seq<Item>, rest: string)
    ensures QuietItems(items, rest) <==> ItemsConstructs(items, rest) == []
    decreases |items|
  {
    if items != [] {
      QuietItemsMean(items[1..], rest);
    }
  }

  lemma QuietPieceMeans(p: Piece, rest: string)
    ensures QuietPiece(p, rest) <==> PieceConstructs(p, rest) == []
  {
    if p.Double? {
      QuietItemsMean(p.items, "\"" + rest);
    }
  }

  lemma {:induction false} TextSplits(before: seq<Piece>, after: seq<Piece>, tail: Tail)
    ensures Text(before + after, tail) == TextBefore(before, Text(after, tail))
    decreases |before|
  {
    if before == [] {
      assert before + after == after;
    } else {
      assert (before + after)[1..] == before[1..] + after;
      TextSplits(before[1..], after, tail);
    }
  }

  // The scan passes over what is not active.
  lemma {:induction false} QuietIsPassed(before: seq<Piece>, rest: string)
    requires forall i :: 0 <= i < |before| ==> WellFormedPiece(before[i])
    requires Quiet(before, rest)
    ensures Scan(TextBefore(before, rest), Unquoted) == Scan(rest, Unquoted)
    decreases |before|
  {
    if before != [] {
      QuietIsPassed(before[1..], rest);
      QuietPieceMeans(before[0], TextBefore(before[1..], rest));
      ScanPiece(before[0], TextBefore(before[1..], rest));
    }
  }

  // A command is accepted if and only if nothing in it is active, however it is read.
  lemma {:induction false} AcceptedIffQuiet(pieces: seq<Piece>, tail: Tail)
    requires WellFormed(pieces, tail)
    ensures Scan(Text(pieces, tail), Unquoted) == None <==> Quiet(pieces, TailText(tail)) && QuietTail(tail)
    decreases |pieces|
  {
    if pieces == [] {
      ScanTail(tail);
      if tail.OpenDouble? {
        QuietItemsMean(tail.items, if tail.backslash then "\\" else "");
      }
    } else {
      AcceptedIffQuiet(pieces[1..], tail);
      assert pieces[1..] + [] == pieces[1..];
      TextSplits(pieces[1..], [], tail);
      QuietPieceMeans(pieces[0], Text(pieces[1..], tail));
      ScanPiece(pieces[0], Text(pieces[1..], tail));
    }
  }

  // The first active character, when it is not quoted.
  lemma FirstBare(before: seq<Piece>, c: char, after: seq<Piece>, tail: Tail)
    requires WellFormed(before + [Bare(c)] + after, tail) && Quiet(before, [c] + Text(after, tail))
    ensures var found, next := Scan(Text(before + [Bare(c)] + after, tail), Unquoted), Text(after, tail);
      && (c == ';' ==> found == Some(Semicolon))
      && (c == '|' ==> found == Some(Pipe))
      && (c == '&' ==> found == Some(Ampersand))
      && (c == '<' || c == '>' ==> found == Some(Redirection))
      && (c == '\n' ==> found == Some(LineBreak))
      && (c == '`' ==> found == Some(Backquote))
      && (c == '$' && OpensSubstitution(next) ==> found == Some(Substitution))
      && (c == '$' && OpensVariable(next) ==> found == Some(Variable))
  {
    var pieces, rest := before + [Bare(c)] + after, [c] + Text(after, tail);
    assert pieces == before + ([Bare(c)] + after) && ([Bare(c)] + after)[1..] == after;
    TextSplits(before, [Bare(c)] + after, tail);
    forall i | 0 <= i < |before| ensures WellFormedPiece(before[i]) {
      assert pieces[i] == before[i];
    }
    assert pieces[|before|] == Bare(c);
    QuietIsPassed(before, rest);
    assert rest[0] == c && rest[1..] == Text(after, tail);
  }

  lemma {:induction false} ItemsSplit(front: seq<Item>, back: seq<Item>, rest: string)
    ensures ItemsText(front + back, rest) == ItemsText(front, ItemsText(back, rest))
    decreases |front|
  {
    if front == [] {
      assert front + back == back;
    } else {
      assert (front + back)[1..] == front[1..] + back;
      ItemsSplit(front[1..], back, rest);
    }
  }

  // And inside double quotes, whether or not the command closes them.
  lemma FirstInQuotes(before: seq<Piece>, front: seq<Item>, c: char, back: seq<Item>, rest: string)
    requires (forall i :: 0 <= i < |before| ==> WellFormedPiece(before[i])) && WellFormedItems(front + [Char(c)])
    requires Quiet(before, "\"" + ItemsText(front + [Char(c)] + back, rest))
    requires QuietItems(front, [c] + ItemsText(back, rest))
    ensures var text := TextBefore(before, "\"" + ItemsText(front + [Char(c)] + back, rest));
      var found, next := Scan(text, Unquoted), ItemsText(back, rest);
      && (c == '`' ==> found == Some(Backquote))
      && (c == '$' && OpensSubstitution(next) ==> found == Some(Substitution))
      && (c == '$' && OpensVariable(next) ==> found == Some(Variable))
  {
    hide Scan, Quiet, QuietItems, TextBefore, ItemsText, WellFormedItems;
    var inner := ItemsText(front + [Char(c)] + back, rest);
    QuietIsPassed(before, "\"" + inner);
    OpensQuotes(inner);
    ItemsAround(front, c, back, rest);
    QuietItemsArePassed(front, c, ItemsText(back, rest));
    ActiveInQuotes(c, ItemsText(back, rest));
  }

  lemma OpensQuotes(s: string)
    ensures Scan("\"" + s, Unquoted) == Scan(s, InDouble)
  {
    assert ("\"" + s)[1..] == s;
  }

  lemma ItemsAround(front: seq<Item>, c: char, back: seq<Item>, rest: string)
    ensures ItemsText(front + [Char(c)] + back, rest) == ItemsText(front, [c] + ItemsText(back, rest))
  {
    assert front + [Char(c)] + back == front + ([Char(c)] + back) && ([Char(c)] + back)[1..] == back;
    ItemsSplit(front, [Char(c)] + back, rest);
  }

  lemma QuietItemsArePassed(front: seq<Item>, c: char, after: string)
    requires WellFormedItems(front + [Char(c)]) && QuietItems(front, [c] + after)
    ensures Scan(ItemsText(front, [c] + after), InDouble) == Scan([c] + after, InDouble)
  {
    forall i | 0 <= i < |front| && front[i].Char? ensures front[i].c != '"' && front[i].c != '\\' {
      assert (front + [Char(c)])[i] == front[i];
    }
    QuietItemsMean(front, [c] + after);
    ScanItems(front, [c] + after);
  }

  lemma ActiveInQuotes(c: char, next: string)
    ensures var found := Scan([c] + next, InDouble);
      && (c == '`' ==> found == Some(Backquote))
      && (c == '$' && OpensSubstitution(next) ==> found == Some(Substitution))
      && (c == '$' && OpensVariable(next) ==> found == Some(Variable))
  {
    assert ([c] + next)[1..] == next;
  }

  lemma FirstInDouble(before: seq<Piece>, front: seq<Item>, c: char, back: seq<Item>, after: seq<Piece>, tail: Tail)
    requires WellFormed(before + [Double(front + [Char(c)] + back)] + after, tail)
    requires Quiet(before, Text([Double(front + [Char(c)] + back)] + after, tail))
    requires QuietItems(front, [c] + ItemsText(back, "\"" + Text(after, tail)))
    ensures var found := Scan(Text(before + [Double(front + [Char(c)] + back)] + after, tail), Unquoted);
      var next := ItemsText(back, "\"" + Text(after, tail));
      && (c == '`' ==> found == Some(Backquote))
      && (c == '$' && OpensSubstitution(next) ==> found == Some(Substitution))
      && (c == '$' && OpensVariable(next) ==> found == Some(Variable))
  {
    var items := front + [Char(c)] + back;
    var pieces := before + [Double(items)] + after;
    assert pieces == before + ([Double(items)] + after) && ([Double(items)] + after)[1..] == after;
    TextSplits(before, [Double(items)] + after, tail);
    forall i | 0 <= i < |before| ensures WellFormedPiece(before[i]) {
      assert pieces[i] == before[i];
    }
    assert WellFormedPiece(pieces[|before|]);
    forall i | 0 <= i <= |front| && (front + [Char(c)])[i].Char?
      ensures var item := (front + [Char(c)])[i]; item.c != '"' && item.c != '\\'
    {
      assert items[i] == (front + [Char(c)])[i];
    }
    FirstInQuotes(before, front, c, back, "\"" + Text(after, tail));
  }

  lemma FirstInOpenDouble(before: seq<Piece>, front: seq<Item>, c: char, back: seq<Item>, backslash: bool)
    requires WellFormed(before, OpenDouble(front + [Char(c)] + back, backslash))
    requires Quiet(before, TailText(OpenDouble(front + [Char(c)] + back, backslash)))
    requires QuietItems(front, [c] + ItemsText(back, if backslash then "\\" else ""))
    ensures var found := Scan(Text(before, OpenDouble(front + [Char(c)] + back, backslash)), Unquoted);
      var next := ItemsText(back, if backslash then "\\" else "");
      && (c == '`' ==> found == Some(Backquote))
      && (c == '$' && OpensSubstitution(next) ==> found == Some(Substitution))
      && (c == '$' && OpensVariable(next) ==> found == Some(Variable))
  {
    var items := front + [Char(c)] + back;
    assert before + [] == before;
    TextSplits(before, [], OpenDouble(items, backslash));
    forall i | 0 <= i <= |front| && (front + [Char(c)])[i].Char?
      ensures var item := (front + [Char(c)])[i]; item.c != '"' && item.c != '\\'
    {
      assert items[i] == (front + [Char(c)])[i];
    }
    FirstInQuotes(before, front, c, back, if backslash then "\\" else "");
  }

  // ---------------------------------------------------------------------
  // Single quotes protect everything.

  function Head(s: string): Option<char> {
    if s == "" then None else Some(s[0])
  }

  // Constructs look ahead by one character and no further.
  lemma {:induction false} ItemsLookOneAhead(items: seq<Item>, r: string, q: string)
    requires Head(r) == Head(q)
    ensures ItemsConstructs(items, r) == ItemsConstructs(items, q)
    ensures Head(ItemsText(items, r)) == Head(ItemsText(items, q))
    decreases |items|
  {
    hide Dollar;
    if items != [] {
      ItemsLookOneAhead(items[1..], r, q);
      DollarLooksOneAhead(ItemsText(items[1..], r), ItemsText(items[1..], q));
    }
  }

  lemma DollarLooksOneAhead(r: string, q: string)
    requires Head(r) == Head(q)
    ensures Dollar(r) == Dollar(q)
  {
  }

  lemma PieceLooksOneAhead(p: Piece, r: string, q: string)
    requires Head(r) == Head(q)
    ensures PieceConstructs(p, r) == PieceConstructs(p, q)
    ensures Head(PieceText(p, r)) == Head(PieceText(p, q))
  {
    if p.Double? {
      ItemsLookOneAhead(p.items, "\"" + r, "\"" + q);
    }
  }

  // Other text between single quotes changes no construct anywhere.
  lemma {:induction false} SingleTextIsInert(before: seq<Piece>, text: string, other: string, after: seq<Piece>, tail: Tail)
    ensures var a, b := before + [Single(text)] + after, before + [Single(other)] + after;
      Constructs(a, tail) == Constructs(b, tail) && Head(Text(a, tail)) == Head(Text(b, tail))
    decreases |before|
  {
    var a, b := before + [Single(text)] + after, before + [Single(other)] + after;
    if before == [] {
      assert a[1..] == after && b[1..] == after;
    } else {
      assert a[1..] == before[1..] + [Single(text)] + after;
      assert b[1..] == before[1..] + [Single(other)] + after;
      SingleTextIsInert(before[1..], text, other, after, tail);
      PieceLooksOneAhead(before[0], Text(a[1..], tail), Text(b[1..], tail));
    }
  }

  // So it never changes the verdict.
  lemma SingleTextKeepsVerdict(before: seq<Piece>, text: string, other: string, after: seq<Piece>, tail: Tail)
    requires WellFormed(before + [Single(text)] + after, tail) && '\'' !in other
    ensures Scan(Text(before + [Single(text)] + after, tail), Unquoted)
         == Scan(Text(before + [Single(other)] + after, tail), Unquoted)
  {
    var a, b := before + [Single(text)] + after, before + [Single(other)] + after;
    forall i | 0 <= i < |b| ensures WellFormedPiece(b[i]) {
      assert i != |before| ==> b[i] == a[i];
    }
    ScanIsFirstConstruct(a, tail);
    ScanIsFirstConstruct(b, tail);
    SingleTextIsInert(before, text, other, after, tail);
  }

  // The usual way to quote any string: in single quotes, with each single quote
  // inside written as '\\''.
  function SingleQuoted(s: string): string {
    "'" + Join(Pieces(s, '\''), "'\\''") + "'"
  }

  lemma QuotedUnfolds(part: string, others: string, rest: string)
    ensures (part + "'\\''" + others) + "'" + rest == part + "'" + ("\\''" + (others + "'" + rest))
  {
  }

  lemma {:induction false} QuotedScans(parts: seq<string>, rest: string)
    requires |parts| >= 1 && FreeOf(parts, '\'')
    ensures Scan(Join(parts, "'\\''") + "'" + rest, InSingle) == Scan(rest, Unquoted)
    decreases |parts|
  {
    if |parts| == 1 {
      ScanSkipsSingle(parts[0], rest);
    } else {
      var more := Join(parts[1..], "'\\''") + "'" + rest;
      var gap := "\\''" + more;
      QuotedScans(parts[1..], rest);
      ScanSkipsSingle(parts[0], gap);
      QuotedUnfolds(parts[0], Join(parts[1..], "'\\''"), rest);
      assert gap[2..] == "'" + more && ("'" + more)[1..] == more;
    }
  }

  // Quoted like that, any string is accepted, whatever it holds, and the scan
  // of what follows is not affected.
  lemma SingleQuotedIsAccepted(s: string, rest: string)
    ensures Scan(SingleQuoted(s) + rest, Unquoted) == Scan(rest, Unquoted)
    ensures Scan(SingleQuoted(s), Unquoted) == None
  {
    hide Scan, Join, Pieces, FreeOf;
    PiecesAreFree(s, '\'');
    var body := Join(Pieces(s, '\''), "'\\''");
    QuotedScans(Pieces(s, '\''), rest);
    QuotedScans(Pieces(s, '\''), "");
    OpensSingle(body, rest);
    OpensSingle(body, "");
    assert SingleQuoted(s) + "" == SingleQuoted(s);
    ScanOfNothing();
  }

  lemma OpensSingle(body: string, rest: string)
    ensures Scan(("'" + body + "'") + rest, Unquoted) == Scan(body + "'" + rest, InSingle)
  {
    assert ("'" + body + "'") + rest == "'" + (body + "'" + rest);
    assert ("'" + (body + "'" + rest))[1..] == body + "'" + rest;
  }

  lemma ScanOfNothing()
    ensures Scan("", Unquoted) == None
  {
  }
}
