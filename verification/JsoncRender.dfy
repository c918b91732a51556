/**
 * The JSONC preprocessor against the grammar it stands for: a strict JSON token sequence, written with
 * whitespace, comments and trailing commas, comes back as the strict text.
 */
module JsoncRender {
  import opened Characters
  import opened Jsonc
  import opened Sequences

  // ----- Documents -----

  /** One element of a string literal (section 7 of RFC 8259): a plain character, or an escape pair. */
  datatype StringItem = Plain(c: char) | Escape(c: char)

  datatype Token = Text(items: seq<StringItem>) | Punctuation(c: char) | Atom(spelling: string)

  /** A document is tokens with whitespace, comments and trailing commas anywhere between them. */
  datatype Piece =
    | Tok(token: Token)
    | TrailingComma
    | Space(c: char)
    | Line(body: string)
    | Block(body: string)

  predicate IsPunctuation(c: char) {
    c == '{' || c == '}' || c == '[' || c == ']' || c == ':' || c == ','
  }

  /** Literals and numbers use none of the characters that structure a document. */
  predicate IsAtomChar(c: char) {
    !IsPunctuation(c) && !IsWhitespace(c) && c != '"' && c != '/'
  }

  predicate ValidItem(item: StringItem) {
    match item
    case Plain(c) => c != '"' && c != '\\'
    case Escape(_) => true
  }

  predicate ClosesComment(body: string, i: nat) {
    i + 1 < |body| && body[i] == '*' && body[i + 1] == '/'
  }

  predicate ValidPiece(piece: Piece) {
    match piece
    case Tok(Text(items)) => forall i :: 0 <= i < |items| ==> ValidItem(items[i])
    case Tok(Punctuation(c)) => IsPunctuation(c)
    case Tok(Atom(spelling)) => spelling != "" && forall i :: 0 <= i < |spelling| ==> IsAtomChar(spelling[i])
    case TrailingComma => true
    case Space(c) => IsWhitespace(c)
    case Line(body) => '\n' !in body
    case Block(body) => forall i: nat :: i < |body| ==> !ClosesComment(body, i)
  }

  predicate IsCloserPiece(piece: Piece) {
    piece.Tok? && piece.token.Punctuation? && IsCloser(piece.token.c)
  }

  /** Whether the first piece that is not whitespace or a comment is a closing bracket. */
  predicate CloserNext(pieces: seq<Piece>) {
    pieces != [] &&
    (IsCloserPiece(pieces[0]) || ((pieces[0].Space? || pieces[0].Line? || pieces[0].Block?) && CloserNext(pieces[1..])))
  }

  /** Whether the first piece that is not whitespace or a comment is a trailing comma. */
  predicate TrailingCommaNext(pieces: seq<Piece>) {
    pieces != [] &&
    (pieces[0].TrailingComma? ||
     ((pieces[0].Space? || pieces[0].Line? || pieces[0].Block?) && TrailingCommaNext(pieces[1..])))
  }

  /**
   * The tokens are strict JSON as far as commas go, and each trailing comma stands before a closer:
   * a separating comma never does.
   */
  predicate WellPlaced(pieces: seq<Piece>) {
    pieces != [] ==>
      && (pieces[0] == Tok(Punctuation(',')) ==> !CloserNext(pieces[1..]) && !TrailingCommaNext(pieces[1..]))
      && (pieces[0].TrailingComma? ==> CloserNext(pieces[1..]))
      && WellPlaced(pieces[1..])
  }

  predicate ValidDocument(pieces: seq<Piece>) {
    WellPlaced(pieces) && forall i :: 0 <= i < |pieces| ==> ValidPiece(pieces[i])
  }

  // ----- Three texts of a document -----

  function ItemText(item: StringItem): string {
    match item
    case Plain(c) => [c]
    case Escape(c) => ['\\', c]
  }

  function ItemsText(items: seq<StringItem>): string {
    if items == [] then ""
    else ItemText(items[0]) + ItemsText(items[1..])
  }

  function TokenText(token: Token): string {
    match token
    case Text(items) => "\"" + ItemsText(items) + "\""
    case Punctuation(c) => [c]
    case Atom(spelling) => spelling
  }

  function OnlyNewlines(text: string): string {
    if text == "" then "" else (if text[0] == '\n' then "\n" else "") + OnlyNewlines(text[1..])
  }

  /** What the user wrote. */
  function PieceSource(piece: Piece): string {
    match piece
    case Tok(token) => TokenText(token)
    case TrailingComma => ","
    case Space(c) => [c]
    case Line(body) => "//" + body + "\n"
    case Block(body) => "/*" + body + "*/"
  }

  /** The same without comments, of which only the newlines stay. */
  function PieceUncommented(piece: Piece): string {
    match piece
    case Line(_) => "\n"
    case Block(body) => OnlyNewlines(body)
    case _ => PieceSource(piece)
  }

  /** The strict text: no comments and no trailing commas. */
  function PieceStrict(piece: Piece): string {
    if piece.TrailingComma? then "" else PieceUncommented(piece)
  }

  function Source(pieces: seq<Piece>): string {
    if pieces == [] then "" else PieceSource(pieces[0]) + Source(pieces[1..])
  }

  function Uncommented(pieces: seq<Piece>): string {
    if pieces == [] then "" else PieceUncommented(pieces[0]) + Uncommented(pieces[1..])
  }

  function Strict(pieces: seq<Piece>): string {
    if pieces == [] then "" else PieceStrict(pieces[0]) + Strict(pieces[1..])
  }

  // ----- First scan -----

  lemma Cons(c: char, s: string, t: string)
    ensures ([c] + s) + t == [c] + (s + t)
    ensures ([c] + s)[1..] == s && ([c] + s)[0] == c
  {
  }

  /** One character of a string literal, or one escape pair, passes through either scan. */
  lemma ItemPasses(item: StringItem, tail: string)
    requires ValidItem(item)
    ensures WithoutComments(InString(false), ItemText(item) + tail)
         == ItemText(item) + WithoutComments(InString(false), tail)
    ensures WithoutTrailingCommas(InString(false), ItemText(item) + tail)
         == ItemText(item) + WithoutTrailingCommas(InString(false), tail)
  {
    var c := item.c;
    Cons(c, [], tail);
    if item.Escape? {
      Cons('\\', [c], tail);
      assert ItemText(item) == ['\\'] + [c];
      assert WithoutComments(InString(true), [c] + tail) == [c] + WithoutComments(InString(false), tail);
      assert WithoutTrailingCommas(InString(true), [c] + tail) == [c] + WithoutTrailingCommas(InString(false), tail);
      Regroup(['\\'], [c], WithoutComments(InString(false), tail));
      Regroup(['\\'], [c], WithoutTrailingCommas(InString(false), tail));
    }
  }

  /** The inside of a string literal and its closing quote pass through the first scan. */
  lemma {:induction false} StringPassesComments(items: seq<StringItem>, rest: string)
    requires forall i :: 0 <= i < |items| ==> ValidItem(items[i])
    ensures WithoutComments(InString(false), ItemsText(items) + (['"'] + rest))
         == ItemsText(items) + (['"'] + WithoutComments(Code, rest))
  {
    var quoted, done := ['"'] + rest, ['"'] + WithoutComments(Code, rest);
    if items == [] {
      Cons('"', [], rest);
      assert [] + quoted == quoted && [] + done == done;
    } else {
      StringPassesComments(items[1..], rest);
      ItemPasses(items[0], ItemsText(items[1..]) + quoted);
      Regroup(ItemText(items[0]), ItemsText(items[1..]), quoted);
      Regroup(ItemText(items[0]), ItemsText(items[1..]), done);
    }
  }

  lemma AtomCharPasses(c: char, rest: string)
    requires IsAtomChar(c)
    ensures WithoutComments(Code, [c] + rest) == [c] + WithoutComments(Code, rest)
  {
    Cons(c, [], rest);
  }

  lemma {:induction false} AtomPassesComments(spelling: string, rest: string)
    requires forall i :: 0 <= i < |spelling| ==> IsAtomChar(spelling[i])
    ensures WithoutComments(Code, spelling + rest) == spelling + WithoutComments(Code, rest)
  {
    if spelling == "" {
      assert spelling + rest == rest;
    } else {
      AtomPassesComments(spelling[1..], rest);
      AtomCharPasses(spelling[0], spelling[1..] + rest);
      FrontAndRest(spelling);
      Regroup([spelling[0]], spelling[1..], rest);
      Regroup([spelling[0]], spelling[1..], WithoutComments(Code, rest));
    }
  }

  lemma {:induction false} LineDisappears(body: string, rest: string)
    requires '\n' !in body
    ensures WithoutComments(LineComment, body + "\n" + rest) == "\n" + WithoutComments(Code, rest)
  {
    var text := body + "\n" + rest;
    if body == "" {
      assert text[1..] == rest;
    } else {
      assert text[1..] == body[1..] + "\n" + rest;
      LineDisappears(body[1..], rest);
    }
  }

  lemma CloserEndsBlock(prev: char, rest: string)
    ensures WithoutComments(BlockComment(prev), "*/" + rest) == WithoutComments(Code, rest)
  {
    assert "*/" + rest == ['*'] + (['/'] + rest);
    Cons('*', [], ['/'] + rest);
    Cons('/', [], rest);
    assert WithoutComments(BlockComment('*'), ['/'] + rest) == WithoutComments(Code, rest);
  }

  /** From inside a block comment, whose first character can still close it if `prev` is a star. */
  lemma {:induction false} BlockLeavesNewlines(prev: char, body: string, rest: string)
    requires forall i: nat :: i < |body| ==> !ClosesComment(body, i)
    requires body != "" ==> !(prev == '*' && body[0] == '/')
    ensures WithoutComments(BlockComment(prev), body + ("*/" + rest))
         == OnlyNewlines(body) + WithoutComments(Code, rest)
    decreases |body|
  {
    if body == "" {
      CloserEndsBlock(prev, rest);
      assert body + ("*/" + rest) == "*/" + rest;
    } else {
      assert (body + ("*/" + rest))[1..] == body[1..] + ("*/" + rest);
      assert |body| > 1 ==> !ClosesComment(body, 0);
      forall i: nat | i < |body[1..]| ensures !ClosesComment(body[1..], i) {
        assert !ClosesComment(body, i + 1);
      }
      BlockLeavesNewlines(body[0], body[1..], rest);
      Regroup(if body[0] == '\n' then "\n" else "", OnlyNewlines(body[1..]), WithoutComments(Code, rest));
    }
  }

  lemma QuotedText(text: string, rest: string)
    ensures ("\"" + text + "\"") + rest == ['"'] + (text + (['"'] + rest))
  {
  }

  lemma StringPiece(items: seq<StringItem>, rest: string)
    requires forall i :: 0 <= i < |items| ==> ValidItem(items[i])
    ensures WithoutComments(Code, TokenText(Text(items)) + rest) == TokenText(Text(items)) + WithoutComments(Code, rest)
    ensures WithoutTrailingCommas(Code, TokenText(Text(items)) + rest)
         == TokenText(Text(items)) + WithoutTrailingCommas(Code, rest)
  {
    var text := ItemsText(items);
    QuotedText(text, rest);
    QuotedText(text, WithoutComments(Code, rest));
    QuotedText(text, WithoutTrailingCommas(Code, rest));
    Cons('"', text + (['"'] + rest), []);
    StringPassesComments(items, rest);
    StringPassesCommas(items, rest);
  }

  lemma LinePiece(body: string, rest: string)
    requires '\n' !in body
    ensures WithoutComments(Code, "//" + body + "\n" + rest) == "\n" + WithoutComments(Code, rest)
  {
    var inner := body + "\n" + rest;
    var second := ['/'] + inner;
    assert "//" + body + "\n" + rest == ['/'] + second;
    assert second[1..] == inner && (['/'] + second)[1..] == second;
    assert WithoutComments(LineComment, second) == WithoutComments(LineComment, inner);
    LineDisappears(body, rest);
  }

  lemma BlockPiece(body: string, rest: string)
    requires forall i: nat :: i < |body| ==> !ClosesComment(body, i)
    ensures WithoutComments(Code, "/*" + body + "*/" + rest) == OnlyNewlines(body) + WithoutComments(Code, rest)
  {
    var inner := body + "*/" + rest;
    var second := ['*'] + inner;
    assert "/*" + body + "*/" + rest == ['/'] + second;
    assert second[1..] == inner && (['/'] + second)[1..] == second;
    assert WithoutComments(BlockOpen, second) == WithoutComments(BlockComment('\0'), inner);
    Regroup(body, "*/", rest);
    BlockLeavesNewlines('\0', body, rest);
  }

  lemma OneCharacter(c: char, rest: string)
    requires c != '"' && c != '/'
    ensures WithoutComments(Code, [c] + rest) == [c] + WithoutComments(Code, rest)
  {
    assert ([c] + rest)[1..] == rest;
  }

  lemma PiecePassesComments(piece: Piece, rest: string)
    requires ValidPiece(piece)
    ensures WithoutComments(Code, PieceSource(piece) + rest) == PieceUncommented(piece) + WithoutComments(Code, rest)
  {
    match piece
    case Tok(Text(items)) => StringPiece(items, rest);
    case Tok(Punctuation(c)) => OneCharacter(c, rest);
    case Tok(Atom(spelling)) => AtomPassesComments(spelling, rest);
    case TrailingComma => OneCharacter(',', rest);
    case Space(c) => OneCharacter(c, rest);
    case Line(body) => LinePiece(body, rest);
    case Block(body) => BlockPiece(body, rest);
  }

  lemma {:induction false} CommentsBecomeNewlines(pieces: seq<Piece>, rest: string)
    requires forall i :: 0 <= i < |pieces| ==> ValidPiece(pieces[i])
    ensures WithoutComments(Code, Source(pieces) + rest) == Uncommented(pieces) + WithoutComments(Code, rest)
  {
    if pieces == [] {
      assert Source(pieces) + rest == rest;
    } else {
      CommentsBecomeNewlines(pieces[1..], rest);
      Regroup(PieceSource(pieces[0]), Source(pieces[1..]), rest);
      PiecePassesComments(pieces[0], Source(pieces[1..]) + rest);
      Regroup(PieceUncommented(pieces[0]), Uncommented(pieces[1..]), WithoutComments(Code, rest));
    }
  }

  /** A line comment that ends the file without a newline leaves nothing. */
  lemma {:induction false} LastLineDisappears(body: string)
    requires '\n' !in body
    ensures WithoutComments(LineComment, body) == ""
  {
    if body != "" {
      LastLineDisappears(body[1..]);
    }
  }

  lemma OpenLineComment(body: string)
    requires '\n' !in body
    ensures WithoutComments(Code, "//" + body) == ""
  {
    var second := ['/'] + body;
    assert "//" + body == ['/'] + second;
    assert (['/'] + second)[1..] == second && second[1..] == body;
    LastLineDisappears(body);
    assert WithoutComments(LineComment, second) == "";
  }

  // ----- Second scan -----

  lemma {:induction false} StringPassesCommas(items: seq<StringItem>, rest: string)
    requires forall i :: 0 <= i < |items| ==> ValidItem(items[i])
    ensures WithoutTrailingCommas(InString(false), ItemsText(items) + (['"'] + rest))
         == ItemsText(items) + (['"'] + WithoutTrailingCommas(Code, rest))
  {
    var quoted, done := ['"'] + rest, ['"'] + WithoutTrailingCommas(Code, rest);
    if items == [] {
      Cons('"', [], rest);
      assert [] + quoted == quoted && [] + done == done;
    } else {
      StringPassesCommas(items[1..], rest);
      ItemPasses(items[0], ItemsText(items[1..]) + quoted);
      Regroup(ItemText(items[0]), ItemsText(items[1..]), quoted);
      Regroup(ItemText(items[0]), ItemsText(items[1..]), done);
    }
  }

  /** Text without quotes or commas passes through the second scan. */
  lemma {:induction false} PlainPassesCommas(plain: string, rest: string)
    requires forall i :: 0 <= i < |plain| ==> plain[i] != '"' && plain[i] != ','
    ensures WithoutTrailingCommas(Code, plain + rest) == plain + WithoutTrailingCommas(Code, rest)
  {
    if plain == "" {
      assert plain + rest == rest;
    } else {
      PlainPassesCommas(plain[1..], rest);
      assert (plain + rest)[1..] == plain[1..] + rest;
    }
  }

  lemma {:induction false} NewlinesOnly(text: string)
    ensures forall i :: 0 <= i < |OnlyNewlines(text)| ==> OnlyNewlines(text)[i] == '\n'
  {
    if text != "" {
      NewlinesOnly(text[1..]);
    }
  }

  lemma {:induction false} WhitespaceIsSkipped(space: string, rest: string)
    requires forall i :: 0 <= i < |space| ==> IsWhitespace(space[i])
    ensures CloserAhead(space + rest) == CloserAhead(rest)
  {
    if space == "" {
      assert space + rest == rest;
    } else {
      assert (space + rest)[1..] == space[1..] + rest;
      WhitespaceIsSkipped(space[1..], rest);
    }
  }

  /** The scan's lookahead sees in the text what the document's next piece is. */
  lemma {:induction false} LookaheadIsNextPiece(pieces: seq<Piece>)
    requires forall i :: 0 <= i < |pieces| ==> ValidPiece(pieces[i])
    ensures CloserAhead(Uncommented(pieces)) <==> CloserNext(pieces)
  {
    if pieces != [] {
      var piece, rest := pieces[0], Uncommented(pieces[1..]);
      LookaheadIsNextPiece(pieces[1..]);
      var text := PieceUncommented(piece);
      if piece.Space? || piece.Line? || piece.Block? {
        if piece.Block? {
          NewlinesOnly(piece.body);
        }
        WhitespaceIsSkipped(text, rest);
      } else {
        assert text != "" && (text + rest)[0] == text[0];
        assert !IsWhitespace(text[0]);
      }
    }
  }

  lemma CommaPiece(rest: string)
    ensures WithoutTrailingCommas(Code, "," + rest)
         == (if CloserAhead(rest) then "" else ",") + WithoutTrailingCommas(Code, rest)
  {
    assert ("," + rest)[1..] == rest;
  }

  lemma PiecePassesCommas(piece: Piece, rest: string)
    requires ValidPiece(piece)
    requires piece == Tok(Punctuation(',')) ==> !CloserAhead(rest)
    requires piece.TrailingComma? ==> CloserAhead(rest)
    ensures WithoutTrailingCommas(Code, PieceUncommented(piece) + rest)
         == PieceStrict(piece) + WithoutTrailingCommas(Code, rest)
  {
    match piece
    case Tok(Text(items)) => StringPiece(items, rest);
    case TrailingComma => CommaPiece(rest);
    case Tok(Punctuation(c)) =>
      if c == ',' {
        CommaPiece(rest);
      } else {
        PlainPassesCommas([c], rest);
      }
    case Block(body) =>
      NewlinesOnly(body);
      PlainPassesCommas(OnlyNewlines(body), rest);
    case _ =>
      PlainPassesCommas(PieceUncommented(piece), rest);
  }

  lemma {:induction false} TrailingCommasDisappear(pieces: seq<Piece>)
    requires ValidDocument(pieces)
    ensures WithoutTrailingCommas(Code, Uncommented(pieces)) == Strict(pieces)
  {
    if pieces != [] {
      TrailingCommasDisappear(pieces[1..]);
      LookaheadIsNextPiece(pieces[1..]);
      PiecePassesCommas(pieces[0], Uncommented(pieces[1..]));
    }
  }

  // ----- The result -----

  /**
   * Whatever whitespace, comments and trailing commas a document is written with, stripping it yields its
   * strict tokens, with each comment reduced to its newlines and every string literal untouched.
   */
  lemma StripJsoncYieldsStrict(pieces: seq<Piece>)
    requires ValidDocument(pieces)
    ensures StripJsonc(Source(pieces)) == Strict(pieces)
  {
    NothingBehind(Source(pieces));
    NothingBehind(Uncommented(pieces));
    CommentsBecomeNewlines(pieces, "");
    TrailingCommasDisappear(pieces);
  }

  /** The same with a line comment at the very end that no newline closes. */
  lemma StripJsoncYieldsStrictAtEnd(pieces: seq<Piece>, body: string)
    requires ValidDocument(pieces) && '\n' !in body
    ensures StripJsonc(Source(pieces) + "//" + body) == Strict(pieces)
  {
    OpenLineComment(body);
    Regroup(Source(pieces), "//", body);
    CommentsBecomeNewlines(pieces, "//" + body);
    NothingBehind(Uncommented(pieces));
    TrailingCommasDisappear(pieces);
  }

  lemma NothingBehind(text: string)
    ensures text + "" == text
  {
  }

  /** Strict JSON, with no comments and no trailing commas, passes through unchanged. */
  lemma StripIsIdentityOnStrict(pieces: seq<Piece>)
    requires ValidDocument(pieces)
    requires forall i :: 0 <= i < |pieces| ==> pieces[i].Tok? || pieces[i].Space?
    ensures StripJsonc(Source(pieces)) == Source(pieces)
  {
    StripJsoncYieldsStrict(pieces);
    StrictOfStrict(pieces);
  }

  lemma {:induction false} StrictOfStrict(pieces: seq<Piece>)
    requires forall i :: 0 <= i < |pieces| ==> pieces[i].Tok? || pieces[i].Space?
    ensures Strict(pieces) == Source(pieces)
  {
    if pieces != [] {
      StrictOfStrict(pieces[1..]);
    }
  }
}
