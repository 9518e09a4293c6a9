/** The lexer of keepalived configuration lines (pkg/keepalived/parser.go). */
module Lexer {
  import opened Common

  predicate IsSpace(c: char) {
    c == ' ' || c == '\t'
  }

  predicate IsSpecial(c: char) {
    c == '#' || c == '{' || c == '}'
  }

  /** The white space of Unicode, which is skipped at the beginning of a line only. */
  predicate IsUnicodeSpace(c: char) {
    var n := c as int;
    || 9 <= n <= 13 || n in {0x20, 0x85, 0xA0, 0x1680, 0x2028, 0x2029, 0x202F, 0x205F, 0x3000}
    || 0x2000 <= n <= 0x200A
  }

  function SkipLeading(data: string, i: nat): (r: nat)
    requires i <= |data|
    ensures i <= r <= |data|
    decreases |data| - i
  {
    if i < |data| && IsUnicodeSpace(data[i]) then SkipLeading(data, i + 1) else i
  }

  /** The index of the quote that closes a quoted token, if there is one. */
  function CloseQuote(data: string, i: nat, escaped: bool): (r: Option<nat>)
    requires i <= |data|
    ensures r.Some? ==> i <= r.value < |data|
    decreases |data| - i
  {
    if i == |data| then None
    else if data[i] == '"' && !escaped then Some(i)
    else CloseQuote(data, i + 1, data[i] == '\\' && !escaped)
  }

  /** Where a bare token ends. */
  function BareEnd(data: string, i: nat): (r: nat)
    requires i <= |data|
    ensures i <= r <= |data|
    decreases |data| - i
  {
    if i == |data| || IsSpace(data[i]) || IsSpecial(data[i]) then i else BareEnd(data, i + 1)
  }

  function Prepend(token: string, rest: Option<seq<string>>): Option<seq<string>> {
    match rest
    case None => None
    case Some(tokens) => Some([token] + tokens)
  }

  /** The tokens from index `i` on, or `None` when a quote is not closed. The character that ends a
      bare token is dropped, even a special one. */
  function Lex(data: string, i: nat): Option<seq<string>>
    decreases |data| - i
  {
    if i >= |data| then Some([])
    else if IsSpecial(data[i]) then Prepend([data[i]], Lex(data, i + 1))
    else if data[i] == '"' then
      match CloseQuote(data, i + 1, false)
      case None => None
      case Some(j) => Prepend(data[i + 1..j], Lex(data, j + 1))
    else
      var j := BareEnd(data, i);
      if j == i then Lex(data, i + 1) else Prepend(data[i..j], Lex(data, j + 1))
  }

  function Tokens(line: string): Option<seq<string>> {
    Lex(line, SkipLeading(line, 0))
  }

  function PrependAll(tokens: seq<string>, rest: Option<seq<string>>): (r: Option<seq<string>>)
    ensures tokens == [] ==> r == rest
    ensures rest == Some([]) ==> r == Some(tokens)
    ensures rest == None ==> r == None
  {
    match rest
    case None => None
    case Some(more) =>
      assert [] + more == more && tokens + [] == tokens;
      Some(tokens + more)
  }

  lemma PrependLast(tokens: seq<string>, token: string, rest: Option<seq<string>>)
    ensures PrependAll(tokens, Prepend(token, rest)) == PrependAll(tokens + [token], rest)
  {
    if rest.Some? {
      assert tokens + ([token] + rest.value) == (tokens + [token]) + rest.value;
    }
  }

  lemma PrependAllTwice(a: seq<string>, b: seq<string>, rest: Option<seq<string>>)
    ensures PrependAll(a, PrependAll(b, rest)) == PrependAll(a + b, rest)
  {
    if rest.Some? {
      assert a + (b + rest.value) == a + b + rest.value;
    }
  }

  lemma LexGap(data: string, i: nat)
    requires i < |data| && IsSpace(data[i])
    ensures Lex(data, i) == Lex(data, i + 1)
  {
  }

  lemma LexSpecial(data: string, i: nat)
    requires i < |data| && IsSpecial(data[i])
    ensures Lex(data, i) == Prepend([data[i]], Lex(data, i + 1))
  {
  }

  lemma LexEnd(data: string, i: nat)
    ensures i >= |data| ==> Lex(data, i) == Some([])
  {
  }

  lemma LexQuotedTo(data: string, i: nat, j: nat)
    requires i < j < |data| && data[i] == '"' == data[j] && CloseQuote(data, i + 1, false) == CloseQuote(data, j, false)
    ensures Lex(data, i) == Prepend(data[i + 1..j], Lex(data, j + 1))
  {
    assert CloseQuote(data, j, false) == Some(j);
  }

  lemma LexOpen(data: string, i: nat)
    requires i < |data| && data[i] == '"' && CloseQuote(data, i + 1, false) == None
    ensures Lex(data, i) == None
  {
  }

  lemma LexBareTo(data: string, i: nat, j: nat)
    requires i < |data| && !IsSpecial(data[i]) && data[i] != '"' && j == BareEnd(data, i)
    ensures Lex(data, i) == if j == i then Lex(data, i + 1) else Prepend(data[i..j], Lex(data, j + 1))
  {
  }

  method SplitLine(line: string) returns (tokens: Option<seq<string>>)
    ensures tokens == Tokens(line)
  {
    hide Lex, PrependAll, Prepend, IsUnicodeSpace;
    var res: seq<string> := [];
    var data, length := line, |line|;
    var openedQuote := false;
    var curr := 0;
    while curr < length && IsUnicodeSpace(data[curr])
      invariant curr <= length && SkipLeading(data, curr) == SkipLeading(data, 0)
    {
      curr := curr + 1;
    }
    while curr < length
      invariant 0 <= curr <= length + 1
      invariant openedQuote ==> curr == length + 1 && Tokens(line) == None
      invariant !openedQuote ==> Tokens(line) == PrependAll(res, Lex(data, curr))
    {
      var prev := curr;
      var r := data[curr];
      ghost var before, start := res, curr;
      if IsSpecial(r) {
        res := res + [data[prev..curr + 1]];
        assert data[prev..curr + 1] == [r];
        LexSpecial(data, start);
        PrependLast(before, [r], Lex(data, curr + 1));
      } else if r == '"' {
        openedQuote := true;
        curr := curr + 1;
        prev := curr;
        var escaped := false;
        while curr < length
          invariant prev <= curr <= length && openedQuote
          invariant CloseQuote(data, curr, escaped) == CloseQuote(data, prev, false)
        {
          r := data[curr];
          if r == '"' && !escaped {
            openedQuote := false;
            res := res + [data[prev..curr]];
            break;
          }
          escaped := r == '\\' && !escaped;
          curr := curr + 1;
        }
        if length == curr {
          res := res + [data[prev..curr]];
          LexOpen(data, start);
        } else {
          LexQuotedTo(data, start, curr);
          PrependLast(before, data[prev..curr], Lex(data, curr + 1));
        }
      } else {
        while curr < length
          invariant prev <= curr <= length && res == before
          invariant BareEnd(data, curr) == BareEnd(data, prev)
        {
          r := data[curr];
          if IsSpace(r) || IsSpecial(r) {
            if curr - prev != 0 {
              res := res + [data[prev..curr]];
            }
            break;
          }
          curr := curr + 1;
        }
        if length == curr {
          res := res + [data[prev..curr]];
        }
        LexBareTo(data, start, curr);
        PrependLast(before, data[prev..curr], Lex(data, curr + 1));
      }
      curr := curr + 1;
    }
    LexEnd(data, curr);
    if openedQuote {
      return None;
    }
    return Some(res);
  }

  /** What a line is made of. A bare token ends with the character behind it, which is dropped whatever
      it is; at the end of the line there is none. */
  datatype Piece = Gap(space: char) | Special(c: char) | Quoted(raw: string) | Bare(text: string, stop: Option<char>)
  {
    function Print(): (s: string)
      ensures Valid() ==> s != []
    {
      match this
      case Gap(space) => [space]
      case Special(c) => [c]
      case Quoted(raw) => ['"'] + raw + ['"']
      case Bare(text, stop) => if stop.Some? then text + [stop.value] else text
    }

    predicate Valid() {
      match this
      case Gap(space) => IsSpace(space)
      case Special(c) => IsSpecial(c)
      case Quoted(raw) => Scan(raw, false) == Some(false)
      case Bare(text, stop) =>
        && text != [] && text[0] != '"' && (forall c <- text :: !IsSpace(c) && !IsSpecial(c))
        && (stop.Some? ==> IsSpace(stop.value) || IsSpecial(stop.value))
    }

    function Texts(): seq<string> {
      match this
      case Gap(_) => []
      case Special(c) => [[c]]
      case Quoted(raw) => [raw]
      case Bare(text, _) => [text]
    }
  }

  /** Reads the inside of a quoted token: `None` when an unescaped quote is met, otherwise whether the
      next character is escaped. */
  function Scan(raw: string, escaped: bool): Option<bool> {
    if raw == [] then Some(escaped)
    else if raw[0] == '"' && !escaped then None
    else Scan(raw[1..], raw[0] == '\\' && !escaped)
  }

  function Print(pieces: seq<Piece>): string {
    if pieces == [] then [] else pieces[0].Print() + Print(pieces[1..])
  }

  function Texts(pieces: seq<Piece>): seq<string> {
    if pieces == [] then [] else pieces[0].Texts() + Texts(pieces[1..])
  }

  /** Only the last piece may be a bare token without a stop, and only at the end of the line. */
  predicate Valid(pieces: seq<Piece>, atEnd: bool) {
    forall k :: 0 <= k < |pieces| ==> pieces[k].Valid() && (pieces[k].Bare? && pieces[k].stop.None? ==> atEnd && k == |pieces| - 1)
  }

  /** An opening quote that nothing closes. */
  predicate OpenQuote(tail: string) {
    tail != [] && tail[0] == '"' && Scan(tail[1..], false).Some?
  }

  lemma {:induction false} ScanPasses(data: string, i: nat, raw: string, tail: string, escaped: bool)
    requires i <= |data| && data[i..] == raw + tail && Scan(raw, escaped).Some?
    ensures i + |raw| <= |data| && CloseQuote(data, i, escaped) == CloseQuote(data, i + |raw|, Scan(raw, escaped).value)
    decreases |raw|
  {
    if raw != [] {
      assert data[i] == data[i..][0] == raw[0];
      assert data[i + 1..] == data[i..][1..] == raw[1..] + tail;
      ScanPasses(data, i + 1, raw[1..], tail, raw[0] == '\\' && !escaped);
    }
  }

  lemma {:induction false} BareEndsAt(data: string, i: nat, text: string, tail: string)
    requires i <= |data| && data[i..] == text + tail
    requires forall c <- text :: !IsSpace(c) && !IsSpecial(c)
    requires tail != [] ==> IsSpace(tail[0]) || IsSpecial(tail[0])
    ensures BareEnd(data, i) == i + |text|
    decreases |text|
  {
    if text != [] {
      assert data[i] == data[i..][0] == text[0] && text[0] in text;
      assert data[i + 1..] == data[i..][1..] == text[1..] + tail;
      BareEndsAt(data, i + 1, text[1..], tail);
    } else if tail != [] {
      assert data[i] == data[i..][0];
    }
  }

  /** Lexing passes over one printed piece and adds its tokens. */
  lemma LexPiece(data: string, i: nat, piece: Piece, tail: string)
    requires i <= |data| && piece.Valid() && data[i..] == piece.Print() + tail
    requires piece.Bare? && piece.stop.None? ==> tail == []
    ensures var j := i + |piece.Print()|;
            j <= |data| && data[j..] == tail && Lex(data, i) == PrependAll(piece.Texts(), Lex(data, j))
  {
    hide Lex;
    After(data, i, piece.Print(), tail);
    match piece
    case Gap(space) => LexGap(data, i);
    case Special(_) => LexSpecial(data, i);
    case Quoted(raw) => LexQuoted(data, i, raw, tail);
    case Bare(text, stop) =>
      var after := if stop.Some? then [stop.value] + tail else tail;
      assert data[i..] == text + after;
      LexBare(data, i, text, after);
      assert stop.None? ==> Lex(data, i + |text| + 1) == Lex(data, i + |text|) by {
        LexEnd(data, i + |text|);
        LexEnd(data, i + |text| + 1);
      }
  }

  /** What follows a known beginning. */
  lemma After(data: string, i: nat, front: string, tail: string)
    requires i <= |data| && data[i..] == front + tail
    ensures i + |front| <= |data| && data[i + |front|..] == tail && data[i..i + |front|] == front
    ensures front != [] ==> data[i] == front[0]
  {
    assert data[i + |front|..] == data[i..][|front|..];
    assert data[i..i + |front|] == data[i..][..|front|];
    if front != [] {
      assert data[i] == data[i..][0];
    }
  }

  lemma LexQuoted(data: string, i: nat, raw: string, tail: string)
    requires i <= |data| && Scan(raw, false) == Some(false) && data[i..] == ['"'] + raw + ['"'] + tail
    ensures Lex(data, i) == Prepend(raw, Lex(data, i + |raw| + 2))
  {
    hide Lex;
    assert data[i..] == ['"'] + (raw + (['"'] + tail));
    After(data, i, ['"'], raw + (['"'] + tail));
    After(data, i + 1, raw, ['"'] + tail);
    After(data, i + 1 + |raw|, ['"'], tail);
    ScanPasses(data, i + 1, raw, ['"'] + tail, false);
    LexQuotedTo(data, i, i + 1 + |raw|);
  }

  lemma LexBare(data: string, i: nat, text: string, after: string)
    requires i <= |data| && data[i..] == text + after && Bare(text, None).Valid()
    requires after != [] ==> IsSpace(after[0]) || IsSpecial(after[0])
    ensures Lex(data, i) == Prepend(text, Lex(data, i + |text| + 1))
  {
    After(data, i, text, after);
    BareEndsAt(data, i, text, after);
    assert text[0] in text;
  }

  lemma {:induction false} LexPieces(data: string, i: nat, pieces: seq<Piece>, tail: string)
    requires i <= |data| && Valid(pieces, tail == []) && data[i..] == Print(pieces) + tail
    ensures var j := i + |Print(pieces)|;
            j <= |data| && data[j..] == tail && Lex(data, i) == PrependAll(Texts(pieces), Lex(data, j))
    decreases |pieces|
  {
    hide Lex;
    if pieces == [] {
      assert data[i..] == tail;
    } else {
      var rest := Print(pieces[1..]) + tail;
      assert data[i..] == pieces[0].Print() + rest;
      LexPiece(data, i, pieces[0], rest);
      LexPieces(data, i + |pieces[0].Print()|, pieces[1..], tail);
      PrependAllTwice(pieces[0].Texts(), Texts(pieces[1..]), Lex(data, i + |Print(pieces)|));
    }
  }

  lemma OpenQuoteFails(data: string, i: nat)
    requires i <= |data| && OpenQuote(data[i..])
    ensures Lex(data, i) == None
  {
    assert data[i] == data[i..][0] && data[i + 1..] == data[i..][1..];
    assert data[i + 1..] == data[i + 1..] + [];
    ScanPasses(data, i + 1, data[i + 1..], [], false);
  }

  /** The pieces of a text, and what is left when a quote is not closed. */
  function Pieces(data: string, i: nat): (seq<Piece>, string)
    requires i <= |data|
    decreases |data| - i
  {
    if i == |data| then ([], [])
    else if data[i] == '"' && CloseQuote(data, i + 1, false).None? then ([], data[i..])
    else
      FirstIs(data, i);
      var piece := First(data, i);
      var more := Pieces(data, i + |piece.Print()|);
      ([piece] + more.0, more.1)
  }

  /** Printing the pieces gives the text back, and what is left is nothing or an open quote. */
  lemma {:induction false} PiecesPrint(data: string, i: nat)
    requires i <= |data|
    ensures var (pieces, tail) := Pieces(data, i);
            Valid(pieces, tail == []) && Print(pieces) + tail == data[i..] && (tail == [] || OpenQuote(tail))
    decreases |data| - i
  {
    hide CloseQuote, First, Valid, Print;
    if i == |data| {
      AddNothing();
    } else if data[i] == '"' && CloseQuote(data, i + 1, false).None? {
      AddNothing();
      Unclosed(data, i + 1, false);
      assert data[i..][1..] == data[i + 1..];
    } else {
      FirstIs(data, i);
      var piece := First(data, i);
      var j := i + |piece.Print()|;
      PiecesPrint(data, j);
      var (pieces, tail) := Pieces(data, j);
      AddPiece(piece, pieces, tail);
    }
  }

  lemma AddNothing()
    ensures Valid([], true) && Valid([], false) && Print([]) == []
  {
  }

  lemma AddPiece(piece: Piece, pieces: seq<Piece>, tail: string)
    requires piece.Valid() && Valid(pieces, tail == [])
    requires piece.Bare? && piece.stop.None? ==> Print(pieces) + tail == []
    ensures Valid([piece] + pieces, tail == [])
    ensures Print([piece] + pieces) + tail == piece.Print() + (Print(pieces) + tail)
  {
    hide Scan;
    var all := [piece] + pieces;
    forall k | 0 <= k < |all|
      ensures all[k].Valid() && (all[k].Bare? && all[k].stop.None? ==> tail == [] && k == |all| - 1)
    {
      if k == 0 {
        assert pieces != [] ==> pieces[0].Valid() && pieces[0].Print() != [];
      } else {
        assert all[k] == pieces[k - 1];
      }
    }
  }

  function First(data: string, i: nat): Piece
    requires i < |data| && (data[i] == '"' ==> CloseQuote(data, i + 1, false).Some?)
  {
    if IsSpecial(data[i]) then Special(data[i])
    else if data[i] == '"' then Quoted(data[i + 1..CloseQuote(data, i + 1, false).value])
    else if IsSpace(data[i]) then Gap(data[i])
    else
      var j := BareEnd(data, i);
      Bare(data[i..j], if j < |data| then Some(data[j]) else None)
  }

  lemma FirstIs(data: string, i: nat)
    requires i < |data| && (data[i] == '"' ==> CloseQuote(data, i + 1, false).Some?)
    ensures var piece := First(data, i);
            && piece.Valid() && i + |piece.Print()| <= |data| && piece.Print() + data[i + |piece.Print()|..] == data[i..]
            && (piece.Bare? && piece.stop.None? ==> i + |piece.Print()| == |data|)
  {
    if data[i] == '"' {
      Closed(data, i + 1, false);
    } else {
      BareText(data, i);
    }
  }

  lemma {:induction false} Closed(data: string, i: nat, escaped: bool)
    requires i <= |data| && CloseQuote(data, i, escaped).Some?
    ensures var j := CloseQuote(data, i, escaped).value;
            Scan(data[i..j], escaped) == Some(false) && data[j] == '"'
    decreases |data| - i
  {
    var j := CloseQuote(data, i, escaped).value;
    if j != i {
      Closed(data, i + 1, data[i] == '\\' && !escaped);
      assert data[i..j][1..] == data[i + 1..j];
    }
  }

  lemma {:induction false} Unclosed(data: string, i: nat, escaped: bool)
    requires i <= |data| && CloseQuote(data, i, escaped).None?
    ensures Scan(data[i..], escaped).Some?
    decreases |data| - i
  {
    if i < |data| {
      Unclosed(data, i + 1, data[i] == '\\' && !escaped);
      assert data[i..][1..] == data[i + 1..];
    }
  }

  lemma {:induction false} BareText(data: string, i: nat)
    requires i <= |data|
    ensures var j := BareEnd(data, i);
            && (forall c <- data[i..j] :: !IsSpace(c) && !IsSpecial(c))
            && (j < |data| ==> IsSpace(data[j]) || IsSpecial(data[j]))
    decreases |data| - i
  {
    var j := BareEnd(data, i);
    if j != i {
      BareText(data, i + 1);
      assert data[i..j] == [data[i]] + data[i + 1..j];
    }
  }

  /** A line is read by its pieces, whatever white space leads it: their tokens come back unchanged, and an
      open quote is always rejected. */
  lemma LexingUndoesPrinting(line: string, lead: string, pieces: seq<Piece>, tail: string)
    requires line == lead + (Print(pieces) + tail)
    requires forall c <- lead :: IsUnicodeSpace(c)
    requires Print(pieces) + tail != [] ==> !IsUnicodeSpace((Print(pieces) + tail)[0])
    requires Valid(pieces, tail == []) && (tail == [] || OpenQuote(tail))
    ensures Tokens(line) == if tail == [] then Some(Texts(pieces)) else None
  {
    hide Lex, Print, Texts, Valid, OpenQuote, IsUnicodeSpace, SkipLeading, PrependAll;
    var i := |lead|;
    assert forall k :: 0 <= k < i ==> line[k] == lead[k] && lead[k] in lead;
    assert line[i..] == Print(pieces) + tail;
    assert i < |line| ==> line[i] == (Print(pieces) + tail)[0];
    SkipsTo(line, 0, i);
    LexPieces(line, i, pieces, tail);
    if tail == [] {
      LexEnd(line, i + |Print(pieces)|);
    } else {
      OpenQuoteFails(line, i + |Print(pieces)|);
    }
  }

  lemma {:induction false} SkipsTo(line: string, i: nat, end: nat)
    requires i <= end <= |line| && forall k :: i <= k < end ==> IsUnicodeSpace(line[k])
    requires end < |line| ==> !IsUnicodeSpace(line[end])
    ensures SkipLeading(line, i) == end
    decreases end - i
  {
    if i < end {
      SkipsTo(line, i + 1, end);
    }
  }

  /** Every line is such a line, so these are all the lines there are: exactly those are rejected that
      end in an open quote. */
  lemma EveryLineIsPrinted(line: string)
    ensures var i := SkipLeading(line, 0);
            var (pieces, tail) := Pieces(line, i);
            && line == line[..i] + (Print(pieces) + tail) && Valid(pieces, tail == [])
            && Tokens(line) == (if tail == [] then Some(Texts(pieces)) else None)
            && (Tokens(line) == None <==> OpenQuote(tail))
  {
    hide Pieces, Lex, Print, Texts;
    var i := SkipLeading(line, 0);
    var (pieces, tail) := Pieces(line, i);
    PiecesPrint(line, i);
    SkipsSpaces(line, 0);
    LexingUndoesPrinting(line, line[..i], pieces, tail);
  }

  lemma {:induction false} SkipsSpaces(line: string, i: nat)
    requires i <= |line|
    ensures var end := SkipLeading(line, i);
            (forall k :: i <= k < end ==> IsUnicodeSpace(line[k])) && (end < |line| ==> !IsUnicodeSpace(line[end]))
    decreases |line| - i
  {
    if i < |line| && IsUnicodeSpace(line[i]) {
      SkipsSpaces(line, i + 1);
    }
  }

  /** A token as a user writes it. */
  predicate IsToken(piece: Piece) {
    piece.Valid() && !piece.Gap? && (piece.Bare? ==> piece.stop.None?)
  }

  /** Tokens written one behind the other with a space in between. */
  function Join(tokens: seq<Piece>): string {
    if |tokens| == 0 then []
    else if |tokens| == 1 then tokens[0].Print()
    else tokens[0].Print() + [' '] + Join(tokens[1..])
  }

  function Spaced(tokens: seq<Piece>): seq<Piece> {
    if |tokens| <= 1 then tokens
    else if tokens[0].Bare? then [tokens[0].(stop := Some(' '))] + Spaced(tokens[1..])
    else [tokens[0], Gap(' ')] + Spaced(tokens[1..])
  }

  lemma {:induction false} SpacedIsJoined(tokens: seq<Piece>)
    requires forall t <- tokens :: IsToken(t)
    ensures Print(Spaced(tokens)) == Join(tokens) && Texts(Spaced(tokens)) == Texts(tokens) && Valid(Spaced(tokens), true)
  {
    if |tokens| == 1 {
      assert tokens[0] in tokens && tokens[1..] == [];
    }
    if |tokens| > 1 {
      assert tokens[0] in tokens;
      var more := Spaced(tokens[1..]);
      SpacedIsJoined(tokens[1..]);
      if tokens[0].Bare? {
        AddPiece(tokens[0].(stop := Some(' ')), more, []);
      } else {
        AddPiece(Gap(' '), more, []);
        AddPiece(tokens[0], [Gap(' ')] + more, []);
        assert [tokens[0], Gap(' ')] + more == [tokens[0]] + ([Gap(' ')] + more);
      }
    }
  }

  /** Tokens written with a space in between are read back unchanged. */
  lemma JoinedTokensComeBack(tokens: seq<Piece>)
    requires forall t <- tokens :: IsToken(t)
    requires tokens != [] ==> IsToken(tokens[0]) && !IsUnicodeSpace(tokens[0].Print()[0])
    ensures Tokens(Join(tokens)) == Some(Texts(tokens))
  {
    hide IsUnicodeSpace;
    SpacedIsJoined(tokens);
    assert Join(tokens) == [] + (Print(Spaced(tokens)) + []);
    LexingUndoesPrinting(Join(tokens), [], Spaced(tokens), []);
  }
}
