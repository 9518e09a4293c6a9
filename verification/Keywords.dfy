/** The characters and words of the configuration language, by name (pkg/keepalived/parser.go). */
module Keywords {
  import opened Common
  import opened Lexer
  import opened ParserSpec

  /** A token that is neither quoted nor split. */
  predicate Word(w: string) {
    w != [] && '!' <= w[0] <= '~' && w[0] != '"' && forall c <- w :: c !in " \t#{}"
  }

  /** A piece that something may follow. */
  predicate Ended(p: Piece) {
    p.Valid() && !(p.Bare? && p.stop.None?)
  }

  lemma PrintOne(p: Piece)
    ensures Print([p]) == p.Print() && Texts([p]) == p.Texts()
  {
    assert [p][1..] == [];
    assert p.Print() + [] == p.Print() && p.Texts() + [] == p.Texts();
  }

  lemma PrintTwo(p: Piece, q: Piece)
    ensures Print([p, q]) == p.Print() + q.Print() && Texts([p, q]) == p.Texts() + q.Texts()
  {
    PrintOne(q);
    assert [p, q][1..] == [q];
  }

  /** A line of one or two pieces. */
  lemma TwoPieces(line: string, p: Piece, q: Piece)
    requires p.Valid() && q.Valid() && !IsUnicodeSpace(p.Print()[0])
    ensures line == p.Print() ==> Tokens(line) == Some(p.Texts())
    ensures Ended(p) && line == p.Print() + q.Print() ==> Tokens(line) == Some(p.Texts() + q.Texts())
  {
    PrintOne(p);
    PrintTwo(p, q);
    hide Print, Texts, Tokens, IsUnicodeSpace, Scan;
    if line == p.Print() {
      assert line == [] + (Print([p]) + []);
      LexingUndoesPrinting(line, [], [p], []);
    }
    if Ended(p) && line == p.Print() + q.Print() {
      assert line == [] + (Print([p, q]) + []);
      LexingUndoesPrinting(line, [], [p, q], []);
    }
  }

  /** Blanks, tabs, hash signs and braces end a word, and are dropped there. */
  lemma WordsAreSplit(a: string, c: char, b: string)
    requires Word(a) && Word(b) && c in " \t#{}"
    ensures Tokens(a + [c] + b) == Some([a, b])
  {
    assert [a] + [b] == [a, b];
    TwoPieces(a + [c] + b, Bare(a, Some(c)), Bare(b, None));
  }

  lemma OneWord(w: string)
    requires Word(w)
    ensures Tokens(w) == Some([w])
  {
    TwoPieces(w, Bare(w, None), Bare(w, None));
  }

  /** At the beginning of a token, hash signs and braces are tokens of their own. */
  lemma SpecialsStandAlone(c: char, w: string)
    requires c in "#{}" && Word(w)
    ensures Tokens([c] + w) == Some([[c], w]) && Tokens([c]) == Some([[c]])
  {
    assert [[c]] + [w] == [[c], w];
    TwoPieces([c] + w, Special(c), Bare(w, None));
    TwoPieces([c], Special(c), Bare(w, None));
  }

  /** Between quotes, everything but quotes and backslashes stands for itself. */
  lemma QuotesKeepEverything(raw: string)
    requires '"' !in raw && '\\' !in raw
    ensures Tokens(['"'] + raw + ['"']) == Some([raw])
  {
    PlainScan(raw);
    TwoPieces(['"'] + raw + ['"'], Quoted(raw), Quoted(raw));
  }

  lemma {:induction false} PlainScan(raw: string)
    requires '"' !in raw && '\\' !in raw
    ensures Scan(raw, false) == Some(false)
  {
    if raw != [] {
      PlainScan(raw[1..]);
    }
  }

  /** The backslashes directly in front of a place, back to another place at most. */
  function Backslashes(data: string, i: nat, k: nat): nat
    requires i <= k <= |data|
    decreases k
  {
    if k > i && data[k - 1] == '\\' then 1 + Backslashes(data, i, k - 1) else 0
  }

  /** A quote behind an even number of backslashes. */
  predicate Closes(data: string, i: nat, k: nat)
    requires i <= k < |data|
  {
    data[k] == '"' && Backslashes(data, i, k) % 2 == 0
  }

  /** A quoted token ends at the first quote that an even number of backslashes stands in front of. */
  lemma QuoteClosesAt(data: string, i: nat)
    requires i <= |data|
    ensures match CloseQuote(data, i, false)
            case Some(j) => Closes(data, i, j) && forall k :: i <= k < j ==> !Closes(data, i, k)
            case None => forall k :: i <= k < |data| ==> !Closes(data, i, k)
  {
    ClosesFrom(data, i, i);
  }

  lemma {:induction false} ClosesFrom(data: string, i: nat, k: nat)
    requires i <= k <= |data|
    ensures match CloseQuote(data, k, Backslashes(data, i, k) % 2 == 1)
            case Some(j) => Closes(data, i, j) && forall l :: k <= l < j ==> !Closes(data, i, l)
            case None => forall l :: k <= l < |data| ==> !Closes(data, i, l)
    decreases |data| - k
  {
    if k < |data| && !Closes(data, i, k) {
      ClosesFrom(data, i, k + 1);
    }
  }

  /** White space in front of a line does not count: tabs, line ends and no-break spaces included. */
  lemma LeadingSpaceIsSkipped(c: char, line: string)
    requires c as int in {9, 10, 11, 12, 13, 0x20, 0x85, 0xA0}
    ensures Tokens([c] + line) == Tokens(line)
  {
    hide Pieces, Print, Texts, Tokens, Lexer.Valid, OpenQuote;
    var i := SkipLeading(line, 0);
    var (pieces, tail) := Pieces(line, i);
    PiecesPrint(line, i);
    EveryLineIsPrinted(line);
    SkipsSpaces(line, 0);
    var lead := [c] + line[..i];
    assert [c] + line == lead + (Print(pieces) + tail);
    assert i < |line| ==> (Print(pieces) + tail)[0] == line[i];
    LexingUndoesPrinting([c] + line, lead, pieces, tail);
  }

  /** A comment starts with a hash sign or an exclamation mark; it adds nothing, unless a quote in it stays open. */
  lemma CommentsAddNothing(line: string, lines: seq<string>, files: Files)
    requires Tokens(line).Some? && Tokens(line).value != []
    requires Tokens(line).value[0] != [] && Tokens(line).value[0][0] in "#!"
    ensures ParseConfig([line] + lines, files) == ParseConfig(lines, files)
  {
    hide Tokens;
    assert ([line] + lines)[1..] == lines;
  }

  /** An include stands for the items of the files it names. */
  lemma IncludesAreRead(pattern: string, lines: seq<string>, files: Files)
    requires Word(pattern) && files(pattern).Some?
    ensures ParseConfig(["include " + pattern] + lines, files) == Append(files(pattern).value, 0, ParseConfig(lines, files))
  {
    var line := "include " + pattern;
    WordsAreSplit("include", ' ', pattern);
    assert line == "include" + [' '] + pattern;
    hide Tokens, Append;
    assert Classify(line) == Include(pattern);
    assert ([line] + lines)[1..] == lines;
  }

  /** A line that is one name is a parameter; one that ends in an opening brace, set off by a blank, opens a
      block. Names consist of letters, digits, underscores and hyphens. */
  lemma NamesAreItems(name: string)
    requires name != [] && name !in {"include"}
    requires forall c <- name :: 'a' <= c <= 'z' || 'A' <= c <= 'Z' || '0' <= c <= '9' || c in "_-"
    ensures Classify(name) == Setting(name, []) && Classify(name + " {") == Open(name, [])
  {
    assert name[0] in name;
    OneWord(name);
    TwoPieces(name + " {", Bare(name, Some(' ')), Special('{'));
    hide Tokens;
    assert [name] + ["{"] == [name, "{"];
    NotSpecial(name);
    assert [name, "{"][1..] == ["{"] && [name][1..] == [] && ["{"][..0] == [];
    NameKinds(name);
  }

  lemma NotSpecial(w: string)
    ensures '}' !in w ==> w != "}"
  {
    assert '}' in "}";
  }

  lemma NameKinds(name: string)
    requires name != [] && name !in {"include", "}"} && forall c <- name :: IsNameChar(c)
    ensures KindOf([name]) == Setting(name, []) && KindOf([name, "{"]) == Open(name, [])
  {
    assert name[0] in name;
    assert [name, "{"][1..] == ["{"] && [name][1..] == [] && ["{"][..0] == [];
  }

  /** A word with any other character is malformed, unless it is a comment. */
  lemma OtherNamesAreMalformed(w: string, c: char)
    requires Word(w) && w[0] != '!' && c in w
    requires !('a' <= c <= 'z' || 'A' <= c <= 'Z' || '0' <= c <= '9' || c in "_-")
    ensures Classify(w) == Malformed
  {
    OneWord(w);
    hide Tokens;
    assert w[0] in w;
    assert w != "include" by {
      assert forall d <- "include" :: 'a' <= d <= 'z';
    }
    assert w != "}" by {
      assert '}' in "}";
    }
  }

  /** An include names one pattern. */
  lemma IncludeTakesOne(a: string, b: string)
    requires Word(a) && Word(b)
    ensures Classify("include") == Malformed && Classify("include " + a + " " + b) == Malformed
  {
    OneWord("include");
    ThreeWords("include", a, b);
    assert "include " == "include" + " ";
    hide Tokens;
  }

  lemma ThreeWords(a: string, b: string, c: string)
    requires Word(a) && Word(b) && Word(c)
    ensures Tokens(a + " " + b + " " + c) == Some([a, b, c])
  {
    var pieces := [Bare(a, None), Bare(b, None), Bare(c, None)];
    var more := [Bare(b, None), Bare(c, None)];
    assert pieces[1..] == more && more[1..] == [Bare(c, None)];
    assert Join([Bare(c, None)]) == c;
    assert Join(more) == b + [' '] + c;
    assert Join(pieces) == a + [' '] + (b + [' '] + c) == a + " " + b + " " + c;
    assert Texts([Bare(c, None)]) == [c] + Texts([]) == [c];
    assert Texts(more) == [b] + [c] == [b, c];
    assert Texts(pieces) == [a] + [b, c] == [a, b, c];
    hide Join, Texts, Tokens, IsUnicodeSpace;
    assert !IsUnicodeSpace(Bare(a, None).Print()[0]) by {
      NotSpace(a[0]);
    }
    JoinedTokensComeBack(pieces);
  }

  lemma NotSpace(c: char)
    requires '!' <= c <= '~'
    ensures !IsUnicodeSpace(c)
  {
  }

  lemma ClosingBraceCloses()
    ensures Classify("}") == Close && Classify("") == Skipped
  {
    TwoPieces("}", Special('}'), Special('}'));
    assert Tokens("") == Some([]);
  }

  /** What any line means, told from its first token, its last one and how many there are. */
  lemma KindByTheTokens(line: string)
    ensures var tokens, kind := Tokens(line), Classify(line);
            && (tokens == None ==> kind.Malformed?)
            && (tokens.Some? ==>
                  var t, n := tokens.value, |tokens.value|;
                  if n == 0 || (t[0] != "" && t[0][0] in "#!") then kind.Skipped?
                  else if t[0] == "}" then kind.Close?
                  else if t[0] == "include" then kind == if n == 2 then Include(t[1]) else Malformed
                  else if t[0] == "" || exists c :: c in t[0] && !('a' <= c <= 'z' || 'A' <= c <= 'Z' || '0' <= c <= '9' || c in "_-")
                  then kind.Malformed?
                  else if n > 1 && t[n - 1] == "{" then kind == Open(t[0], t[1..n - 1])
                  else kind == Setting(t[0], t[1..]))
  {
    hide Tokens;
    if Tokens(line).Some? && Tokens(line).value != [] {
      var t := Tokens(line).value;
      assert |t| > 1 ==> t[1..][..|t| - 2] == t[1..|t| - 1] && t[1..][|t| - 2] == t[|t| - 1];
      if '{' in t[0] {
        assert !IsNameChar('{');
      }
    }
  }
}
