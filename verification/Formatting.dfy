/** Writing a configuration tree as lines that parse back to it: no tree the parser returns is lost
    (pkg/keepalived/parser.go). */
module Formatting {
  import opened Common
  import opened Lexer
  import opened ParserSpec

  /** Whether a string can be a token: it can be written bare or between quotes. */
  predicate IsValue(s: string) {
    Bare(s, None).Valid() || Quoted(s).Valid()
  }

  function Written(s: string): Piece {
    if Bare(s, None).Valid() then Bare(s, None) else Quoted(s)
  }

  function WrittenAll(values: seq<string>): seq<Piece> {
    if values == [] then [] else [Written(values[0])] + WrittenAll(values[1..])
  }

  function Line(name: string, values: seq<string>, end: seq<Piece>): string {
    Join([Bare(name, None)] + WrittenAll(values) + end)
  }

  const BRACE: seq<Piece> := [Special('{')]
  const CLOSE := "}"

  /** Trees that can be written: no name is the keyword, and no plain parameter ends like a block. */
  predicate Writable(item: Item) {
    && IsName(item.name) && item.name != "include" && (forall v <- item.values :: IsValue(v))
    && match item
       case Leaf(_, values) => values == [] || values[|values| - 1] != "{"
       case Block(_, _, sub) => AllWritable(sub)
  }

  predicate AllWritable(items: seq<Item>) {
    items == [] || (Writable(items[0]) && AllWritable(items[1..]))
  }

  function Write(items: seq<Item>): seq<string> {
    if items == [] then [] else WriteItem(items[0]) + Write(items[1..])
  }

  function WriteItem(item: Item): seq<string> {
    match item
    case Leaf(name, values) => [Line(name, values, [])]
    case Block(name, values, sub) => [Line(name, values, BRACE)] + Write(sub) + [CLOSE]
  }

  lemma {:induction false} WrittenTexts(values: seq<string>)
    requires forall v <- values :: IsValue(v)
    ensures forall p <- WrittenAll(values) :: IsToken(p)
    ensures forall end :: Texts(WrittenAll(values) + end) == values + Texts(end)
  {
    hide Scan;
    if values != [] {
      var first, more := Written(values[0]), WrittenAll(values[1..]);
      assert values[0] in values;
      WrittenTexts(values[1..]);
      forall end
        ensures Texts(WrittenAll(values) + end) == values + Texts(end)
      {
        var all := WrittenAll(values) + end;
        assert all == [first] + (more + end) && all[1..] == more + end;
        assert Texts(all) == [values[0]] + (values[1..] + Texts(end));
      }
    } else {
      forall end
        ensures Texts(WrittenAll(values) + end) == values + Texts(end)
      {
        assert WrittenAll(values) + end == end;
      }
    }
  }

  /** A written line is lexed into its name and values. */
  lemma LineTokens(name: string, values: seq<string>, end: seq<Piece>)
    requires IsName(name) && (forall v <- values :: IsValue(v)) && end in {[], BRACE}
    ensures Tokens(Line(name, values, end)) == Some([name] + values + if end == [] then [] else ["{"])
  {
    var pieces := [Bare(name, None)] + WrittenAll(values) + end;
    NameIsBare(name);
    WrittenTexts(values);
    hide IsName, IsValue, Written, WrittenAll, IsUnicodeSpace;
    assert [name] + (values + Texts(end)) == [name] + values + Texts(end);
    assert pieces == [Bare(name, None)] + (WrittenAll(values) + end) && pieces[1..] == WrittenAll(values) + end;
    assert BRACE[1..] == [];
    assert Texts(end) == if end == [] then [] else ["{"];
    JoinedTokensComeBack(pieces);
  }

  lemma NameIsBare(name: string)
    requires IsName(name)
    ensures IsToken(Bare(name, None)) && !IsUnicodeSpace(Bare(name, None).Print()[0])
    ensures name[0] !in "#!" && '{' !in name && name != "}"
  {
    assert forall c <- name :: IsNameChar(c);
    assert name[0] in name;
    assert IsNameChar(name[0]);
  }

  lemma LineKind(item: Item)
    requires Writable(item)
    ensures item.Leaf? ==> Classify(Line(item.name, item.values, [])) == Setting(item.name, item.values)
    ensures item.Block? ==> Classify(Line(item.name, item.values, BRACE)) == Open(item.name, item.values)
  {
    var name, values := item.name, item.values;
    NameIsBare(name);
    LineTokens(name, values, if item.Leaf? then [] else BRACE);
    hide Tokens, Line, IsName, IsValue, AllWritable;
    var tokens := [name] + values + if item.Leaf? then [] else ["{"];
    assert tokens[0] == name && tokens[1..] == values + if item.Leaf? then [] else ["{"];
    assert item.Block? ==> (values + ["{"])[..|values|] == values;
  }

  lemma CloseKind()
    ensures Classify(CLOSE) == Close
  {
    JoinedTokensComeBack([Special('}')]);
  }

  /** Written items in front of other lines are parsed as these items in front of what the lines mean. */
  lemma {:induction false} ParseWritten(items: seq<Item>, tail: seq<string>, files: Files)
    requires AllWritable(items)
    ensures ParseConfig(Write(items) + tail, files) == Append(items, 0, ParseConfig(tail, files))
    decreases items
  {
    hide ParseConfig, Classify, Line, Append, Write, IsName, IsValue;
    if items == [] {
      NoItems(tail);
      AppendNothing(ParseConfig(tail, files));
      return;
    }
    var behind := Write(items[1..]) + tail;
    ParseWritten(items[1..], tail, files);
    assert [items[0]] + items[1..] == items;
    AppendTwice([items[0]], 0, items[1..], 0, ParseConfig(tail, files));
    LineKind(items[0]);
    match items[0]
    case Leaf(name, values) =>
      LeafLines(items, tail);
      ParseLeaf(Line(name, values, []), behind, files);
    case Block(name, values, sub) =>
      BlockLines(items, tail);
      var inner := [CLOSE] + behind;
      ParseWritten(sub, inner, files);
      ParseClose(behind, files);
      ParseBlock(Line(name, values, BRACE), Write(sub) + inner, behind, sub, files);
  }

  lemma NoItems(tail: seq<string>)
    ensures Write([]) + tail == tail
  {
  }

  lemma LeafLines(items: seq<Item>, tail: seq<string>)
    requires items != [] && items[0].Leaf?
    ensures Write(items) + tail == [Line(items[0].name, items[0].values, [])] + (Write(items[1..]) + tail)
  {
    hide Line;
  }

  lemma BlockLines(items: seq<Item>, tail: seq<string>)
    requires items != [] && items[0].Block?
    ensures Write(items) + tail
         == [Line(items[0].name, items[0].values, BRACE)] + (Write(items[0].subItems) + ([CLOSE] + (Write(items[1..]) + tail)))
  {
    var opening, sub, rest := [Line(items[0].name, items[0].values, BRACE)], Write(items[0].subItems), Write(items[1..]);
    assert Write(items) == opening + sub + [CLOSE] + rest by {
      hide Line;
    }
    hide *;
    Regroup(opening, sub, [CLOSE], rest, tail);
  }

  lemma Regroup(a: seq<string>, b: seq<string>, c: seq<string>, d: seq<string>, e: seq<string>)
    ensures a + b + c + d + e == a + (b + (c + (d + e)))
  {
  }

  lemma ParseLeaf(line: string, behind: seq<string>, files: Files)
    requires Classify(line).Setting?
    ensures var kind := Classify(line);
            ParseConfig([line] + behind, files) == Append([Leaf(kind.name, kind.values)], 0, ParseConfig(behind, files))
  {
    assert ([line] + behind)[1..] == behind;
  }

  lemma ParseClose(behind: seq<string>, files: Files)
    ensures ParseConfig([CLOSE] + behind, files) == Parsed([], behind, -1)
  {
    hide Classify;
    CloseKind();
    assert ([CLOSE] + behind)[1..] == behind;
  }

  lemma ParseBlock(line: string, lines: seq<string>, behind: seq<string>, sub: seq<Item>, files: Files)
    requires Classify(line).Open? && ParseConfig(lines, files) == Append(sub, 0, Parsed([], behind, -1))
    ensures var kind := Classify(line);
            ParseConfig([line] + lines, files) == Append([Block(kind.name, kind.values, sub)], 0, ParseConfig(behind, files))
  {
    assert ([line] + lines)[1..] == lines;
    assert sub + [] == sub;
  }

  /** Parsing undoes writing. */
  lemma ParsingUndoesWriting(items: seq<Item>, files: Files)
    requires AllWritable(items)
    ensures ParseFile(Write(items), files) == Some(items)
  {
    ParseWritten(items, [], files);
    assert Write(items) + [] == Write(items) && items + [] == items;
  }

  /** Every token of a line can be written again. */
  lemma {:induction false} TextsAreValues(pieces: seq<Piece>)
    requires forall p <- pieces :: p.Valid()
    ensures forall t <- Texts(pieces) :: IsValue(t)
  {
    if pieces != [] {
      assert pieces[0] in pieces;
      TextsAreValues(pieces[1..]);
      match pieces[0]
      case Special(c) => assert Scan([c], false) == Some(false);
      case Bare(text, _) => assert Bare(text, None).Valid();
      case _ =>
    }
  }

  lemma TokensAreValues(line: string)
    ensures Tokens(line).Some? ==> forall t <- Tokens(line).value :: IsValue(t)
  {
    hide Tokens, Texts, IsValue;
    EveryLineIsPrinted(line);
    TextsAreValues(Pieces(line, SkipLeading(line, 0)).0);
  }

  lemma ItemIsWritable(line: string)
    ensures var kind := Classify(line);
            && (kind.Setting? ==> Writable(Leaf(kind.name, kind.values)))
            && (kind.Open? ==> forall sub :: AllWritable(sub) ==> Writable(Block(kind.name, kind.values, sub)))
  {
    hide Tokens, IsValue, AllWritable, IsName;
    TokensAreValues(line);
  }

  lemma {:induction false} WritableAppend(a: seq<Item>, b: seq<Item>)
    requires AllWritable(a) && AllWritable(b)
    ensures AllWritable(a + b)
  {
    hide Writable;
    if a == [] {
      assert a + b == b;
    } else {
      WritableAppend(a[1..], b);
      assert (a + b)[1..] == a[1..] + b;
    }
  }

  ghost predicate WritableFiles(files: Files) {
    forall pattern: string :: files(pattern).Some? ==> AllWritable(files(pattern).value)
  }

  /** Whatever the parser returns can be written. */
  lemma {:induction false} ParsedIsWritable(lines: seq<string>, files: Files)
    requires WritableFiles(files)
    ensures ParseConfig(lines, files).Parsed? ==> AllWritable(ParseConfig(lines, files).items)
    decreases |lines|
  {
    hide Classify, Writable;
    if lines != [] {
      ItemIsWritable(lines[0]);
      var more := ParseConfig(lines[1..], files);
      ParsedIsWritable(lines[1..], files);
      match Classify(lines[0])
      case Include(pattern) =>
        if files(pattern).Some? && more.Parsed? {
          WritableAppend(files(pattern).value, more.items);
        }
      case Setting(name, values) =>
        if more.Parsed? {
          WritableAppend([Leaf(name, values)], more.items);
        }
      case Open(name, values) =>
        if more.Parsed? {
          ParsedIsWritable(more.rest, files);
          var behind := ParseConfig(more.rest, files);
          if behind.Parsed? {
            WritableAppend([Block(name, values, more.items)], behind.items);
          }
        }
      case _ =>
    }
  }

  /** Reformatting is stable: writing a parsed configuration and parsing it again gives the same tree,
      whatever comments, spacing, quoting and includes the configuration had. */
  lemma ReformattingIsStable(lines: seq<string>, files: Files)
    requires WritableFiles(files) && ParseFile(lines, files).Some?
    ensures ParseFile(Write(ParseFile(lines, files).value), files) == ParseFile(lines, files)
  {
    ParsedIsWritable(lines, files);
    ParsingUndoesWriting(ParseFile(lines, files).value, files);
  }
}
