/** Parsing blocks is exact: it succeeds on the well-formed, balanced files and no others, and the tree
    is the significant lines (pkg/keepalived/parser.go). */
module BlockParsing {
  import opened Common
  import opened ParserSpec

  /** How many lines of a file a block took. */
  function Taken(lines: seq<string>, rest: seq<string>): seq<string>
    requires |rest| <= |lines|
  {
    lines[..|lines| - |rest|]
  }

  ghost predicate AllWell(lines: seq<string>, files: Files) {
    forall l <- lines :: WellFormed(l, files)
  }

  /** What the result says of the lines. A closed block has the items in front of its closing line; a file
      read to the end without open braces has all of its items. */
  ghost predicate Explains(lines: seq<string>, files: Files, r: Parsed) {
    match r
    case Failed => !AllWell(lines, files)
    case Parsed(items, rest, n) =>
      && |rest| <= |lines| && lines == Taken(lines, rest) + rest && AllWell(Taken(lines, rest), files)
      && (n <= 0 ==> Events(Taken(lines, rest), files) == Flatten(items) + if n == 0 then [] else [Closing])
  }

  lemma {:induction false} EventsAppend(a: seq<string>, b: seq<string>, files: Files)
    requires AllWell(a, files) && AllWell(b, files)
    ensures AllWell(a + b, files) && Events(a + b, files) == Events(a, files) + Events(b, files)
  {
    hide WellFormed, EventsOf, Events;
    assert AllWell(a + b, files);
    if a == [] {
      assert a + b == b;
      NoEvents(files);
    } else {
      assert a[0] in a && AllWell(a[1..], files);
      EventsAppend(a[1..], b, files);
      FirstEvents(a, files);
      FirstEvents(a + b, files);
      assert (a + b)[0] == a[0] && (a + b)[1..] == a[1..] + b;
    }
  }

  lemma NoEvents(files: Files)
    ensures Events([], files) == []
  {
  }

  lemma FirstEvents(lines: seq<string>, files: Files)
    requires lines != [] && AllWell(lines, files)
    ensures lines[0] in lines && AllWell(lines[1..], files)
    ensures Events(lines, files) == EventsOf(lines[0], files) + Events(lines[1..], files)
  {
    hide WellFormed, EventsOf;
  }

  /** Adding in front some lines and the items they are. */
  lemma ExplainsBehind(lines: seq<string>, files: Files, block: seq<string>, behind: seq<string>, items: seq<Item>, more: Parsed)
    requires lines == block + behind && AllWell(block, files) && Events(block, files) == Flatten(items)
    requires Explains(behind, files, more)
    ensures Explains(lines, files, Append(items, 0, more))
  {
    hide WellFormed, Events, Flatten;
    match more
    case Failed =>
    case Parsed(tail, rest, n) =>
      assert Taken(lines, rest) == block + Taken(behind, rest);
      EventsAppend(block, Taken(behind, rest), files);
      FlattenAppend(items, tail);
      ghost var end := if n == 0 then [] else [Closing];
      assert Flatten(items) + (Flatten(tail) + end) == Flatten(items) + Flatten(tail) + end;
  }

  /** Adding what one line says in front. */
  lemma ExplainsLine(lines: seq<string>, files: Files, items: seq<Item>, more: Parsed)
    requires lines != [] && WellFormed(lines[0], files) && EventsOf(lines[0], files) == Flatten(items)
    requires Explains(lines[1..], files, more)
    ensures Explains(lines, files, Append(items, 0, more))
  {
    hide EventsOf, WellFormed, Flatten;
    OneLine(lines[0], files);
    assert lines == [lines[0]] + lines[1..];
    ExplainsBehind(lines, files, [lines[0]], lines[1..], items, more);
  }

  lemma OneLine(line: string, files: Files)
    requires WellFormed(line, files)
    ensures AllWell([line], files) && Events([line], files) == EventsOf(line, files)
  {
    hide EventsOf, WellFormed;
    assert [line][1..] == [];
    assert EventsOf(line, files) + [] == EventsOf(line, files);
  }

  /** Adding a block in front: its opening line, its lines up to the closing one, and what follows. */
  lemma ExplainsBlock(lines: seq<string>, files: Files, sub: Parsed, more: Parsed, name: string, values: seq<string>)
    requires lines != [] && Classify(lines[0]) == Open(name, values) && sub.Parsed? && sub.braces == -1
    requires Explains(lines[1..], files, sub) && Explains(sub.rest, files, more)
    ensures Explains(lines, files, Append([Block(name, values, sub.items)], 0, more))
  {
    hide Classify, Events, Flatten;
    var item, block := Block(name, values, sub.items), [lines[0]] + Taken(lines[1..], sub.rest);
    OneLine(lines[0], files);
    EventsAppend([lines[0]], Taken(lines[1..], sub.rest), files);
    assert lines == block + sub.rest;
    FlattenOne(item);
    assert Events(block, files) == Flatten([item]) by {
      assert [Opening(name, values)] + (Flatten(sub.items) + [Closing]) == FlattenItem(item);
    }
    ExplainsBehind(lines, files, block, sub.rest, [item], more);
  }

  lemma FlattenOne(item: Item)
    ensures Flatten([item]) == FlattenItem(item)
  {
    hide FlattenItem;
    assert [item][1..] == [];
    assert FlattenItem(item) + [] == FlattenItem(item);
  }

  /** What parsing returns explains the lines. */
  lemma {:induction false} ParseExplains(lines: seq<string>, files: Files)
    ensures Explains(lines, files, ParseConfig(lines, files))
    decreases |lines|
  {
    hide Explains, Append;
    if lines == [] {
      ExplainsNothing(files);
      return;
    }
    var more := ParseConfig(lines[1..], files);
    ParseExplains(lines[1..], files);
    match Classify(lines[0])
    case Skipped =>
      ExplainsLine(lines, files, [], more);
      AppendNothing(more);
    case Malformed => MalformedFails(lines, files);
    case Close => ExplainsClose(lines, files);
    case Include(pattern) =>
      if files(pattern).None? {
        MalformedFails(lines, files);
      } else {
        ExplainsLine(lines, files, files(pattern).value, more);
      }
    case Setting(name, values) =>
      FlattenOne(Leaf(name, values));
      ExplainsLine(lines, files, [Leaf(name, values)], more);
    case Open(name, values) =>
      if more.Failed? {
        FailedTail(lines, files);
      } else {
        ParseExplains(more.rest, files);
        if more.braces == -1 {
          ExplainsBlock(lines, files, more, ParseConfig(more.rest, files), name, values);
        } else {
          ExplainsUnclosed(lines, files, more, Block(name, values, more.items));
        }
      }
  }

  lemma ExplainsNothing(files: Files)
    ensures Explains([], files, Parsed([], [], 0))
  {
  }

  lemma MalformedFails(lines: seq<string>, files: Files)
    requires lines != [] && !WellFormed(lines[0], files)
    ensures Explains(lines, files, Failed)
  {
    assert lines[0] in lines;
  }

  lemma FailedTail(lines: seq<string>, files: Files)
    requires lines != [] && Explains(lines[1..], files, Failed)
    ensures Explains(lines, files, Failed)
  {
    assert forall l <- lines[1..] :: l in lines;
  }

  lemma ExplainsClose(lines: seq<string>, files: Files)
    requires lines != [] && Classify(lines[0]) == Close
    ensures Explains(lines, files, Parsed([], lines[1..], -1))
  {
    hide Classify;
    assert Taken(lines, lines[1..]) == [lines[0]];
    OneLine(lines[0], files);
  }

  lemma ExplainsUnclosed(lines: seq<string>, files: Files, sub: Parsed, item: Item)
    requires lines != [] && Classify(lines[0]).Open? && sub.Parsed? && sub.braces >= 0 && sub.rest == []
    requires Explains(lines[1..], files, sub)
    ensures Explains(lines, files, Append([item], 1 + sub.braces, Parsed([], [], 0)))
  {
    hide Classify;
    assert Taken(lines[1..], []) == lines[1..] && Taken(lines, []) == [lines[0]] + lines[1..];
  }

  /** The count of braces tells whether the lines balance. */
  lemma {:induction false} BracesBalance(lines: seq<string>, files: Files, depth: nat)
    requires ParseConfig(lines, files).Parsed?
    ensures var r := ParseConfig(lines, files);
            Balanced(lines, depth) <==> if r.braces == -1 then depth > 0 && Balanced(r.rest, depth - 1) else depth + r.braces == 0
    decreases |lines|
  {
    hide Classify;
    if lines != [] {
      match Classify(lines[0])
      case Close =>
      case Open(_, _) =>
        BracesBalance(lines[1..], files, depth + 1);
        BracesBalance(ParseConfig(lines[1..], files).rest, files, depth);
      case Malformed =>
      case _ => BracesBalance(lines[1..], files, depth);
    }
  }

  /** A file parses exactly when all its lines are well formed and its opening and closing lines
      balance; the tree is then its significant lines in order. */
  lemma ParsingIsExact(lines: seq<string>, files: Files)
    ensures ParseFile(lines, files).Some? <==> AllWell(lines, files) && Balanced(lines, 0)
    ensures ParseFile(lines, files).Some? ==> Flatten(ParseFile(lines, files).value) == Events(lines, files)
  {
    hide ParseConfig, Balanced, Events, Flatten, WellFormed;
    ParseExplains(lines, files);
    var r := ParseConfig(lines, files);
    if r.Parsed? {
      BracesBalance(lines, files, 0);
      if r.braces == 0 {
        assert Taken(lines, r.rest) == lines;
      }
    }
  }
}
