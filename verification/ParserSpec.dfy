/** What parsing a keepalived configuration means: kinds of lines, and the tree that a list of lines
    stands for (pkg/keepalived/parser.go). */
module ParserSpec {
  import opened Common
  import Lexer

  /** A parameter with its values. A block also has sub-items, possibly none, where a plain parameter
      has a nil list. */
  datatype Item = Leaf(name: string, values: seq<string>) | Block(name: string, values: seq<string>, subItems: seq<Item>)

  /** Resolves an include: the items of all files the pattern stands for, or `None` when one of them
      cannot be read or parsed. */
  type Files = string -> Option<seq<Item>>

  datatype Kind =
    | Skipped
    | Malformed
    | Close
    | Include(pattern: string)
    | Open(name: string, values: seq<string>)
    | Setting(name: string, values: seq<string>)

  predicate IsNameChar(c: char) {
    'a' <= c <= 'z' || 'A' <= c <= 'Z' || '0' <= c <= '9' || c == '_' || c == '-'
  }

  predicate IsName(s: string) {
    s != [] && forall c <- s :: IsNameChar(c)
  }

  function KindOf(tokens: seq<string>): Kind {
    if tokens == [] then Skipped
    else if tokens[0] != [] && (tokens[0][0] == '#' || tokens[0][0] == '!') then Skipped
    else if tokens[0] == "}" then Close
    else if tokens[0] == "include" then
      if |tokens| == 2 then Include(tokens[1]) else Malformed
    else if '{' in tokens[0] || !IsName(tokens[0]) then Malformed
    else
      var values := tokens[1..];
      if values != [] && values[|values| - 1] == "{" then Open(tokens[0], values[..|values| - 1])
      else Setting(tokens[0], values)
  }

  function Classify(line: string): Kind {
    match Lexer.Tokens(line)
    case None => Malformed
    case Some(tokens) => KindOf(tokens)
  }

  /** The result of reading one block: its items, the lines behind it, and by how much the count of
      open braces changed. */
  datatype Parsed = Failed | Parsed(items: seq<Item>, rest: seq<string>, braces: int)

  function Append(items: seq<Item>, braces: int, more: Parsed): Parsed {
    match more
    case Failed => Failed
    case Parsed(tail, rest, n) => Parsed(items + tail, rest, braces + n)
  }

  lemma AppendTwice(a: seq<Item>, m: int, b: seq<Item>, n: int, r: Parsed)
    ensures Append(a, m, Append(b, n, r)) == Append(a + b, m + n, r)
  {
    if r.Parsed? {
      assert a + (b + r.items) == a + b + r.items;
    }
  }

  lemma AppendNothing(r: Parsed)
    ensures Append([], 0, r) == r
  {
  }

  /** Reads lines up to the closing brace of the block, or all of them. */
  function ParseConfig(lines: seq<string>, files: Files): (r: Parsed)
    ensures r.Parsed? ==> |r.rest| <= |lines| && (r.braces >= 0 ==> r.rest == []) && r.braces >= -1
    decreases |lines|
  {
    if lines == [] then Parsed([], [], 0)
    else
      match Classify(lines[0])
      case Skipped => ParseConfig(lines[1..], files)
      case Malformed => Failed
      case Close => Parsed([], lines[1..], -1)
      case Include(pattern) =>
        (match files(pattern)
         case None => Failed
         case Some(items) => Append(items, 0, ParseConfig(lines[1..], files)))
      case Setting(name, values) => Append([Leaf(name, values)], 0, ParseConfig(lines[1..], files))
      case Open(name, values) =>
        match ParseConfig(lines[1..], files)
        case Failed => Failed
        case Parsed(sub, rest, n) => Append([Block(name, values, sub)], 1 + n, ParseConfig(rest, files))
  }

  function ParseFile(lines: seq<string>, files: Files): Option<seq<Item>> {
    match ParseConfig(lines, files)
    case Failed => None
    case Parsed(items, _, braces) => if braces == 0 then Some(items) else None
  }

  /** What a line tells the parser. */
  datatype Event = Opening(name: string, values: seq<string>) | Closing | Parameter(name: string, values: seq<string>)

  predicate WellFormed(line: string, files: Files) {
    match Classify(line)
    case Malformed => false
    case Include(pattern) => files(pattern).Some?
    case _ => true
  }

  /** Every closing line has an opening line in front of it, and the other way around. */
  predicate Balanced(lines: seq<string>, depth: nat) {
    if lines == [] then depth == 0
    else
      match Classify(lines[0])
      case Open(_, _) => Balanced(lines[1..], depth + 1)
      case Close => depth > 0 && Balanced(lines[1..], depth - 1)
      case _ => Balanced(lines[1..], depth)
  }

  function EventsOf(line: string, files: Files): seq<Event>
    requires WellFormed(line, files)
  {
    match Classify(line)
    case Skipped => []
    case Close => [Closing]
    case Include(pattern) => Flatten(files(pattern).value)
    case Open(name, values) => [Opening(name, values)]
    case Setting(name, values) => [Parameter(name, values)]
  }

  /** The significant lines in order. */
  function Events(lines: seq<string>, files: Files): seq<Event>
    requires forall l <- lines :: WellFormed(l, files)
  {
    if lines == [] then []
    else
      assert lines[0] in lines;
      EventsOf(lines[0], files) + Events(lines[1..], files)
  }

  /** The lines a tree stands for. */
  function Flatten(items: seq<Item>): seq<Event> {
    if items == [] then [] else FlattenItem(items[0]) + Flatten(items[1..])
  }

  function FlattenItem(item: Item): seq<Event> {
    match item
    case Leaf(name, values) => [Parameter(name, values)]
    case Block(name, values, sub) => [Opening(name, values)] + Flatten(sub) + [Closing]
  }

  lemma {:induction false} FlattenAppend(a: seq<Item>, b: seq<Item>)
    ensures Flatten(a + b) == Flatten(a) + Flatten(b)
  {
    if a == [] {
      assert a + b == b;
    } else {
      var all, first := a + b, FlattenItem(a[0]);
      assert all[0] == a[0] && all[1..] == a[1..] + b;
      assert Flatten(all) == first + Flatten(all[1..]);
      FlattenAppend(a[1..], b);
      hide Flatten, FlattenItem;
      assert first + (Flatten(a[1..]) + Flatten(b)) == first + Flatten(a[1..]) + Flatten(b);
    }
  }
}
