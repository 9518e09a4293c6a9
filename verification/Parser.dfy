/** The keepalived configuration parser as it runs: a scanner and a brace counter that nested calls share
    (pkg/keepalived/parser.go). */
module Parser {
  import opened Common
  import opened ParserSpec
  import Lexer

  class Scanner {
    const lines: seq<string>
    var pos: nat

    ghost predicate Valid()
      reads this
    {
      pos <= |lines|
    }

    function Remaining(): seq<string>
      reads this
      requires Valid()
    {
      lines[pos..]
    }

    constructor (lines: seq<string>)
      ensures Valid() && Remaining() == lines
    {
      this.lines := lines;
      this.pos := 0;
    }

    /** The next line, or nothing at the end of the file. */
    method Scan() returns (line: Option<string>)
      requires Valid()
      modifies this`pos
      ensures Valid()
      ensures old(Remaining()) == [] ==> line == None && Remaining() == []
      ensures old(Remaining()) != [] ==> line == Some(old(Remaining())[0]) && Remaining() == old(Remaining())[1..]
    {
      if pos == |lines| {
        return None;
      }
      line := Some(lines[pos]);
      pos := pos + 1;
    }
  }

  class Counter {
    var value: int

    constructor ()
      ensures value == 0
    {
      value := 0;
    }
  }

  /** What a call of `ParseConfig` leaves behind when the lines mean `r`. */
  predicate Left(r: Parsed, items: Option<seq<Item>>, rest: seq<string>, braces: int) {
    match r
    case Failed => items == None
    case Parsed(all, end, n) => items == Some(all) && rest == end && braces == n
  }

  lemma Fails(lines: seq<string>, files: Files)
    requires lines != [] && !WellFormed(lines[0], files)
    ensures ParserSpec.ParseConfig(lines, files) == Failed
  {
    hide Classify;
  }

  lemma Skips(lines: seq<string>, files: Files)
    requires lines != [] && Classify(lines[0]) == Skipped
    ensures ParserSpec.ParseConfig(lines, files) == ParserSpec.ParseConfig(lines[1..], files)
  {
    hide Classify, Append;
  }

  lemma Closes(lines: seq<string>, files: Files)
    requires lines != [] && Classify(lines[0]) == Close
    ensures ParserSpec.ParseConfig(lines, files) == Parsed([], lines[1..], -1)
  {
    hide Classify, Append;
  }

  lemma Includes(lines: seq<string>, files: Files, pattern: string)
    requires lines != [] && Classify(lines[0]) == Include(pattern) && files(pattern).Some?
    ensures ParserSpec.ParseConfig(lines, files) == Append(files(pattern).value, 0, ParserSpec.ParseConfig(lines[1..], files))
  {
    hide Classify, Append;
  }

  lemma Sets(lines: seq<string>, files: Files, name: string, values: seq<string>)
    requires lines != [] && Classify(lines[0]) == Setting(name, values)
    ensures ParserSpec.ParseConfig(lines, files) == Append([Leaf(name, values)], 0, ParserSpec.ParseConfig(lines[1..], files))
  {
    hide Classify, Append;
  }

  lemma Opens(lines: seq<string>, files: Files, name: string, values: seq<string>)
    requires lines != [] && Classify(lines[0]) == Open(name, values)
    ensures var sub := ParserSpec.ParseConfig(lines[1..], files);
            ParserSpec.ParseConfig(lines, files) == if sub.Failed? then Failed
              else Append([Block(name, values, sub.items)], 1 + sub.braces, ParserSpec.ParseConfig(sub.rest, files))
  {
    hide Classify, Append;
  }

  method ParseConfig(scanner: Scanner, files: Files, unbalancedBraces: Counter) returns (items: Option<seq<Item>>)
    requires scanner.Valid()
    modifies scanner`pos, unbalancedBraces
    ensures scanner.Valid()
    ensures Left(ParserSpec.ParseConfig(old(scanner.Remaining()), files), items, scanner.Remaining(), unbalancedBraces.value - old(unbalancedBraces.value))
    decreases |scanner.Remaining()|
  {
    hide IsName, Lexer.Tokens, Append, Left, ParserSpec.ParseConfig;
    var res: seq<Item> := [];
    ghost var start, before := scanner.Remaining(), unbalancedBraces.value;
    AppendNothing(ParserSpec.ParseConfig(start, files));
    while true
      invariant scanner.Valid() && |scanner.Remaining()| <= |start|
      invariant ParserSpec.ParseConfig(start, files)
             == Append(res, unbalancedBraces.value - before, ParserSpec.ParseConfig(scanner.Remaining(), files))
      decreases |scanner.Remaining()|
    {
      ghost var lines, count, soFar := scanner.Remaining(), unbalancedBraces.value - before, res;
      var line := scanner.Scan();
      if line.None? {
        break;
      }
      ghost var more := ParserSpec.ParseConfig(scanner.Remaining(), files);
      LeftFailed(soFar, count);
      var scanned := Lexer.SplitLine(line.value);
      if scanned.None? {
        Fails(lines, files);
        return None;
      }
      var tokens := scanned.value;
      if tokens == [] {
        Skips(lines, files);
        continue;
      }
      if tokens[0] != [] && (tokens[0][0] == '#' || tokens[0][0] == '!') {
        Skips(lines, files);
        continue;
      }
      if tokens[0] == "}" {
        unbalancedBraces.value := unbalancedBraces.value - 1;
        Closes(lines, files);
        LeftClosed(soFar, count, scanner.Remaining());
        return Some(res);
      }
      if tokens[0] == "include" {
        if |tokens| != 2 {
          Fails(lines, files);
          return None;
        }
        var included := files(tokens[1]);
        if included.None? {
          Fails(lines, files);
          return None;
        }
        Includes(lines, files, tokens[1]);
        AppendTwice(soFar, count, included.value, 0, more);
        res := res + included.value;
        continue;
      }
      if '{' in tokens[0] {
        Fails(lines, files);
        return None;
      }
      if !IsName(tokens[0]) {
        Fails(lines, files);
        return None;
      }
      var name := tokens[0];
      tokens := tokens[1..];
      if |tokens| > 0 && tokens[|tokens| - 1] == "{" {
        tokens := tokens[..|tokens| - 1];
        Opens(lines, files, name, tokens);
        unbalancedBraces.value := unbalancedBraces.value + 1;
        var sub := ParseConfig(scanner, files, unbalancedBraces);
        LeftMeans(more, sub, scanner.Remaining(), unbalancedBraces.value - before - count - 1);
        if sub.None? {
          return None;
        }
        AppendTwice(soFar, count, [Block(name, tokens, sub.value)], 1 + more.braces, ParserSpec.ParseConfig(scanner.Remaining(), files));
        res := res + [Block(name, tokens, sub.value)];
      } else {
        Sets(lines, files, name, tokens);
        AppendTwice(soFar, count, [Leaf(name, tokens)], 0, more);
        res := res + [Leaf(name, tokens)];
      }
    }
    NoLines(files);
    LeftAtEnd(res, unbalancedBraces.value - before);
    return Some(res);
  }

  lemma NoLines(files: Files)
    ensures ParserSpec.ParseConfig([], files) == Parsed([], [], 0)
  {
  }

  lemma LeftFailed(items: seq<Item>, n: int)
    ensures forall rest, m :: Left(Append(items, n, Failed), None, rest, m)
  {
  }

  lemma LeftClosed(items: seq<Item>, n: int, rest: seq<string>)
    ensures Left(Append(items, n, Parsed([], rest, -1)), Some(items), rest, n - 1)
  {
    assert items + [] == items;
  }

  lemma LeftAtEnd(items: seq<Item>, n: int)
    ensures Left(Append(items, n, Parsed([], [], 0)), Some(items), [], n)
  {
    assert items + [] == items;
  }

  lemma LeftMeans(r: Parsed, items: Option<seq<Item>>, rest: seq<string>, braces: int)
    requires Left(r, items, rest, braces)
    ensures r.Failed? <==> items.None?
    ensures r.Parsed? ==> items == Some(r.items) && rest == r.rest && braces == r.braces
  {
  }

  method ParseFile(lines: seq<string>, files: Files) returns (root: Option<seq<Item>>)
    ensures root == ParserSpec.ParseFile(lines, files)
  {
    var scanner := new Scanner(lines);
    var unbalancedBraces := new Counter();
    var subItems := ParseConfig(scanner, files, unbalancedBraces);
    if subItems.None? {
      return None;
    }
    if unbalancedBraces.value != 0 {
      return None;
    }
    return subItems;
  }
}
