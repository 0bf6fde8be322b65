/** The text `wg show <if> allowed-ips` prints, and the parser that reads it back. */
module WgText {

  /** The characters Go's unicode.IsSpace accepts. */
  predicate IsSpace(c: char) {
    var n := c as int;
    || 9 <= n <= 13 || n == 32 || n == 0x85 || n == 0xa0 || n == 0x1680
    || 0x2000 <= n <= 0x200a || n == 0x2028 || n == 0x2029 || n == 0x202f || n == 0x205f || n == 0x3000
  }

  /** A word of the output: not empty, no white space. */
  predicate IsToken(s: string) {
    s != "" && forall i :: 0 <= i < |s| ==> !IsSpace(s[i])
  }

  const NONE := "(none)"

  /** One printed peer: its key, then its CIDRs in the order the kernel lists them. */
  datatype Entry = Entry(key: string, cidrs: seq<string>)

  predicate Printable(e: Entry) {
    && IsToken(e.key)
    && forall i :: 0 <= i < |e.cidrs| ==> IsToken(e.cidrs[i]) && e.cidrs[i] != NONE
  }

  predicate PrintableTable(table: seq<Entry>) {
    && (forall i :: 0 <= i < |table| ==> Printable(table[i]))
    && forall i, j :: 0 <= i < j < |table| ==> table[i].key != table[j].key
  }

  // ----- printing -----

  function Spaced(words: seq<string>): string {
    if words == [] then "" else if |words| == 1 then words[0] else words[0] + " " + Spaced(words[1..])
  }

  function Line(e: Entry): string {
    e.key + "\t" + if e.cidrs == [] then NONE else Spaced(e.cidrs)
  }

  function Print(table: seq<Entry>): string {
    if table == [] then "" else Line(table[0]) + "\n" + Print(table[1..])
  }

  // ----- the library functions the parser calls -----

  function TrimLeft(s: string): string {
    if s != "" && IsSpace(s[0]) then TrimLeft(s[1..]) else s
  }

  function TrimRight(s: string): string {
    if s != "" && IsSpace(s[|s| - 1]) then TrimRight(s[..|s| - 1]) else s
  }

  function TrimSpace(s: string): string {
    TrimRight(TrimLeft(s))
  }

  /** strings.Split on newlines; `current` is the part of the current line already read. */
  function SplitLines(s: string, current: string): (r: seq<string>)
    ensures |r| > 0
  {
    if s == "" then [current]
    else if s[0] == '\n' then [current] + SplitLines(s[1..], "")
    else SplitLines(s[1..], current + [s[0]])
  }

  /** strings.Fields; `current` is the part of the current word already read. */
  function Fields(s: string, current: string): seq<string> {
    if s == "" then Flush(current)
    else if IsSpace(s[0]) then Flush(current) + Fields(s[1..], "")
    else Fields(s[1..], current + [s[0]])
  }

  function Flush(word: string): seq<string> {
    if word == "" then [] else [word]
  }

  // ----- the parser's specification -----

  function DropNone(words: seq<string>): seq<string> {
    if words == [] then []
    else DropNone(words[..|words| - 1]) + (if words[|words| - 1] != NONE then [words[|words| - 1]] else [])
  }

  /** What one line adds to the map: nothing if blank, else the key with the other words that are not `(none)`. */
  function ParseLine(peers: map<string, seq<string>>, line: string): map<string, seq<string>> {
    var fields := Fields(line, "");
    if fields == [] then peers else peers[fields[0] := DropNone(fields[1..])]
  }

  function ParseLines(lines: seq<string>): map<string, seq<string>> {
    if lines == [] then map[] else ParseLine(ParseLines(lines[..|lines| - 1]), lines[|lines| - 1])
  }

  function Parse(out: string): map<string, seq<string>> {
    ParseLines(SplitLines(TrimSpace(out), ""))
  }

  /** The loop of currentPeers over the printed text. */
  method CurrentPeers(out: string) returns (peers: map<string, seq<string>>)
    ensures peers == Parse(out)
  {
    peers := map[];
    var lines := SplitLines(TrimSpace(out), "");
    for n := 0 to |lines|
      invariant peers == ParseLines(lines[..n])
    {
      assert lines[..n + 1][..n] == lines[..n];
      var line := lines[n];
      if line == "" {
        continue;
      }
      var fields := Fields(line, "");
      if |fields| == 0 {
        continue;
      }
      var rest, allowedIPs := fields[1..], [];
      for i := 0 to |rest|
        invariant allowedIPs == DropNone(rest[..i])
      {
        assert rest[..i + 1][..i] == rest[..i];
        if rest[i] != NONE {
          allowedIPs := allowedIPs + [rest[i]];
        }
      }
      assert rest[..|rest|] == rest;
      peers := peers[fields[0] := allowedIPs];
    }
    assert lines[..|lines|] == lines;
  }

  // ----- round trip -----

  function Table(table: seq<Entry>): map<string, seq<string>> {
    if table == [] then map[] else Table(table[..|table| - 1])[table[|table| - 1].key := table[|table| - 1].cidrs]
  }

  /** Reading a token appends it to the current word. */
  lemma {:induction false} FieldsToken(word: string, rest: string, current: string)
    requires forall i :: 0 <= i < |word| ==> !IsSpace(word[i])
    ensures Fields(word + rest, current) == Fields(rest, current + word)
  {
    if word == "" {
      assert word + rest == rest && current + word == current;
    } else {
      assert (word + rest)[0] == word[0] && (word + rest)[1..] == word[1..] + rest;
      FieldsToken(word[1..], rest, current + [word[0]]);
      assert current + [word[0]] + word[1..] == current + word;
    }
  }

  /** A token followed by a separator is one field. */
  lemma FieldsSeparator(word: string, sep: char, rest: string)
    requires IsToken(word) && IsSpace(sep)
    ensures Fields(word + [sep] + rest, "") == [word] + Fields(rest, "")
  {
    assert word + [sep] + rest == word + ([sep] + rest);
    FieldsToken(word, [sep] + rest, "");
    assert "" + word == word;
    assert ([sep] + rest)[1..] == rest;
  }

  lemma FieldsLast(word: string)
    requires IsToken(word)
    ensures Fields(word, "") == [word]
  {
    FieldsToken(word, "", "");
    assert word + "" == word && "" + word == word;
  }

  lemma {:induction false} FieldsSpaced(words: seq<string>)
    requires words != [] && forall i :: 0 <= i < |words| ==> IsToken(words[i])
    ensures Fields(Spaced(words), "") == words
  {
    if |words| == 1 {
      FieldsLast(words[0]);
    } else {
      FieldsSeparator(words[0], ' ', Spaced(words[1..]));
      FieldsSpaced(words[1..]);
    }
  }

  lemma {:induction false} DropNoneKeeps(words: seq<string>)
    requires forall i :: 0 <= i < |words| ==> words[i] != NONE
    ensures DropNone(words) == words
  {
    if words != [] {
      DropNoneKeeps(words[..|words| - 1]);
    }
  }

  lemma FieldsOfLine(e: Entry)
    requires Printable(e)
    ensures Fields(Line(e), "") == [e.key] + (if e.cidrs == [] then [NONE] else e.cidrs)
  {
    if e.cidrs == [] {
      FieldsSeparator(e.key, '\t', NONE);
      FieldsLast(NONE);
    } else {
      FieldsSeparator(e.key, '\t', Spaced(e.cidrs));
      FieldsSpaced(e.cidrs);
    }
  }

  lemma DropNoneOfNone()
    ensures DropNone([NONE]) == []
  {
    assert [NONE][..0] == [] && DropNone([]) == [];
  }

  lemma ParseLineOfEntry(peers: map<string, seq<string>>, e: Entry)
    requires Printable(e)
    ensures ParseLine(peers, Line(e)) == peers[e.key := e.cidrs]
  {
    FieldsOfLine(e);
    DropNoneOfNone();
    DropNoneKeeps(e.cidrs);
    var rest := if e.cidrs == [] then [NONE] else e.cidrs;
    assert ([e.key] + rest)[1..] == rest;
  }

  function Lines(table: seq<Entry>): seq<string> {
    seq(|table|, i requires 0 <= i < |table| => Line(table[i]))
  }

  lemma {:induction false} ParseLinesOfTable(table: seq<Entry>)
    requires forall i :: 0 <= i < |table| ==> Printable(table[i])
    ensures ParseLines(Lines(table)) == Table(table)
  {
    if table != [] {
      var n := |table| - 1;
      ParseLinesOfTable(table[..n]);
      assert Lines(table)[..n] == Lines(table[..n]);
      ParseLineOfEntry(Table(table[..n]), table[n]);
    }
  }

  /** No line break inside a line, and the line neither starts nor ends with white space. */
  predicate Clean(line: string) {
    line != "" && !IsSpace(line[0]) && !IsSpace(line[|line| - 1]) && '\n' !in line
  }

  lemma {:induction false} SpacedClean(words: seq<string>)
    requires words != [] && forall i :: 0 <= i < |words| ==> IsToken(words[i])
    ensures Clean(Spaced(words))
  {
    if |words| > 1 {
      SpacedClean(words[1..]);
    }
  }

  lemma LineClean(e: Entry)
    requires Printable(e)
    ensures Clean(Line(e))
  {
    if e.cidrs != [] {
      SpacedClean(e.cidrs);
    }
  }

  lemma {:induction false} SplitOneLine(line: string, rest: string, current: string)
    requires '\n' !in line
    ensures SplitLines(line + rest, current) == SplitLines(rest, current + line)
  {
    if line == "" {
      assert line + rest == rest && current + line == current;
    } else {
      assert (line + rest)[0] == line[0] && (line + rest)[1..] == line[1..] + rest;
      SplitOneLine(line[1..], rest, current + [line[0]]);
      assert current + [line[0]] + line[1..] == current + line;
    }
  }

  /** The printed table without its last line break. */
  function Body(table: seq<Entry>): string
    requires table != []
  {
    if |table| == 1 then Line(table[0]) else Line(table[0]) + "\n" + Body(table[1..])
  }

  lemma {:induction false} BodyIsPrint(table: seq<Entry>)
    requires table != []
    ensures Print(table) == Body(table) + "\n"
  {
    if |table| == 1 {
      assert Print(table[1..]) == "";
    } else {
      BodyIsPrint(table[1..]);
    }
  }

  lemma {:induction false} BodyEnds(table: seq<Entry>)
    requires table != [] && forall i :: 0 <= i < |table| ==> Printable(table[i])
    ensures Body(table) != "" && !IsSpace(Body(table)[0]) && !IsSpace(Body(table)[|Body(table)| - 1])
  {
    LineClean(table[0]);
    if |table| > 1 {
      BodyEnds(table[1..]);
    }
  }

  lemma {:induction false} SplitLast(line: string)
    requires '\n' !in line
    ensures SplitLines(line, "") == [line]
  {
    SplitOneLine(line, "", "");
    assert line + "" == line && "" + line == line;
  }

  lemma {:induction false} SplitFirst(line: string, rest: string)
    requires '\n' !in line
    ensures SplitLines(line + ("\n" + rest), "") == [line] + SplitLines(rest, "")
  {
    SplitOneLine(line, "\n" + rest, "");
    assert "" + line == line && ("\n" + rest)[1..] == rest;
  }

  lemma {:induction false} SplitBody(table: seq<Entry>)
    requires table != [] && forall i :: 0 <= i < |table| ==> Printable(table[i])
    ensures SplitLines(Body(table), "") == Lines(table)
  {
    var line := Line(table[0]);
    LineClean(table[0]);
    if |table| == 1 {
      SplitLast(line);
    } else {
      SplitFirst(line, Body(table[1..]));
      assert Body(table) == line + ("\n" + Body(table[1..]));
      SplitBody(table[1..]);
    }
  }

  lemma TrimOneBreak(body: string)
    requires body != "" && !IsSpace(body[0]) && !IsSpace(body[|body| - 1])
    ensures TrimSpace(body + "\n") == body
  {
    var printed := body + "\n";
    assert printed[0] == body[0] && printed[|printed| - 1] == '\n';
    assert TrimLeft(printed) == printed;
    assert printed[..|printed| - 1] == body;
    assert IsSpace('\n') && TrimRight(printed) == TrimRight(body);
    assert TrimRight(body) == body;
  }

  /** Whatever table the kernel prints, currentPeers reads back, every CIDR of every peer included. */
  lemma RoundTrip(table: seq<Entry>)
    requires PrintableTable(table)
    ensures Parse(Print(table)) == Table(table)
  {
    if table == [] {
      assert SplitLines("", "") == [""];
      assert Fields("", "") == [];
      assert [""][..0] == [];
    } else {
      BodyIsPrint(table);
      BodyEnds(table);
      TrimOneBreak(Body(table));
      SplitBody(table);
      ParseLinesOfTable(table);
    }
  }

  lemma {:induction false} TableLookup(table: seq<Entry>)
    requires forall i, j :: 0 <= i < j < |table| ==> table[i].key != table[j].key
    ensures forall k :: k in Table(table) <==> exists e :: e in table && e.key == k
    ensures forall e :: e in table ==> e.key in Table(table) && Table(table)[e.key] == e.cidrs
  {
    if table != [] {
      var n := |table| - 1;
      var front, last := table[..n], table[n];
      TableLookup(front);
      assert table == front + [last];
      forall e | e in front
        ensures e.key != last.key
      {
        var i :| 0 <= i < n && front[i] == e;
        assert table[i].key != table[n].key;
      }
    }
  }

  lemma {:induction false} ParseOneLine(line: string)
    requires Clean(line)
    ensures Parse(line + "\n") == ParseLine(map[], line)
  {
    TrimOneBreak(line);
    SplitLast(line);
    assert [line][..0] == [] && ParseLines([]) == map[];
    assert ParseLines([line]) == ParseLine(map[], line);
  }

  /** A line that ends in `(none)`: a peer without CIDRs. */
  lemma {:induction false} ParseNone(key: string)
    requires IsToken(key)
    ensures Parse(key + "\t(none)\n") == map[key := []]
  {
    var e := Entry(key, []);
    LineClean(e);
    assert key + "\t(none)\n" == Line(e) + "\n";
    ParseOneLine(Line(e));
    ParseLineOfEntry(map[], e);
  }

  /** A line with two CIDRs, separated by a space. */
  lemma {:induction false} ParseTwo(key: string, a: string, b: string)
    requires IsToken(key) && IsToken(a) && IsToken(b) && a != "(none)" && b != "(none)"
    ensures Parse(key + "\t" + a + " " + b + "\n") == map[key := [a, b]]
  {
    var e := Entry(key, [a, b]);
    assert [a, b][1..] == [b] && Spaced([a, b]) == a + " " + b;
    LineClean(e);
    assert key + "\t" + a + " " + b + "\n" == Line(e) + "\n";
    ParseOneLine(Line(e));
    ParseLineOfEntry(map[], e);
  }

  /** Why `fields[1:]` and not `fields[1]`: the earlier parser lost every CIDR of a peer but the first. */
  function FirstFieldOnly(line: string): seq<string> {
    var fields := Fields(line, "");
    if |fields| < 2 then [] else DropNone([fields[1]])
  }

  lemma FirstFieldOnlyExact(e: Entry)
    requires Printable(e)
    ensures FirstFieldOnly(Line(e)) == e.cidrs <==> |e.cidrs| <= 1
  {
    FieldsOfLine(e);
    if e.cidrs == [] {
      assert [NONE][..0] == [];
    } else {
      DropNoneKeeps([e.cidrs[0]]);
    }
  }
}
