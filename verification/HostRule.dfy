/** Router rules for domains, and the small part of Go's regular expressions they use. */
module HostRule {
  import opened Wrappers

  // ----- regular expressions -----

  datatype Class = Literal(c: char) | Except(c: char) | Any

  datatype Item =
    | Nothing
    | Begin
    | End
    | One(chars: Class)
    | Opt(chars: Class)
    | Star(chars: Class)
    | Plus(chars: Class)

  predicate InClass(chars: Class, c: char) {
    match chars
    case Literal(d) => c == d
    case Except(d) => c != d
    case Any => c != '\n'
  }

  /** The items match `s` from position `i` on. */
  predicate MatchAt(items: seq<Item>, s: string, i: nat)
    requires i <= |s|
    decreases |items|, |s| - i
  {
    if items == [] then true
    else match items[0]
      case Nothing => MatchAt(items[1..], s, i)
      case Begin => i == 0 && MatchAt(items[1..], s, i)
      case End => i == |s| && MatchAt(items[1..], s, i)
      case One(chars) => i < |s| && InClass(chars, s[i]) && MatchAt(items[1..], s, i + 1)
      case Opt(chars) =>
        MatchAt(items[1..], s, i) || (i < |s| && InClass(chars, s[i]) && MatchAt(items[1..], s, i + 1))
      case Star(chars) =>
        MatchAt(items[1..], s, i) || (i < |s| && InClass(chars, s[i]) && MatchAt(items, s, i + 1))
      case Plus(chars) =>
        i < |s| && InClass(chars, s[i]) && (MatchAt(items[1..], s, i + 1) || MatchAt(items, s, i + 1))
  }

  /** MatchString: a match somewhere in the subject. */
  ghost predicate Matches(items: seq<Item>, s: string) {
    exists i :: 0 <= i <= |s| && MatchAt(items, s, i)
  }

  predicate Quantifier(c: char) {
    c in "*+?"
  }

  /** Brackets, braces, alternation and escapes: read only as far as the emitted patterns use them. */
  predicate Structural(c: char) {
    c in "()[{|\\"
  }

  /** An anchor or one character, and how many characters of the pattern it takes, or an unsupported construct. */
  function ParseAtom(p: string): (r: Option<(Item, nat)>)
    requires p != ""
    ensures r.Some? ==> 0 < r.value.1 <= |p|
  {
    if p[0] == '^' then Some((Begin, 1))
    else if p[0] == '$' then Some((End, 1))
    else if |p| >= 4 && p[..2] == "[^" && p[2] != ']' && p[2] != '\\' && p[3] == ']' then Some((One(Except(p[2])), 4))
    else if |p| >= 2 && p[..2] == "\\." then Some((One(Literal('.')), 2))
    else if p[0] == '.' then Some((One(Any), 1))
    else if Quantifier(p[0]) || Structural(p[0]) then None
    else Some((One(Literal(p[0])), 1))
  }

  /** Repeating an anchor adds nothing, and making it optional drops it. */
  function Repeated(atom: Item, quantifier: char): Item {
    if !atom.One? then (if quantifier == '+' then atom else Nothing)
    else if quantifier == '+' then Plus(atom.chars)
    else if quantifier == '*' then Star(atom.chars)
    else Opt(atom.chars)
  }

  /** A quantifier, and a `?` after it, which changes only what a match prefers. */
  function QuantifierLength(p: string): (n: nat)
    ensures n <= |p| && (n > 0 <==> p != "" && Quantifier(p[0]))
  {
    if p == "" || !Quantifier(p[0]) then 0
    else if |p| > 1 && p[1] == '?' then 2
    else 1
  }

  /**
   * One item and how many characters of the pattern it takes; an unsupported construct or a second quantifier is
   * none.
   */
  function ParseItem(p: string): (r: Option<(Item, nat)>)
    requires p != ""
    ensures r.Some? ==> 0 < r.value.1 <= |p|
  {
    var atom := ParseAtom(p);
    if atom.None? then None else
      var rest := p[atom.value.1..];
      var n := QuantifierLength(rest);
      if n == 0 then atom else Some((Repeated(atom.value.0, rest[0]), atom.value.1 + n))
  }

  /** The items of a pattern, or an unsupported construct. */
  function ParsePattern(p: string): Option<seq<Item>>
    decreases |p|
  {
    if p == "" then Some([]) else
      var first := ParseItem(p);
      if first.None? then None else
        var rest := ParsePattern(p[first.value.1..]);
        if rest.None? then None else Some([first.value.0] + rest.value)
  }

  // ----- the rule -----

  /** strings.ReplaceAll(s, ".", `\.`) */
  function EscapeDots(s: string): string {
    if s == "" then "" else (if s[0] == '.' then "\\." else [s[0]]) + EscapeDots(s[1..])
  }

  predicate IsWildcard(domain: string) {
    |domain| >= 2 && domain[..2] == "*."
  }

  function WildcardPattern(suffix: string): string {
    "^[^.]+\\." + EscapeDots(suffix) + "$"
  }

  function Rule(domain: string): string {
    if IsWildcard(domain) then "HostRegexp(`" + WildcardPattern(domain[2..]) + "`)" else "Host(`" + domain + "`)"
  }

  // ----- meaning -----

  /** A character that stands for itself in a pattern, or a dot, which the rule escapes. */
  predicate PlainChar(c: char) {
    !Quantifier(c) && !Structural(c) && c != '^' && c != '$'
  }

  predicate PlainText(s: string) {
    forall i :: 0 <= i < |s| ==> PlainChar(s[i])
  }

  /** One non-empty label without dots, a dot, and the suffix. */
  ghost predicate OneLabelUnder(host: string, suffix: string) {
    exists n :: 0 < n < |host| && '.' !in host[..n] && host[n..] == "." + suffix
  }

  function Letters(s: string): seq<Item> {
    if s == "" then [] else [One(Literal(s[0]))] + Letters(s[1..])
  }

  /** The items the emitted pattern stands for. */
  function WildcardItems(suffix: string): seq<Item> {
    [Begin, Plus(Except('.')), One(Literal('.'))] + Letters(suffix) + [End]
  }

  /** A parsed item in front of a parsed pattern. */
  lemma ParseFront(p: string, item: Item, n: nat, rest: seq<Item>)
    requires p != "" && 0 < n <= |p| && ParseItem(p) == Some((item, n)) && ParsePattern(p[n..]) == Some(rest)
    ensures ParsePattern(p) == Some([item] + rest)
  {
  }

  lemma ParseEnd()
    ensures ParsePattern("$") == Some([End])
  {
    assert "$"[1..] == "" && ParsePattern("") == Some([]);
    ParseFront("$", End, 1, []);
    assert [End] + [] == [End];
  }

  lemma {:induction false} PlainAtom(p: string)
    requires p != "" && PlainChar(p[0]) && p[0] != '.'
    ensures ParseAtom(p) == Some((One(Literal(p[0])), 1))
  {
  }

  /** An atom with no quantifier after it is the whole item. */
  lemma {:induction false} UnquantifiedItem(p: string, rest: string, n: nat)
    requires p != "" && rest != "" && !Quantifier(rest[0])
    requires ParseAtom(p).Some? && ParseAtom(p).value.1 == n && p[n..] == rest
    ensures ParseItem(p) == ParseAtom(p)
  {
  }

  /** One more domain character, not a dot, in front. */
  lemma ParseChar(c: char, rest: string, items: seq<Item>)
    requires rest != "" && !Quantifier(rest[0]) && ParsePattern(rest) == Some(items)
    requires PlainChar(c) && c != '.'
    ensures ParsePattern([c] + rest) == Some([One(Literal(c))] + items)
  {
    var p := [c] + rest;
    assert p[1..] == rest;
    PlainAtom(p);
    UnquantifiedItem(p, rest, 1);
    ParseFront(p, One(Literal(c)), 1, items);
  }

  lemma ParseEscapedDot(rest: string, items: seq<Item>)
    requires rest != "" && !Quantifier(rest[0]) && ParsePattern(rest) == Some(items)
    ensures ParsePattern("\\." + rest) == Some([One(Literal('.'))] + items)
  {
    var p := "\\." + rest;
    assert p[2..] == rest && p[..2] == "\\.";
    UnquantifiedItem(p, rest, 2);
    ParseFront(p, One(Literal('.')), 2, items);
  }

  lemma {:induction false} LabelItem(rest: string)
    requires rest != "" && rest[0] != '?'
    ensures ParseItem("[^.]+" + rest) == Some((Plus(Except('.')), 5)) && ("[^.]+" + rest)[5..] == rest
  {
    var q := "[^.]+" + rest;
    assert q[..2] == "[^" && q[2] == '.' && q[3] == ']';
    assert q[4..] == "+" + rest && q[4..][1] == rest[0];
  }

  lemma {:induction false} AnchorItem(rest: string)
    ensures ParseItem("^[^.]+" + rest) == Some((Begin, 1)) && ("^[^.]+" + rest)[1..] == "[^.]+" + rest
  {
    var p := "^[^.]+" + rest;
    assert p[1..] == "[^.]+" + rest && p[1..][0] == '[';
  }

  /** `^[^.]+` in front of anything but a quantifier. */
  lemma {:induction false} ParseLabel(rest: string)
    requires rest != "" && rest[0] != '?'
    ensures ParsePattern("^[^.]+" + rest)
         == if ParsePattern(rest).None? then None else Some([Begin] + ([Plus(Except('.'))] + ParsePattern(rest).value))
  {
    LabelItem(rest);
    AnchorItem(rest);
  }

  /** One more plain character, escaped if it is a dot, in front. */
  lemma {:induction false} ParsePlain(c: char, rest: string, items: seq<Item>)
    requires rest != "" && !Quantifier(rest[0]) && ParsePattern(rest) == Some(items) && PlainChar(c)
    ensures ParsePattern((if c == '.' then "\\." else [c]) + rest) == Some([One(Literal(c))] + items)
  {
    if c == '.' {
      ParseEscapedDot(rest, items);
    } else {
      ParseChar(c, rest, items);
    }
  }

  lemma {:induction false} SuffixParts(suffix: string)
    requires suffix != ""
    ensures EscapeDots(suffix) + "$"
            == (if suffix[0] == '.' then "\\." else [suffix[0]]) + (EscapeDots(suffix[1..]) + "$")
    ensures Letters(suffix) + [End] == [One(Literal(suffix[0]))] + (Letters(suffix[1..]) + [End])
  {
  }

  lemma {:induction false} ParseSuffix(suffix: string)
    requires PlainText(suffix)
    ensures ParsePattern(EscapeDots(suffix) + "$") == Some(Letters(suffix) + [End])
    ensures !Quantifier((EscapeDots(suffix) + "$")[0])
  {
    if suffix == "" {
      ParseEnd();
      assert EscapeDots(suffix) + "$" == "$" && Letters(suffix) + [End] == [End];
    } else {
      ParseSuffix(suffix[1..]);
      SuffixParts(suffix);
      ParsePlain(suffix[0], EscapeDots(suffix[1..]) + "$", Letters(suffix[1..]) + [End]);
    }
  }

  lemma {:induction false} PatternParts(suffix: string)
    ensures WildcardPattern(suffix) == "^[^.]+" + ("\\." + (EscapeDots(suffix) + "$"))
  {
  }

  lemma {:induction false} ItemParts(items: seq<Item>)
    ensures [Begin] + ([Plus(Except('.'))] + ([One(Literal('.'))] + items))
            == [Begin, Plus(Except('.')), One(Literal('.'))] + items
  {
  }

  lemma {:induction false} ParseWildcard(suffix: string)
    requires PlainText(suffix)
    ensures ParsePattern(WildcardPattern(suffix)) == Some(WildcardItems(suffix))
  {
    ParseSuffix(suffix);
    var tail := EscapeDots(suffix) + "$";
    var items := Letters(suffix) + [End];
    ParseEscapedDot(tail, items);
    ParseLabel("\\." + tail);
    PatternParts(suffix);
    ItemParts(items);
    assert [Begin, Plus(Except('.')), One(Literal('.'))] + items == WildcardItems(suffix);
  }

  lemma {:induction false} MatchLetters(suffix: string, s: string, i: nat)
    requires i <= |s|
    ensures MatchAt(Letters(suffix) + [End], s, i) <==> s[i..] == suffix
    decreases |suffix|
  {
    var items := Letters(suffix) + [End];
    if suffix == "" {
      assert items == [End] && items[1..] == [];
    } else {
      assert items[0] == One(Literal(suffix[0])) && items[1..] == Letters(suffix[1..]) + [End];
      if i < |s| {
        MatchLetters(suffix[1..], s, i + 1);
        assert s[i..][1..] == s[i + 1..];
        assert suffix == [suffix[0]] + suffix[1..];
        assert s[i..] == [s[i]] + s[i + 1..];
      }
    }
  }

  /** From `i` on: some more label characters, a dot, the suffix. */
  ghost predicate LabelFrom(s: string, i: nat, suffix: string)
    requires i <= |s|
  {
    exists n :: i < n < |s| && '.' !in s[i..n] && s[n..] == "." + suffix
  }

  /** The label, one character longer, from the dot or from the label after it. */
  lemma {:induction false} LabelStep(s: string, i: nat, suffix: string)
    requires i < |s|
    ensures LabelFrom(s, i, suffix) <==> s[i] != '.' && (s[i + 1..] == "." + suffix || LabelFrom(s, i + 1, suffix))
  {
    if s[i] != '.' && s[i + 1..] == "." + suffix {
      assert s[i..i + 1] == [s[i]] && |s[i + 1..]| > 0;
    }
    if s[i] != '.' && LabelFrom(s, i + 1, suffix) {
      var n :| i + 1 < n < |s| && '.' !in s[i + 1..n] && s[n..] == "." + suffix;
      assert s[i..n] == [s[i]] + s[i + 1..n];
    }
    if LabelFrom(s, i, suffix) {
      var n :| i < n < |s| && '.' !in s[i..n] && s[n..] == "." + suffix;
      assert s[i] == s[i..n][0];
      if n > i + 1 {
        assert s[i + 1..n] == s[i..n][1..];
      }
    }
  }

  lemma {:induction false} MatchDot(suffix: string, s: string, i: nat)
    requires i <= |s|
    ensures MatchAt([One(Literal('.'))] + Letters(suffix) + [End], s, i) <==> s[i..] == "." + suffix
  {
    var dot := [One(Literal('.'))] + Letters(suffix) + [End];
    assert dot[0] == One(Literal('.')) && dot[1..] == Letters(suffix) + [End];
    if i < |s| {
      MatchLetters(suffix, s, i + 1);
      assert s[i..] == [s[i]] + s[i + 1..];
      assert s[i] == '.' && s[i + 1..] == suffix <==> s[i..] == "." + suffix;
    }
  }

  lemma {:induction false} MatchLabel(suffix: string, s: string, i: nat)
    requires i <= |s|
    ensures MatchAt([Plus(Except('.')), One(Literal('.'))] + Letters(suffix) + [End], s, i) <==> LabelFrom(s, i, suffix)
    decreases |s| - i
  {
    var items := [Plus(Except('.')), One(Literal('.'))] + Letters(suffix) + [End];
    assert items[0] == Plus(Except('.')) && items[1..] == [One(Literal('.'))] + Letters(suffix) + [End];
    if i < |s| {
      MatchLabel(suffix, s, i + 1);
      MatchDot(suffix, s, i + 1);
      LabelStep(s, i, suffix);
    }
  }

  /**
   * The emitted pattern parses, and a host matches it exactly when it is one non-empty label without dots,
   * a dot and the suffix.
   */
  lemma WildcardMeaning(suffix: string, host: string)
    requires PlainText(suffix)
    ensures var parsed := ParsePattern(WildcardPattern(suffix));
            parsed.Some? && (Matches(parsed.value, host) <==> OneLabelUnder(host, suffix))
  {
    ParseWildcard(suffix);
    var items := WildcardItems(suffix);
    MatchLabel(suffix, host, 0);
    assert items[0] == Begin && items[1..] == [Plus(Except('.')), One(Literal('.'))] + Letters(suffix) + [End];
    assert MatchAt(items, host, 0) <==> LabelFrom(host, 0, suffix);
    assert forall n :: 0 <= n <= |host| ==> host[0..n] == host[..n];
    if OneLabelUnder(host, suffix) {
      var n :| 0 < n < |host| && '.' !in host[..n] && host[n..] == "." + suffix;
      assert '.' !in host[0..n];
      assert LabelFrom(host, 0, suffix);
    }
    if LabelFrom(host, 0, suffix) {
      var n :| 0 < n < |host| && '.' !in host[0..n] && host[n..] == "." + suffix;
      assert OneLabelUnder(host, suffix);
    }
  }

  // ----- special characters -----

  /** Dots only behind a backslash, backslashes only before a dot, no other structure. */
  predicate Escaped(p: string) {
    if p == "" then true
    else if p[0] == '\\' then |p| >= 2 && p[1] == '.' && Escaped(p[2..])
    else p[0] != '.' && !Structural(p[0]) && Escaped(p[1..])
  }

  lemma {:induction false} EscapedSuffix(suffix: string)
    requires forall i :: 0 <= i < |suffix| ==> !Structural(suffix[i])
    ensures Escaped(EscapeDots(suffix) + "$")
  {
    var p := EscapeDots(suffix) + "$";
    if suffix == "" {
      assert p == "$" && p[1..] == "";
    } else {
      EscapedSuffix(suffix[1..]);
      var rest := EscapeDots(suffix[1..]) + "$";
      if suffix[0] == '.' {
        assert p == "\\." + rest && p[2..] == rest;
      } else {
        assert p == [suffix[0]] + rest && p[1..] == rest;
      }
    }
  }

  /** An anchor, or a repetition of a character that is neither a quantifier nor an anchor. */
  predicate Tame(item: Item) {
    item.Nothing? || item.Begin? || item.End? || (item.chars.Literal? && PlainChar(item.chars.c))
  }

  predicate AllTame(items: seq<Item>) {
    forall i :: 0 <= i < |items| ==> Tame(items[i])
  }

  lemma {:induction false} EscapedAtom(p: string)
    requires p != "" && Escaped(p) && ParseAtom(p).Some?
    ensures Tame(ParseAtom(p).value.0) && Escaped(p[ParseAtom(p).value.1..])
    ensures ParseAtom(p).value == (End, 1) <==> p[ParseAtom(p).value.1 - 1] == '$'
  {
  }

  /**
   * Of an escaped pattern that ends in `$`, the first item is tame; the rest is such a pattern, or the item was
   * that `$`.
   */
  lemma {:induction false} EscapedItem(p: string)
    requires p != "" && p[|p| - 1] == '$' && Escaped(p) && ParseItem(p).Some?
    ensures var (item, n) := ParseItem(p).value;
            && Tame(item) && Escaped(p[n..])
            && (if n == |p| then item == End else p[n..][|p[n..]| - 1] == '$')
  {
    EscapedAtom(p);
    var k := ParseAtom(p).value.1;
    var rest := p[k..];
    var n := QuantifierLength(rest);
    if n == 1 {
      assert p[k + n..] == rest[1..];
    } else if n == 2 {
      assert p[k + n..] == rest[1..][1..] && rest[1..][0] == '?';
    }
  }

  predicate TameToEnd(items: seq<Item>) {
    AllTame(items) && items != [] && items[|items| - 1] == End
  }

  lemma {:induction false} TameFront(item: Item, items: seq<Item>)
    requires Tame(item) && (if items == [] then item == End else TameToEnd(items))
    ensures TameToEnd([item] + items)
  {
  }

  lemma {:induction false} EscapedItems(p: string)
    requires p != "" && p[|p| - 1] == '$' && Escaped(p) && ParsePattern(p).Some?
    ensures TameToEnd(ParsePattern(p).value)
    decreases |p|
  {
    EscapedItem(p);
    var (item, n) := ParseItem(p).value;
    var rest := p[n..];
    if n == |p| {
      assert rest == "" && ParsePattern(rest) == Some([]);
    } else {
      EscapedItems(rest);
    }
    TameFront(item, ParsePattern(rest).value);
  }

  /** What tame items match to the end is plain. */
  lemma {:induction false} TameMatch(items: seq<Item>, s: string, i: nat)
    requires TameToEnd(items) && i <= |s| && MatchAt(items, s, i)
    ensures PlainText(s[i..])
    decreases |items|, |s| - i
  {
    if i < |s| {
      assert Tame(items[0]);
      assert s[i..] == [s[i]] + s[i + 1..];
      if |items| > 1 {
        assert items[1..][|items| - 2] == End;
        if MatchAt(items[1..], s, i) {
          TameMatch(items[1..], s, i);
        } else if MatchAt(items[1..], s, i + 1) {
          TameMatch(items[1..], s, i + 1);
        } else {
          TameMatch(items, s, i + 1);
        }
      }
    }
  }

  /** The host `x.` and the suffix is refused if the suffix has a special character. */
  lemma {:induction false} SpecialRefused(suffix: string)
    requires (forall i :: 0 <= i < |suffix| ==> !Structural(suffix[i])) && !PlainText(suffix)
    ensures var parsed := ParsePattern(WildcardPattern(suffix));
            parsed.Some? ==> !Matches(parsed.value, "x." + suffix)
  {
    var host := "x." + suffix;
    var k :| 0 <= k < |suffix| && !PlainChar(suffix[k]);
    assert host[1..][k + 1] == suffix[k];
    var tail := "\\." + (EscapeDots(suffix) + "$");
    PatternParts(suffix);
    EscapedSuffix(suffix);
    assert tail[2..] == EscapeDots(suffix) + "$";
    ParseLabel(tail);
    if ParsePattern(tail).Some? && Matches([Begin] + ([Plus(Except('.'))] + ParsePattern(tail).value), host) {
      EscapedItems(tail);
      AfterLabel(ParsePattern(tail).value, host);
      TameMatch(ParsePattern(tail).value, host, 1);
      assert false;
    }
  }

  /** The label takes what is in front of the first dot. */
  lemma {:induction false} AfterLabel(items: seq<Item>, host: string)
    requires |host| > 1 && host[1] == '.' && Matches([Begin] + ([Plus(Except('.'))] + items), host)
    ensures MatchAt(items, host, 1)
  {
    var label_ := [Plus(Except('.'))] + items;
    assert label_[1..] == items && ([Begin] + label_)[1..] == label_;
    assert ([Begin] + label_)[0] == Begin && label_[0] == Plus(Except('.'));
    assert MatchAt(label_, host, 0) && !MatchAt(label_, host, 1);
  }

  /**
   * For every suffix without structural characters: the emitted pattern matches exactly the hosts of one label under
   * the suffix, if and only if no character of the suffix is a quantifier or an anchor.
   */
  lemma {:induction false} WildcardExactly(suffix: string)
    requires forall i :: 0 <= i < |suffix| ==> !Structural(suffix[i])
    ensures var parsed := ParsePattern(WildcardPattern(suffix));
            (parsed.Some? && forall host :: Matches(parsed.value, host) <==> OneLabelUnder(host, suffix))
                <==> PlainText(suffix)
  {
    if PlainText(suffix) {
      forall host: string
        ensures var parsed := ParsePattern(WildcardPattern(suffix));
                parsed.Some? && (Matches(parsed.value, host) <==> OneLabelUnder(host, suffix))
      {
        WildcardMeaning(suffix, host);
      }
      WildcardMeaning(suffix, "");
    } else {
      SpecialRefused(suffix);
      var host := "x." + suffix;
      assert host[..1] == "x" && host[1..] == "." + suffix;
      assert OneLabelUnder(host, suffix);
    }
  }

  function AabItems(): seq<Item> {
    [Plus(Literal('a')), One(Literal('b')), End]
  }

  lemma {:induction false} ParsePlus()
    ensures ParsePattern("a+b$") == Some(AabItems())
  {
    var p := "a+b$";
    ParseEnd();
    ParseChar('b', "$", [End]);
    assert ['b'] + "$" == "b$" && p[2..] == "b$";
    assert p[0] == 'a' && p[1] == '+';
    var rest := [One(Literal('b'))] + [End];
    ParseFront(p, Plus(Literal('a')), 2, rest);
    assert [Plus(Literal('a'))] + rest == AabItems();
  }

  lemma {:induction false} EscapedPlus()
    ensures WildcardPattern("a+b") == "^[^.]+" + ("\\." + "a+b$")
  {
    assert "b"[1..] == "" && EscapeDots("b") == "b";
    assert "+b"[1..] == "b" && EscapeDots("+b") == "+b";
    assert "a+b"[1..] == "+b" && EscapeDots("a+b") == "a+b";
    PatternParts("a+b");
  }

  /**
   * The condition on the suffix is needed: a special character is not escaped, and `a+b` matches what it should
   * not.
   */
  lemma {:induction false} SpecialSuffix()
    ensures var parsed := ParsePattern(WildcardPattern("a+b"));
            parsed.Some? && Matches(parsed.value, "x.aab") && !OneLabelUnder("x.aab", "a+b")
  {
    var a := AabItems();
    ParsePlus();
    ParseEscapedDot("a+b$", a);
    ParseLabel("\\." + "a+b$");
    EscapedPlus();
    MatchesAab(a);
    NotUnderPlus();
  }

  lemma {:induction false} NotUnderPlus()
    ensures !OneLabelUnder("x.aab", "a+b")
  {
    var host, suffix := "x.aab", "a+b";
    assert |"." + suffix| == 4 && ("." + suffix)[2] == '+';
    assert |host| == 5 && host[1..][2] == 'a';
  }

  lemma {:induction false} MatchesAab(a: seq<Item>)
    requires a == [Plus(Literal('a')), One(Literal('b')), End]
    ensures MatchAt([Begin] + ([Plus(Except('.'))] + ([One(Literal('.'))] + a)), "x.aab", 0)
  {
    var s := "x.aab";
    assert |s| == 5 && s[0] == 'x' && s[1] == '.' && s[2] == 'a' && s[3] == 'a' && s[4] == 'b';
    assert a[1..] == [One(Literal('b')), End] && a[1..][1..] == [End] && a[1..][1..][1..] == [];
    assert MatchAt([], s, 5) && MatchAt([End], s, 5);
    assert MatchAt(a[1..], s, 4);
    assert MatchAt(a, s, 3);
    assert MatchAt(a, s, 2);
    var dot := [One(Literal('.'))] + a;
    assert dot[1..] == a && MatchAt(dot, s, 1);
    var label_ := [Plus(Except('.'))] + dot;
    assert label_[1..] == dot && MatchAt(label_, s, 0);
    assert ([Begin] + label_)[1..] == label_;
  }
}
