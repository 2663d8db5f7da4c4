/**
 The simple regular expressions of the test framework: the validator, the
 mutually recursive matcher, and full and partial matching, against a grammar
 and a declarative language of their own.
 */
module SimpleRegex {
  import opened Common

  /** One past the largest string length an index can reach. */
  const SIZE_LIMIT := 0xFFFF_FFFF_FFFF_FFFF

  // ---------------------------------------------------------------------
  // Character classes
  // ---------------------------------------------------------------------

  /** A C string reads as '\0' at its end. */
  function At(s: string, i: nat): char {
    if i < |s| then s[i] else '\0'
  }

  // Membership tests list their characters; none of the lists contains '\0'.

  predicate IsAsciiDigit(ch: char) { '0' <= ch <= '9' }

  predicate IsAsciiPunct(ch: char) {
    ch in {'^', '-', '!', '"', '#', '$', '%', '&', '\'', '(', ')', '*', '+', ',', '.', '/', ':', ';', '<',
           '=', '>', '?', '@', '[', '\\', ']', '_', '`', '{', '|', '}', '~'}
  }

  predicate IsRepeat(ch: char) { ch in {'?', '*', '+'} }

  predicate IsUnsupported(ch: char) { ch in {'(', ')', '[', ']', '{', '}', '|'} }

  predicate IsAsciiWhiteSpace(ch: char) { ch in {' ', '\U{0C}', '\n', '\r', '\t', '\U{0B}'} }

  predicate IsAsciiWordChar(ch: char) {
    'a' <= ch <= 'z' || 'A' <= ch <= 'Z' || '0' <= ch <= '9' || ch == '_'
  }

  predicate IsValidEscape(c: char) {
    IsAsciiPunct(c) || c in {'d', 'D', 'f', 'n', 'r', 's', 'S', 't', 'v', 'w', 'W'}
  }

  predicate AtomMatchesChar(escaped: bool, pattern: char, ch: char) {
    if escaped then
      match pattern
      case 'd' => IsAsciiDigit(ch)
      case 'D' => !IsAsciiDigit(ch)
      case 'f' => ch == '\U{0C}'
      case 'n' => ch == '\n'
      case 'r' => ch == '\r'
      case 's' => IsAsciiWhiteSpace(ch)
      case 'S' => !IsAsciiWhiteSpace(ch)
      case 't' => ch == '\t'
      case 'v' => ch == '\U{0B}'
      case 'w' => IsAsciiWordChar(ch)
      case 'W' => !IsAsciiWordChar(ch)
      case _ => IsAsciiPunct(pattern) && pattern == ch
    else
      (pattern == '.' && ch != '\n') || pattern == ch
  }

  // ---------------------------------------------------------------------
  // What the classes stand for, by character codes
  // ---------------------------------------------------------------------

  ghost predicate Digit(c: int) { 48 <= c <= 57 }

  ghost predicate Letter(c: int) { 65 <= c <= 90 || 97 <= c <= 122 }

  /** The graphic characters, from '!' to '~', that are neither letter nor digit. */
  ghost predicate Punctuation(c: int) { 33 <= c <= 126 && !Letter(c) && !Digit(c) }

  /** Space, and tab to carriage return. */
  ghost predicate Space(c: int) { c == 32 || 9 <= c <= 13 }

  ghost predicate WordChar(c: int) { Letter(c) || Digit(c) || c == 95 }

  /** The letters that make a class or a control character when escaped. */
  ghost predicate ClassLetter(ch: char) {
    || ch == 'd' || ch == 'D' || ch == 's' || ch == 'S' || ch == 'w' || ch == 'W'
    || ch == 't' || ch == 'n' || ch == 'v' || ch == 'f' || ch == 'r'
  }

  /** The characters an atom stands for. */
  ghost predicate Denotes(escaped: bool, pattern: char, ch: char) {
    var c := ch as int;
    if !escaped then (if pattern == '.' then c != 10 else ch == pattern)
    else if !ClassLetter(pattern) then Punctuation(c) && ch == pattern
    else if pattern == 'd' then Digit(c)
    else if pattern == 'D' then !Digit(c)
    else if pattern == 's' then Space(c)
    else if pattern == 'S' then !Space(c)
    else if pattern == 'w' then WordChar(c)
    else if pattern == 'W' then !WordChar(c)
    else c == (if pattern == 't' then 9 else if pattern == 'n' then 10 else if pattern == 'v' then 11
               else if pattern == 'f' then 12 else 13)
  }

  /** For every character: the tests of the code are these classes. */
  lemma ClassesExact(ch: char)
    ensures IsAsciiDigit(ch) <==> Digit(ch as int)
    ensures IsAsciiPunct(ch) <==> Punctuation(ch as int)
    ensures IsAsciiWhiteSpace(ch) <==> Space(ch as int)
    ensures IsAsciiWordChar(ch) <==> WordChar(ch as int)
    ensures IsValidEscape(ch) <==> Punctuation(ch as int) || ClassLetter(ch)
    ensures IsRepeat(ch) <==> ch == '?' || ch == '*' || ch == '+'
    ensures IsUnsupported(ch) <==>
            ch == '(' || ch == ')' || ch == '[' || ch == ']' || ch == '{' || ch == '}' || ch == '|'
  {
  }

  /** An atom matches a character exactly when it stands for it. */
  lemma AtomExact(escaped: bool, pattern: char, ch: char)
    ensures AtomMatchesChar(escaped, pattern, ch) <==> Denotes(escaped, pattern, ch)
  {
    ClassesExact(ch);
    ClassesExact(pattern);
  }

  // ---------------------------------------------------------------------
  // Grammar: what a valid simple regular expression is
  // ---------------------------------------------------------------------

  datatype Repeat = Once | Maybe | Star | Plus

  /** An atom, c or \c, with its repetition. */
  datatype Item = Item(escaped: bool, ch: char, repeat: Repeat)

  datatype Regex = Regex(fromStart: bool, items: seq<Item>, toEnd: bool)

  /** The characters that stand for themselves, with '.' for any but a newline. */
  ghost predicate IsLiteral(ch: char) {
    && ch != '\0' && ch != '\\' && ch != '^' && ch != '$' && ch != '?' && ch != '*' && ch != '+'
    && ch != '(' && ch != ')' && ch != '[' && ch != ']' && ch != '{' && ch != '}' && ch != '|'
  }

  ghost predicate ValidItem(it: Item) {
    if it.escaped then Punctuation(it.ch as int) || ClassLetter(it.ch) else IsLiteral(it.ch)
  }

  function One(b: bool): nat { if b then 1 else 0 }

  /** Every character but NUL is exactly one of: literal, repetition, unsupported, backslash,
      '^', '$'. */
  lemma OneKind(ch: char)
    requires ch != '\0'
    ensures One(IsLiteral(ch)) + One(IsRepeat(ch)) + One(IsUnsupported(ch)) + One(ch == '\\') + One(ch == '^')
            + One(ch == '$') == 1
  {
    ClassesExact(ch);
  }

  lemma ValidItemFacts(it: Item)
    ensures ValidItem(it) <==> if it.escaped then IsValidEscape(it.ch) else it.ch != '\0' && IsLiteral(it.ch)
    ensures IsLiteral(it.ch) <==> !IsUnsupported(it.ch) && !IsRepeat(it.ch) && it.ch !in {'\0', '\\', '^', '$'}
  {
    ClassesExact(it.ch);
  }

  ghost predicate ValidItems(items: seq<Item>) {
    forall i | 0 <= i < |items| :: ValidItem(items[i])
  }

  function RepeatText(r: Repeat): string {
    match r
    case Once => ""
    case Maybe => "?"
    case Star => "*"
    case Plus => "+"
  }

  function AtomText(escaped: bool, c: char): string {
    if escaped then ['\\', c] else [c]
  }

  function ShowItem(it: Item): string {
    AtomText(it.escaped, it.ch) + RepeatText(it.repeat)
  }

  function ShowItems(items: seq<Item>, toEnd: bool): string {
    if items == [] then (if toEnd then "$" else "") else ShowItem(items[0]) + ShowItems(items[1..], toEnd)
  }

  function Show(re: Regex): string {
    if re.fromStart then "^" + ShowItems(re.items, re.toEnd) else ShowItems(re.items, re.toEnd)
  }

  /** The validator's scan of a suffix; `prev` says that a repetition may follow. */
  predicate ScanOk(s: string, prev: bool)
    decreases |s|
  {
    if s == [] then true
    else if s[0] == '\\' then
      |s| > 1 && IsValidEscape(s[1]) && ScanOk(s[2..], true)
    else
      && s[0] != '^' && !(s[0] == '$' && |s| > 1) && !IsUnsupported(s[0])
      && (IsRepeat(s[0]) ==> prev)
      && ScanOk(s[1..], !IsRepeat(s[0]) && s[0] != '$')
  }

  /** A '^' is accepted only as the first character. */
  predicate ValidRegex(s: string) {
    if s != [] && s[0] == '^' then ScanOk(s[1..], false) else ScanOk(s, false)
  }

  /** The repetition that leads a suffix, the items after it, and the end anchor. */
  datatype Suffix = Suffix(lead: Repeat, items: seq<Item>, toEnd: bool)

  ghost function ParseSuffix(s: string, prev: bool): Suffix
    requires ScanOk(s, prev)
    decreases |s|
  {
    if s == [] then Suffix(Once, [], false)
    else if s[0] == '\\' then
      var rest := ParseSuffix(s[2..], true);
      Suffix(Once, [Item(true, s[1], rest.lead)] + rest.items, rest.toEnd)
    else if s[0] == '$' then Suffix(Once, [], true)
    else if s[0] == '?' then ParseSuffix(s[1..], false).(lead := Maybe)
    else if s[0] == '*' then ParseSuffix(s[1..], false).(lead := Star)
    else if s[0] == '+' then ParseSuffix(s[1..], false).(lead := Plus)
    else
      var rest := ParseSuffix(s[1..], true);
      Suffix(Once, [Item(false, s[0], rest.lead)] + rest.items, rest.toEnd)
  }

  ghost function Parse(s: string): Regex
    requires ValidRegex(s)
  {
    var anchored := s != [] && s[0] == '^';
    var p := ParseSuffix(if anchored then s[1..] else s, false);
    Regex(anchored, p.items, p.toEnd)
  }

  /** Parsing then printing gives the text back, with a well-formed tree. */
  lemma {:induction false} ParseSuffixShows(s: string, prev: bool)
    requires ScanOk(s, prev)
    ensures Shows(s, ParseSuffix(s, prev)) && (!prev ==> ParseSuffix(s, prev).lead == Once)
    decreases |s|
  {
    if s == [] {
    } else if s[0] == '\\' {
      ParseSuffixShows(s[2..], true);
      EscapeShows(s, prev);
    } else if s[0] == '$' {
      AnchorShows(s, prev);
    } else if IsRepeat(s[0]) {
      ParseSuffixShows(s[1..], false);
      RepeatShows(s, prev);
    } else {
      ParseSuffixShows(s[1..], true);
      LiteralShows(s, prev);
    }
  }

  ghost predicate Shows(s: string, p: Suffix) {
    s == RepeatText(p.lead) + ShowItems(p.items, p.toEnd)
  }

  lemma EscapeShows(s: string, prev: bool)
    requires s != [] && s[0] == '\\' && ScanOk(s, prev) && Shows(s[2..], ParseSuffix(s[2..], true))
    ensures Shows(s, ParseSuffix(s, prev)) && ParseSuffix(s, prev).lead == Once
  {
    var p := ParseSuffix(s[2..], true);
    ShowCons(true, s[1], p.lead, p.items, p.toEnd, s[2..]);
    assert s == ['\\', s[1]] + s[2..];
  }

  lemma LiteralShows(s: string, prev: bool)
    requires s != [] && s[0] !in {'\\', '$'} && !IsRepeat(s[0])
    requires ScanOk(s, prev) && Shows(s[1..], ParseSuffix(s[1..], true))
    ensures Shows(s, ParseSuffix(s, prev)) && ParseSuffix(s, prev).lead == Once
  {
    var p := ParseSuffix(s[1..], true);
    ShowCons(false, s[0], p.lead, p.items, p.toEnd, s[1..]);
    assert s == [s[0]] + s[1..];
  }

  lemma AnchorShows(s: string, prev: bool)
    requires s != [] && s[0] == '$' && ScanOk(s, prev)
    ensures Shows(s, ParseSuffix(s, prev)) && ParseSuffix(s, prev).lead == Once
  {
    assert s == "$";
  }

  lemma RepeatShows(s: string, prev: bool)
    requires s != [] && IsRepeat(s[0]) && ScanOk(s, prev)
    requires ParseSuffix(s[1..], false).lead == Once && Shows(s[1..], ParseSuffix(s[1..], false))
    ensures Shows(s, ParseSuffix(s, prev)) && prev
  {
    assert s == [s[0]] + s[1..];
  }

  lemma {:induction false} ParseSuffixValid(s: string, prev: bool)
    requires ScanOk(s, prev) && '\0' !in s
    ensures ValidItems(ParseSuffix(s, prev).items)
    decreases |s|
  {
    if s == [] {
    } else if s[0] == '\\' {
      ParseSuffixValid(s[2..], true);
      ValidItemFacts(Item(true, s[1], Once));
    } else if IsRepeat(s[0]) {
      ParseSuffixValid(s[1..], false);
    } else if s[0] != '$' {
      ParseSuffixValid(s[1..], true);
      ValidItemFacts(Item(false, s[0], Once));
    }
  }

  lemma ShowCons(escaped: bool, c: char, lead: Repeat, items: seq<Item>, toEnd: bool, rest: string)
    requires rest == RepeatText(lead) + ShowItems(items, toEnd)
    ensures ShowItems([Item(escaped, c, lead)] + items, toEnd) == AtomText(escaped, c) + rest
  {
    assert ([Item(escaped, c, lead)] + items)[1..] == items;
  }

  /** `s` scans, whatever came before it, to exactly these items and anchor. */
  ghost predicate ScansTo(s: string, items: seq<Item>, toEnd: bool) {
    forall prev :: ScanOk(s, prev) && ParseSuffix(s, prev) == Suffix(Once, items, toEnd)
  }

  lemma RepeatScans(r: Repeat, rest: string, items: seq<Item>, toEnd: bool)
    requires ScansTo(rest, items, toEnd)
    ensures ScanOk(RepeatText(r) + rest, true)
    ensures ParseSuffix(RepeatText(r) + rest, true) == Suffix(r, items, toEnd)
  {
    var s := RepeatText(r) + rest;
    if r == Once {
      assert s == rest;
    } else {
      assert s[1..] == rest;
    }
  }

  lemma ItemScans(it: Item, rest: string, items: seq<Item>, toEnd: bool)
    requires ValidItem(it) && ScansTo(rest, items, toEnd)
    ensures ScansTo(ShowItem(it) + rest, [it] + items, toEnd)
  {
    var s := ShowItem(it) + rest;
    ValidItemFacts(it);
    RepeatScans(it.repeat, rest, items, toEnd);
    if it.escaped {
      assert s[2..] == RepeatText(it.repeat) + rest;
    } else {
      assert s[1..] == RepeatText(it.repeat) + rest;
    }
  }

  /** Printing then parsing gives the tree back. */
  lemma {:induction false} ShowScans(items: seq<Item>, toEnd: bool)
    requires ValidItems(items)
    ensures ScansTo(ShowItems(items, toEnd), items, toEnd)
  {
    if items == [] {
    } else {
      ShowScans(items[1..], toEnd);
      ItemScans(items[0], ShowItems(items[1..], toEnd), items[1..], toEnd);
      assert items == [items[0]] + items[1..];
    }
  }

  lemma ItemsStart(items: seq<Item>, toEnd: bool)
    requires ValidItems(items)
    ensures ShowItems(items, toEnd) != [] ==> ShowItems(items, toEnd)[0] != '^'
  {
  }

  ghost predicate WellFormed(re: Regex) {
    ValidItems(re.items)
  }

  lemma ParseOfShow(re: Regex)
    requires WellFormed(re)
    ensures ValidRegex(Show(re)) && Parse(Show(re)) == re
  {
    ShowScans(re.items, re.toEnd);
    ItemsStart(re.items, re.toEnd);
    if re.fromStart {
      assert Show(re)[1..] == ShowItems(re.items, re.toEnd);
    } else {
      assert Show(re) == ShowItems(re.items, re.toEnd);
    }
  }

  lemma ShowOfParse(s: string)
    requires ValidRegex(s) && '\0' !in s
    ensures WellFormed(Parse(s)) && Show(Parse(s)) == s
  {
    var tail := if s != [] && s[0] == '^' then s[1..] else s;
    ParseSuffixShows(tail, false);
    ParseSuffixValid(tail, false);
    assert s != [] ==> s == [s[0]] + s[1..];
  }

  /** The validator accepts exactly the texts of well-formed expressions. */
  method ValidateRegex(regex: Option<string>) returns (valid: bool)
    requires regex.Some? ==> '\0' !in regex.value
    ensures valid <==> exists re :: WellFormed(re) && regex == Some(Show(re))
    ensures valid ==> ValidRegex(regex.value)
  {
    if regex == None {
      return false;
    }
    valid := Scan(regex.value);
    if valid {
      ShowOfParse(regex.value);
    } else if re :| WellFormed(re) && regex == Some(Show(re)) {
      ParseOfShow(re);
      assert false;
    }
  }

  method Scan(regex: string) returns (valid: bool)
    requires '\0' !in regex
    ensures valid == ValidRegex(regex)
  {
    valid := true;
    var prevRepeatable := false;
    var i := 0;
    while At(regex, i) != '\0'
      invariant 0 <= i <= |regex|
      invariant i == 0 ==> valid && !prevRepeatable
      invariant i > 0 ==> ValidRegex(regex) == (valid && ScanOk(regex[i..], prevRepeatable))
      decreases |regex| - i
    {
      ghost var rest := regex[i..];
      assert rest[0] == regex[i] && rest[1..] == regex[i + 1..];
      if regex[i] == '\\' {
        i := i + 1;
        if At(regex, i) == '\0' {
          return false;
        }
        assert rest[1] == regex[i] && rest[2..] == regex[i + 1..];
        if !IsValidEscape(regex[i]) {
          valid := false;
        }
        prevRepeatable := true;
      } else {
        var ch := regex[i];
        if ch == '^' && i > 0 {
          valid := false;
        } else if ch == '$' && At(regex, i + 1) != '\0' {
          valid := false;
        } else if IsUnsupported(ch) {
          valid := false;
        } else if IsRepeat(ch) && !prevRepeatable {
          valid := false;
        }
        prevRepeatable := !IsRepeat(ch) && ch !in {'^', '$'};
      }
      i := i + 1;
    }
    assert regex[i..] == [];
  }

  // ---------------------------------------------------------------------
  // Meaning: the language of a sequence of items
  // ---------------------------------------------------------------------

  ghost predicate CountAllowed(r: Repeat, k: nat) {
    match r
    case Once => k == 1
    case Maybe => k <= 1
    case Star => true
    case Plus => k >= 1
  }

  /** An item matches a word: an allowed number of characters, each matching the atom. */
  ghost predicate ItemMatches(it: Item, w: string) {
    CountAllowed(it.repeat, |w|) && forall i | 0 <= i < |w| :: Denotes(it.escaped, it.ch, w[i])
  }

  function Concat(words: seq<string>): string {
    if words == [] then "" else words[0] + Concat(words[1..])
  }

  ghost predicate Spells(items: seq<Item>, words: seq<string>, s: string) {
    && |words| == |items| && Concat(words) == s
    && forall i | 0 <= i < |items| :: ItemMatches(items[i], words[i])
  }

  /** s is the concatenation of one word per item. */
  ghost predicate InLanguage(items: seq<Item>, s: string) {
    exists words :: Spells(items, words, s)
  }

  /** Some prefix of s, all of s if anchored, is in the language. */
  ghost predicate MatchesHead(items: seq<Item>, toEnd: bool, s: string) {
    exists n | 0 <= n <= |s| :: InLanguage(items, s[..n]) && (toEnd ==> n == |s|)
  }

  /** Some substring of s that respects the anchors is in the language. */
  ghost predicate MatchesWithin(re: Regex, s: string) {
    exists i, j | 0 <= i <= j <= |s| ::
      InLanguage(re.items, s[i..j]) && (re.fromStart ==> i == 0) && (re.toEnd ==> j == |s|)
  }

  lemma LanguageOfNone(s: string)
    ensures InLanguage([], s) <==> s == []
  {
    assert s == [] ==> Spells([], [], s);
  }

  lemma LanguageSplit(items: seq<Item>, s: string) returns (k: nat)
    requires items != [] && InLanguage(items, s)
    ensures k <= |s| && ItemMatches(items[0], s[..k]) && InLanguage(items[1..], s[k..])
  {
    var words :| Spells(items, words, s);
    k := |words[0]|;
    assert s[..k] == words[0] && s[k..] == Concat(words[1..]);
    assert Spells(items[1..], words[1..], s[k..]);
  }

  lemma LanguageJoin(items: seq<Item>, s: string, k: nat)
    requires items != [] && k <= |s| && ItemMatches(items[0], s[..k]) && InLanguage(items[1..], s[k..])
    ensures InLanguage(items, s)
  {
    var words :| Spells(items[1..], words, s[k..]);
    assert s == s[..k] + s[k..];
    assert ([s[..k]] + words)[1..] == words;
    assert Spells(items, [s[..k]] + words, s);
  }

  /** The first item takes some number k of characters, the others match after it. */
  ghost predicate HeadStep(items: seq<Item>, toEnd: bool, s: string, k: nat)
    requires items != []
  {
    k <= |s| && ItemMatches(items[0], s[..k]) && MatchesHead(items[1..], toEnd, s[k..])
  }

  lemma MatchesHeadNone(toEnd: bool, s: string)
    ensures MatchesHead([], toEnd, s) <==> (toEnd ==> s == [])
  {
    LanguageOfNone(s[..0]);
    if MatchesHead([], toEnd, s) {
      var n :| 0 <= n <= |s| && InLanguage([], s[..n]) && (toEnd ==> n == |s|);
      LanguageOfNone(s[..n]);
    }
  }

  lemma MatchesHeadSplit(items: seq<Item>, toEnd: bool, s: string) returns (k: nat)
    requires items != [] && MatchesHead(items, toEnd, s)
    ensures HeadStep(items, toEnd, s, k)
  {
    var n :| 0 <= n <= |s| && InLanguage(items, s[..n]) && (toEnd ==> n == |s|);
    k := LanguageSplit(items, s[..n]);
    assert s[..n][..k] == s[..k] && s[..n][k..] == s[k..][..n - k];
  }

  lemma MatchesHeadJoin(items: seq<Item>, toEnd: bool, s: string, k: nat)
    requires items != [] && HeadStep(items, toEnd, s, k)
    ensures MatchesHead(items, toEnd, s)
  {
    var n :| 0 <= n <= |s| - k && InLanguage(items[1..], s[k..][..n]) && (toEnd ==> n == |s| - k);
    assert s[..k + n][..k] == s[..k] && s[..k + n][k..] == s[k..][..n];
    LanguageJoin(items, s[..k + n], k);
  }

  lemma MatchesHeadIff(items: seq<Item>, toEnd: bool, s: string)
    requires items != []
    ensures MatchesHead(items, toEnd, s) <==> exists k: nat :: HeadStep(items, toEnd, s, k)
  {
    if MatchesHead(items, toEnd, s) {
      var k := MatchesHeadSplit(items, toEnd, s);
    }
    if k: nat :| HeadStep(items, toEnd, s, k) {
      MatchesHeadJoin(items, toEnd, s, k);
    }
  }

  lemma MatchesHeadOnce(items: seq<Item>, toEnd: bool, s: string)
    requires items != [] && items[0].repeat == Once
    ensures MatchesHead(items, toEnd, s) <==>
            s != [] && Denotes(items[0].escaped, items[0].ch, s[0])
            && MatchesHead(items[1..], toEnd, s[1..])
  {
    MatchesHeadIff(items, toEnd, s);
    if s != [] && Denotes(items[0].escaped, items[0].ch, s[0]) && MatchesHead(items[1..], toEnd, s[1..]) {
      assert HeadStep(items, toEnd, s, 1);
    }
  }

  // ---------------------------------------------------------------------
  // The matcher
  // ---------------------------------------------------------------------

  ghost predicate ValidTail(regex: string) {
    '\0' !in regex && ScanOk(regex, false)
  }

  ghost predicate TailMatches(regex: string, str: string)
    requires ValidTail(regex)
  {
    var p := ParseSuffix(regex, false);
    MatchesHead(p.items, p.toEnd, str)
  }

  ghost function RepeatOf(c: char): Repeat
    requires IsRepeat(c)
  {
    if c == '?' then Maybe else if c == '*' then Star else Plus
  }

  /** How the text of a non-empty tail begins: an atom, then a repetition or none,
      then a tail again. */
  lemma FirstItem(regex: string, escaped: bool, atom: string)
    requires ValidTail(regex) && regex != [] && regex[0] != '$'
    requires escaped == (regex[0] == '\\') && atom == if escaped then regex[1..] else regex
    ensures atom != []
    ensures var n := if IsRepeat(At(atom, 1)) then 2 else 1;
            var repeat := if n == 2 then RepeatOf(atom[1]) else Once;
            && ValidTail(atom[n..])
            && var q := ParseSuffix(atom[n..], false);
            ParseSuffix(regex, false) == Suffix(Once, [Item(escaped, atom[0], repeat)] + q.items, q.toEnd)
  {
    assert atom[1..] == if escaped then regex[2..] else regex[1..];
    AfterAtom(atom[1..]);
    if IsRepeat(At(atom, 1)) {
      assert atom[1..][1..] == atom[2..];
    }
  }

  lemma AfterAtom(s: string)
    requires ScanOk(s, true)
    ensures if s != [] && IsRepeat(s[0])
            then ScanOk(s[1..], false) && ParseSuffix(s, true) == ParseSuffix(s[1..], false).(lead := RepeatOf(s[0]))
            else ScanOk(s, false) && ParseSuffix(s, true) == ParseSuffix(s, false)
                 && ParseSuffix(s, false).lead == Once
  {
  }

  /** A repeated atom followed by the rest of the expression matches at the head
      exactly when some allowed number of repetitions does. */
  method MatchRepetitionAndRegexAtHead(escaped: bool, c: char, repeat: char, regex: string, str: string)
    returns (r: bool)
    requires IsRepeat(repeat) && ValidTail(regex) && '\0' !in str && |str| < SIZE_LIMIT
    ensures r <==> exists k: nat :: k <= |str| && ItemMatches(Item(escaped, c, RepeatOf(repeat)), str[..k])
                                 && TailMatches(regex, str[k..])
    decreases |regex|, 1
  {
    var minCount := if repeat == '+' then 1 else 0;
    var maxCount := if repeat == '?' then 1 else SIZE_LIMIT - 1;
    var i := 0;
    while i <= maxCount
      invariant 0 <= i <= |str|
      invariant forall j | 0 <= j < i :: Denotes(escaped, c, str[j])
      invariant forall k: nat | k < i && CountAllowed(RepeatOf(repeat), k) :: !TailMatches(regex, str[k..])
      decreases |str| - i
    {
      if i >= minCount {
        var tail := MatchRegexAtHead(regex, str[i..]);
        if tail {
          return true;
        }
      }
      AtomExact(escaped, c, At(str, i));
      if At(str, i) == '\0' || !AtomMatchesChar(escaped, c, str[i]) {
        return false;
      }
      i := i + 1;
    }
    return false;
  }

  /** Matches at the head exactly when some prefix is in the expression's language. */
  method MatchRegexAtHead(regex: string, str: string) returns (r: bool)
    requires ValidTail(regex) && '\0' !in str && |str| < SIZE_LIMIT
    ensures r <==> TailMatches(regex, str)
    decreases |regex|, 0
  {
    ghost var p := ParseSuffix(regex, false);
    if At(regex, 0) == '\0' {
      MatchesHeadNone(p.toEnd, str);
      return true;
    }
    if regex[0] == '$' {
      MatchesHeadNone(p.toEnd, str);
      return At(str, 0) == '\0';
    }
    var escaped := regex[0] == '\\';
    var rest := if escaped then regex[1..] else regex;
    FirstItem(regex, escaped, rest);
    if IsRepeat(At(rest, 1)) {
      assert p.items[1..] == ParseSuffix(rest[2..], false).items;
      MatchesHeadIff(p.items, p.toEnd, str);
      assert forall k: nat :: HeadStep(p.items, p.toEnd, str, k) <==>
                              (k <= |str| && ItemMatches(p.items[0], str[..k]) && TailMatches(rest[2..], str[k..]));
      r := MatchRepetitionAndRegexAtHead(escaped, rest[0], rest[1], rest[2..], str);
    } else {
      assert p.items[1..] == ParseSuffix(rest[1..], false).items;
      MatchesHeadOnce(p.items, p.toEnd, str);
      AtomExact(escaped, rest[0], At(str, 0));
      r := At(str, 0) != '\0' && AtomMatchesChar(escaped, rest[0], str[0]);
      if r {
        r := MatchRegexAtHead(rest[1..], str[1..]);
      }
    }
  }

  lemma AnywhereIffHead(re: Regex, s: string, i: nat)
    requires i <= |s| && (re.fromStart ==> i == 0) && MatchesHead(re.items, re.toEnd, s[i..])
    ensures MatchesWithin(re, s)
  {
    var n :| 0 <= n <= |s| - i && InLanguage(re.items, s[i..][..n]) && (re.toEnd ==> n == |s| - i);
    assert s[i..][..n] == s[i..i + n];
  }

  lemma HeadIfAnywhere(re: Regex, s: string) returns (i: nat)
    requires MatchesWithin(re, s)
    ensures i <= |s| && (re.fromStart ==> i == 0) && MatchesHead(re.items, re.toEnd, s[i..])
  {
    var k, j :| 0 <= k <= j <= |s| && InLanguage(re.items, s[k..j]) && (re.fromStart ==> k == 0)
                && (re.toEnd ==> j == |s|);
    assert s[k..][..j - k] == s[k..j];
    i := k;
  }

  /** Matches anywhere exactly when some substring that respects the anchors is in
      the language. */
  method MatchRegexAnywhere(regex: Option<string>, str: Option<string>) returns (r: bool)
    requires regex.Some? ==> '\0' !in regex.value && ValidRegex(regex.value)
    requires str.Some? ==> '\0' !in str.value && |str.value| < SIZE_LIMIT
    ensures r <==> regex.Some? && str.Some? && MatchesWithin(Parse(regex.value), str.value)
  {
    if regex == None || str == None {
      return false;
    }
    var rx, s := regex.value, str.value;
    ghost var re := Parse(rx);
    if At(rx, 0) == '^' {
      r := MatchRegexAtHead(rx[1..], s);
      assert s[0..] == s;
      if r {
        AnywhereIffHead(re, s, 0);
      } else if MatchesWithin(re, s) {
        var i := HeadIfAnywhere(re, s);
      }
      return;
    }
    var i := 0;
    while true
      invariant 0 <= i <= |s|
      invariant forall k | 0 <= k < i :: !MatchesHead(re.items, re.toEnd, s[k..])
      decreases |s| - i
    {
      var here := MatchRegexAtHead(rx, s[i..]);
      if here {
        AnywhereIffHead(re, s, i);
        return true;
      }
      if At(s, i) == '\0' {
        break;
      }
      i := i + 1;
    }
    if MatchesWithin(re, s) {
      var k := HeadIfAnywhere(re, s);
      assert false;
    }
    return false;
  }

  // ---------------------------------------------------------------------
  // Full and partial matching
  // ---------------------------------------------------------------------

  /** The text ends in '$' although the expression has no end anchor. */
  ghost predicate EndsInEscapedDollar(re: Regex) {
    !re.toEnd && re.items != [] && re.items[|re.items| - 1] == Item(true, '$', Once)
  }

  /** What a full match decides: the whole string is in the language, except that an
      expression ending in an escaped '$' accepts a mere prefix. */
  ghost predicate FullMatchMeaning(re: Regex, s: string) {
    if EndsInEscapedDollar(re) then MatchesHead(re.items, false, s) else InLanguage(re.items, s)
  }

  function FullPattern(regex: string): string {
    var begun := if At(regex, 0) != '^' then "^" + regex else regex;
    if |regex| == 0 || regex[|regex| - 1] != '$' then begun + "$" else begun
  }

  lemma {:induction false} ShowItemsEnd(items: seq<Item>)
    requires ValidItems(items)
    ensures ShowItems(items, true) == ShowItems(items, false) + "$"
    ensures var t := ShowItems(items, false);
            t != [] && t[|t| - 1] == '$' <==> EndsInEscapedDollar(Regex(false, items, false))
  {
    if items != [] {
      ShowItemsEnd(items[1..]);
      var t := ShowItems(items[1..], false);
      assert ShowItem(items[0]) + (t + "$") == (ShowItem(items[0]) + t) + "$";
      if |items| == 1 {
        LastOfItem(items[0]);
        assert ShowItems(items, false) == ShowItem(items[0]);
      } else {
        assert t != [];
      }
    }
  }

  lemma LastOfItem(it: Item)
    requires ValidItem(it)
    ensures var t := ShowItem(it); t[|t| - 1] == '$' <==> it == Item(true, '$', Once)
  {
  }

  /** The full pattern is the same expression anchored at both ends, unless the text
      ends in an escaped '$'. */
  lemma FullPatternShows(re: Regex)
    requires WellFormed(re)
    ensures FullPattern(Show(re)) == Show(Regex(true, re.items, !EndsInEscapedDollar(re)))
  {
    var base, t := ShowItems(re.items, re.toEnd), Show(re);
    ShowItemsEnd(re.items);
    OpenedText(re);
    EndOfText(re);
    if !re.toEnd && !EndsInEscapedDollar(re) {
      assert ("^" + base) + "$" == "^" + (base + "$");
    }
  }

  lemma OpenedText(re: Regex)
    requires WellFormed(re)
    ensures var t := Show(re);
            (if At(t, 0) != '^' then "^" + t else t) == "^" + ShowItems(re.items, re.toEnd)
  {
    ItemsStart(re.items, re.toEnd);
  }

  lemma EndOfText(re: Regex)
    requires WellFormed(re)
    ensures var t := Show(re); |t| == 0 || t[|t| - 1] != '$' <==> !re.toEnd && !EndsInEscapedDollar(re)
  {
    var base, t := ShowItems(re.items, re.toEnd), Show(re);
    ShowItemsEnd(re.items);
    if base != [] {
      assert t[|t| - 1] == base[|base| - 1];
    }
  }

  lemma AnchoredMeaning(re: Regex, s: string)
    ensures MatchesWithin(Regex(true, re.items, !EndsInEscapedDollar(re)), s) <==> FullMatchMeaning(re, s)
  {
    var full := Regex(true, re.items, !EndsInEscapedDollar(re));
    assert s[0..] == s && s[..|s|] == s && s[0..|s|] == s;
    if MatchesWithin(full, s) {
      var i := HeadIfAnywhere(full, s);
    }
    if FullMatchMeaning(re, s) {
      AnywhereIffHead(full, s, 0);
    }
  }

  /** A character the atom matches. */
  function SampleChar(it: Item): char {
    if !it.escaped then it.ch
    else match it.ch
      case 'd' => '0'
      case 'D' => 'a'
      case 'f' => '\U{0C}'
      case 'n' => '\n'
      case 'r' => '\r'
      case 's' => ' '
      case 'S' => 'a'
      case 't' => '\t'
      case 'v' => '\U{0B}'
      case 'w' => 'a'
      case 'W' => ' '
      case _ => it.ch
  }

  lemma SampleCharMatches(it: Item)
    requires ValidItem(it)
    ensures SampleChar(it) != '\0' && Denotes(it.escaped, it.ch, SampleChar(it))
  {
  }

  /** No valid expression has an empty language. */
  lemma {:induction false} LanguageInhabited(items: seq<Item>) returns (w: string)
    requires ValidItems(items)
    ensures InLanguage(items, w) && '\0' !in w
  {
    if items == [] {
      w := "";
      LanguageOfNone(w);
    } else {
      var rest := LanguageInhabited(items[1..]);
      var c := SampleChar(items[0]);
      SampleCharMatches(items[0]);
      w := [c] + rest;
      assert w[..1] == [c] && w[1..] == rest;
      LanguageJoin(items, w, 1);
    }
  }

  /** Every word of an expression ending in an escaped '$' ends in '$'. */
  lemma {:induction false} WordEndsInDollar(items: seq<Item>, w: string)
    requires items != [] && items[|items| - 1] == Item(true, '$', Once) && InLanguage(items, w)
    ensures w != [] && w[|w| - 1] == '$'
  {
    var k := LanguageSplit(items, w);
    if |items| == 1 {
      LanguageOfNone(w[k..]);
    } else {
      WordEndsInDollar(items[1..], w[k..]);
    }
  }

  /** Full matching decides membership for every string if and only if the
      expression does not end in an escaped '$'. */
  lemma FullMatchExact(re: Regex)
    requires WellFormed(re)
    ensures (forall s | '\0' !in s :: FullMatchMeaning(re, s) <==> InLanguage(re.items, s))
            <==> !EndsInEscapedDollar(re)
  {
    if EndsInEscapedDollar(re) {
      var w := LanguageInhabited(re.items);
      var s := w + "x";
      assert s[..|w|] == w;
      if InLanguage(re.items, s) {
        WordEndsInDollar(re.items, s);
      }
      assert FullMatchMeaning(re, s) && !InLanguage(re.items, s);
    }
  }

  /** Such an expression: \$ accepts "$x" as a full match. */
  lemma EscapedDollarOvermatches()
    ensures var re := Regex(false, [Item(true, '$', Once)], false);
            && WellFormed(re) && Show(re) == "\\$" && FullPattern(Show(re)) == "^\\$"
            && FullMatchMeaning(re, "$x") && !InLanguage(re.items, "$x")
  {
    var items := [Item(true, '$', Once)];
    LanguageOfNone("");
    assert "$"[..1] == "$" && "$"[1..] == "" && items[1..] == [];
    LanguageJoin(items, "$", 1);
    assert "$x"[..1] == "$";
    if InLanguage(items, "$x") {
      WordEndsInDollar(items, "$x");
    }
  }

  class RE {
    var pattern: Option<string>
    var fullPattern: Option<string>
    var isValid: bool

    ghost predicate Valid()
      reads this
    {
      isValid ==>
        && pattern.Some? && '\0' !in pattern.value && ValidRegex(pattern.value)
        && fullPattern == Some(FullPattern(pattern.value))
    }

    constructor Init(regex: Option<string>)
      requires regex.Some? ==> '\0' !in regex.value
      ensures Valid() && pattern == regex
      ensures isValid <==> exists re :: WellFormed(re) && regex == Some(Show(re))
    {
      pattern := regex;
      fullPattern := None;
      var ok := ValidateRegex(regex);
      isValid := ok;
      if ok {
        var buffer := "";
        if At(regex.value, 0) != '^' {
          buffer := buffer + "^";
        }
        buffer := buffer + regex.value;
        if |regex.value| == 0 || regex.value[|regex.value| - 1] != '$' {
          buffer := buffer + "$";
        }
        assert buffer == FullPattern(regex.value);
        fullPattern := Some(buffer);
      }
    }

    static method FullMatch(str: Option<string>, re: RE) returns (r: bool)
      requires re.Valid()
      requires str.Some? ==> '\0' !in str.value && |str.value| < SIZE_LIMIT
      ensures r <==> re.isValid && str.Some? && FullMatchMeaning(Parse(re.pattern.value), str.value)
    {
      if !re.isValid {
        return false;
      }
      ghost var rx := Parse(re.pattern.value);
      ghost var full := Regex(true, rx.items, !EndsInEscapedDollar(rx));
      ShowOfParse(re.pattern.value);
      FullPatternShows(rx);
      ParseOfShow(full);
      r := MatchRegexAnywhere(re.fullPattern, str);
      if str.Some? {
        AnchoredMeaning(rx, str.value);
      }
    }

    static method PartialMatch(str: Option<string>, re: RE) returns (r: bool)
      requires re.Valid()
      requires str.Some? ==> '\0' !in str.value && |str.value| < SIZE_LIMIT
      ensures r <==> re.isValid && str.Some? && MatchesWithin(Parse(re.pattern.value), str.value)
    {
      if !re.isValid {
        return false;
      }
      r := MatchRegexAnywhere(re.pattern, str);
    }
  }
}
