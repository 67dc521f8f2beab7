/** Splitting a compile command into arguments, without running it. */
module CommandLine {
  import opened Common

  datatype Outcome = Arguments(args: seq<string>) | UnterminatedEscape | UnterminatedQuote

  /** Characters with the Unicode property White_Space. */
  predicate IsSpace(c: char) {
    || '\U{9}' <= c <= '\U{D}' || c == ' ' || c == '\U{85}' || c == '\U{A0}' || c == '\U{1680}'
    || '\U{2000}' <= c <= '\U{200A}' || c == '\U{2028}' || c == '\U{2029}' || c == '\U{202F}' || c == '\U{205F}' || c == '\U{3000}'
  }

  /** Finished arguments, the one being read, the open quote, and whether there is one being read. */
  datatype Scan = Scan(args: seq<string>, arg: string, quote: Option<char>, active: bool) {
    function Put(text: string): Scan {
      this.(arg := arg + text, active := true)
    }

    function Toggle(mark: char): Scan {
      this.(quote := if quote == Some(mark) then None else Some(mark), active := true)
    }

    function Flush(): Scan {
      if active then Scan(args + [arg], "", quote, false) else this
    }

    predicate Valid() {
      !active ==> arg == ""
    }
  }

  const START := Scan([], "", None, false)

  function Repeat(c: char, n: nat): string {
    seq(n, (i: nat) => c)
  }

  /** The backslashes at the front. */
  function SlashRun(cs: string): (n: nat)
    ensures n <= |cs|
  {
    if cs == [] || cs[0] != '\\' then 0 else 1 + SlashRun(cs[1..])
  }

  /** Inside double quotes a backslash escapes only these. */
  predicate Escapable(c: char) {
    c == '"' || c == '\\' || c == '$' || c == '`' || c == '\n'
  }

  function Kept(c: char): string {
    if c == '\n' then "" else [c]
  }

  predicate StartsWith(cs: string, c: char) {
    cs != [] && cs[0] == c
  }

  datatype Move = Fail | Go(read: nat, scan: Scan)

  /** One turn of the scan: how many characters it reads and where it gets. */
  function Next(cs: string, s: Scan, windows: bool): (m: Move)
    requires cs != []
    ensures m.Go? ==> 0 < m.read <= |cs|
  {
    var c := cs[0];
    if c == '\\' && s.quote != Some('\'') then
      if windows then
        var n := SlashRun(cs);
        if StartsWith(cs[n..], '"') then
          if n % 2 == 1 then Go(n + 1, s.Put(Repeat('\\', n / 2) + ['"']))
          else Go(n + 1, s.Put(Repeat('\\', n / 2)).Toggle('"'))
        else Go(n, s.Put(Repeat('\\', n)))
      else if s.quote == Some('"') then
        if |cs| > 1 && Escapable(cs[1]) then Go(2, s.Put(Kept(cs[1]))) else Go(1, s.Put("\\"))
      else if |cs| == 1 then Fail
      else Go(2, s.Put(Kept(cs[1])))
    else if c == '"' || (c == '\'' && !windows) then
      if windows && s.quote == Some(c) && StartsWith(cs[1..], '"') then Go(2, s.Put([c]))
      else if s.quote == Some(c) || s.quote == None then Go(1, s.Toggle(c))
      else Go(1, s.Put([c]))
    else if IsSpace(c) && s.quote == None then Go(1, s.Flush())
    else Go(1, s.Put([c]))
  }

  /** The scan of the characters still to come. */
  function Run(cs: string, s: Scan, windows: bool): Outcome
    decreases |cs|
  {
    if cs == [] then
      if s.quote.Some? then UnterminatedQuote else Arguments(s.Flush().args)
    else
      match Next(cs, s, windows)
      case Fail => UnterminatedEscape
      case Go(n, after) => Run(cs[n..], after, windows)
  }

  /** Reads the run of backslashes at `from`. */
  method CountSlashes(command: string, from: nat) returns (next: nat)
    requires from <= |command|
    ensures from <= next <= |command|
    ensures next - from == SlashRun(command[from..])
  {
    next := from;
    while next < |command| && command[next] == '\\'
      invariant from <= next <= |command|
      invariant next - from + SlashRun(command[next..]) == SlashRun(command[from..])
    {
      next := next + 1;
    }
  }

  /** The loop body: one turn from position `i`. */
  method Turn(command: string, i: nat, s: Scan, windows: bool) returns (ok: bool, end: nat, after: Scan)
    requires i < |command|
    ensures ok ==> i < end <= |command|
    ensures Next(command[i..], s, windows) == if ok then Go(end - i, after) else Fail
  {
    ok, end, after := true, i + 1, s;
    ghost var rest := command[i..];
    var c := command[i];
    if c == '\\' && s.quote != Some('\'') {
      if windows {
        end := CountSlashes(command, i);
        var count := end - i;
        assert rest[count..] == command[end..];
        if end < |command| && command[end] == '"' {
          end := end + 1;
          if count % 2 == 1 {
            after := s.Put(Repeat('\\', count / 2) + ['"']);
          } else {
            after := s.Put(Repeat('\\', count / 2)).Toggle('"');
          }
        } else {
          after := s.Put(Repeat('\\', count));
        }
      } else if s.quote == Some('"') {
        if i + 1 < |command| && Escapable(command[i + 1]) {
          after := s.Put(Kept(command[i + 1]));
          end := i + 2;
        } else {
          after := s.Put("\\");
        }
      } else if i + 1 == |command| {
        ok := false;
      } else {
        after := s.Put(Kept(command[i + 1]));
        end := i + 2;
      }
    } else if c == '"' || (c == '\'' && !windows) {
      assert StartsWith(rest[1..], '"') <==> i + 1 < |command| && command[i + 1] == '"';
      if windows && s.quote == Some(c) && i + 1 < |command| && command[i + 1] == '"' {
        end := i + 2;
        after := s.Put([c]);
      } else if s.quote == Some(c) || s.quote == None {
        after := s.Toggle(c);
      } else {
        after := s.Put([c]);
      }
    } else if IsSpace(c) && s.quote == None {
      after := s.Flush();
    } else {
      after := s.Put([c]);
    }
  }

  method CommandArguments(command: string, windows: bool) returns (outcome: Outcome)
    ensures outcome == Run(command, START, windows)
  {
    hide Next;
    var s := START;
    var i := 0;
    assert command[0..] == command;
    while i < |command|
      invariant 0 <= i <= |command|
      invariant Run(command[i..], s, windows) == Run(command, START, windows)
      decreases |command| - i
    {
      var ok, end, after := Turn(command, i, s, windows);
      if !ok { return UnterminatedEscape; }
      assert command[i..][end - i..] == command[end..];
      i, s := end, after;
    }
    if s.quote.Some? { return UnterminatedQuote; }
    return Arguments(s.Flush().args);
  }

  // ---- POSIX quoting: section 2.2 of the Shell Command Language, POSIX.1-2017 ----

  datatype DoubleItem =
    | Plain(c: char)
    | Escaped(c: char)   // a backslash before `"`, `\`, `$` or a backquote disappears
    | KeptSlash(c: char) // before anything else it stays
    | Joined             // before a newline both disappear

  datatype Lexeme = Gap(c: char) | Bare(c: char) | Escape(c: char) | Continuation | Single(text: string) | Double(items: seq<DoubleItem>)

  predicate ItemOk(item: DoubleItem) {
    match item
    case Plain(c) => c != '"' && c != '\\'
    case Escaped(c) => Escapable(c) && c != '\n'
    case KeptSlash(c) => !Escapable(c)
    case Joined => true
  }

  predicate LexemeOk(l: Lexeme) {
    match l
    case Gap(c) => IsSpace(c)
    case Bare(c) => !IsSpace(c) && c != '"' && c != '\'' && c != '\\'
    case Escape(c) => c != '\n'
    case Continuation => true
    case Single(text) => '\'' !in text
    case Double(items) => forall i :: 0 <= i < |items| ==> ItemOk(items[i])
  }

  predicate AllOk(ls: seq<Lexeme>) {
    forall i :: 0 <= i < |ls| ==> LexemeOk(ls[i])
  }

  function SpellItem(item: DoubleItem): string {
    match item
    case Plain(c) => [c]
    case Escaped(c) => ['\\', c]
    case KeptSlash(c) => ['\\', c]
    case Joined => ['\\', '\n']
  }

  function SpellItems(items: seq<DoubleItem>): string {
    if items == [] then "" else SpellItem(items[0]) + SpellItems(items[1..])
  }

  function ItemsValue(items: seq<DoubleItem>): string {
    if items == [] then ""
    else
      (match items[0]
       case Plain(c) => [c]
       case Escaped(c) => [c]
       case KeptSlash(c) => ['\\', c]
       case Joined => "") + ItemsValue(items[1..])
  }

  function SpellOne(l: Lexeme): string {
    match l
    case Gap(c) => [c]
    case Bare(c) => [c]
    case Escape(c) => ['\\', c]
    case Continuation => ['\\', '\n']
    case Single(text) => ['\''] + text + ['\'']
    case Double(items) => ['"'] + SpellItems(items) + ['"']
  }

  function Spell(ls: seq<Lexeme>): string {
    if ls == [] then "" else SpellOne(ls[0]) + Spell(ls[1..])
  }

  /** What a lexeme contributes to its argument. */
  function Value(l: Lexeme): string {
    match l
    case Gap(_) => ""
    case Bare(c) => [c]
    case Escape(c) => [c]
    case Continuation => ""
    case Single(text) => text
    case Double(items) => ItemsValue(items)
  }

  function Opened(word: Option<string>): string {
    if word.Some? then word.value else ""
  }

  function Closed(word: Option<string>): seq<string> {
    if word.Some? then [word.value] else []
  }

  /** The arguments: runs of lexemes between gaps; `word` is what was read of the first. */
  function Words(ls: seq<Lexeme>, word: Option<string>): seq<string> {
    if ls == [] then Closed(word)
    else if ls[0].Gap? then Closed(word) + Words(ls[1..], None)
    else Words(ls[1..], Some(Opened(word) + Value(ls[0])))
  }

  function Pending(s: Scan): Option<string> {
    if s.active then Some(s.arg) else None
  }

  lemma {:induction false} SingleQuoted(text: string, rest: string, s: Scan)
    requires s.quote == Some('\'') && '\'' !in text
    ensures Run(text + ['\''] + rest, s, false) == Run(rest, s.Put(text).Toggle('\''), false)
  {
    var cs := text + ['\''] + rest;
    if text == [] {
      assert cs[1..] == rest;
      assert s.Put(text).Toggle('\'') == s.Toggle('\'');
    } else {
      assert cs[1..] == text[1..] + ['\''] + rest;
      SingleQuoted(text[1..], rest, s.Put([text[0]]));
      assert [text[0]] + text[1..] == text;
      assert s.Put([text[0]]).Put(text[1..]) == s.Put(text);
    }
  }

  lemma {:induction false} ItemRun(item: DoubleItem, rest: string, s: Scan)
    requires s.quote == Some('"') && ItemOk(item)
    ensures Run(SpellItem(item) + rest, s, false) == Run(rest, s.Put(ItemsValue([item])), false)
  {
    var cs := SpellItem(item) + rest;
    match item
    case Plain(c) =>
      assert cs[1..] == rest;
      assert ItemsValue([item]) == [c];
    case Escaped(c) =>
      assert cs[2..] == rest;
      assert ItemsValue([item]) == [c];
    case Joined =>
      assert cs[2..] == rest;
      assert ItemsValue([item]) == "";
    case KeptSlash(c) =>
      assert cs[1..] == [c] + rest;
      assert ([c] + rest)[1..] == rest;
      assert ItemsValue([item]) == ['\\', c];
      assert s.Put("\\").Put([c]) == s.Put(['\\', c]);
  }

  lemma {:induction false} DoubleQuoted(items: seq<DoubleItem>, rest: string, s: Scan)
    requires s.quote == Some('"') && forall i :: 0 <= i < |items| ==> ItemOk(items[i])
    ensures Run(SpellItems(items) + ['"'] + rest, s, false) == Run(rest, s.Put(ItemsValue(items)).Toggle('"'), false)
  {
    if items == [] {
      assert SpellItems(items) + ['"'] + rest == ['"'] + rest;
      assert (['"'] + rest)[1..] == rest;
      assert s.Put("").Toggle('"') == s.Toggle('"');
    } else {
      hide Run, Next;
      var tail := SpellItems(items[1..]) + ['"'] + rest;
      Regroup(SpellItem(items[0]), SpellItems(items[1..]), ['"'], rest);
      ItemRun(items[0], tail, s);
      var after := s.Put(ItemsValue([items[0]]));
      DoubleQuoted(items[1..], rest, after);
      ItemsSplit(items);
      PutTwice(s, ItemsValue([items[0]]), ItemsValue(items[1..]));
      hide *;
    }
  }

  lemma {:induction false} Regroup(a: string, b: string, c: string, d: string)
    ensures a + b + c + d == a + (b + c + d)
  {}

  lemma {:induction false} PutTwice(s: Scan, a: string, b: string)
    ensures s.Put(a).Put(b) == s.Put(a + b)
  {
    assert s.arg + a + b == s.arg + (a + b);
  }

  lemma {:induction false} ItemsSplit(items: seq<DoubleItem>)
    requires items != []
    ensures ItemsValue(items) == ItemsValue([items[0]]) + ItemsValue(items[1..])
  {
    assert [items[0]][1..] == [];
  }

  /** One lexeme read outside quotes. */
  lemma {:induction false} LexemeRun(l: Lexeme, rest: string, s: Scan)
    requires s.quote == None && LexemeOk(l)
    ensures Run(SpellOne(l) + rest, s, false) == Run(rest, if l.Gap? then s.Flush() else s.Put(Value(l)), false)
  {
    var cs := SpellOne(l) + rest;
    match l
    case Gap(c) => assert cs[1..] == rest;
    case Bare(c) => assert cs[1..] == rest;
    case Escape(c) => assert cs[2..] == rest;
    case Continuation => assert cs[2..] == rest;
    case Single(text) => SingleRun(text, rest, s);
    case Double(items) => DoubleRun(items, rest, s);
  }

  lemma {:induction false} OpenQuote(mark: char, rest: string, s: Scan, windows: bool)
    requires s.quote == None && (mark == '"' || (mark == '\'' && !windows))
    ensures Run([mark] + rest, s, windows) == Run(rest, s.Toggle(mark), windows)
  {
    assert ([mark] + rest)[1..] == rest;
  }

  lemma {:induction false} SingleRun(text: string, rest: string, s: Scan)
    requires s.quote == None && '\'' !in text
    ensures Run(['\''] + text + ['\''] + rest, s, false) == Run(rest, s.Put(text), false)
  {
    hide Run, Next;
    Regroup(['\''], text, ['\''], rest);
    OpenQuote('\'', text + ['\''] + rest, s, false);
    SingleQuoted(text, rest, s.Toggle('\''));
    assert s.Toggle('\'').Put(text).Toggle('\'') == s.Put(text);
  }

  lemma {:induction false} DoubleRun(items: seq<DoubleItem>, rest: string, s: Scan)
    requires s.quote == None && forall i :: 0 <= i < |items| ==> ItemOk(items[i])
    ensures Run(['"'] + SpellItems(items) + ['"'] + rest, s, false) == Run(rest, s.Put(ItemsValue(items)), false)
  {
    hide Run, Next, SpellItems, ItemsValue;
    Regroup(['"'], SpellItems(items), ['"'], rest);
    OpenQuote('"', SpellItems(items) + ['"'] + rest, s, false);
    DoubleQuoted(items, rest, s.Toggle('"'));
    assert s.Toggle('"').Put(ItemsValue(items)).Toggle('"') == s.Put(ItemsValue(items));
  }

  lemma {:induction false} SpelledRun(ls: seq<Lexeme>, s: Scan)
    requires AllOk(ls) && s.quote == None && s.Valid()
    ensures Run(Spell(ls), s, false) == Arguments(s.args + Words(ls, Pending(s)))
  {
    if ls != [] {
      hide Run, Next, LexemeOk, SpellOne, Value;
      var after := if ls[0].Gap? then s.Flush() else s.Put(Value(ls[0]));
      LexemeRun(ls[0], Spell(ls[1..]), s);
      SpelledRun(ls[1..], after);
      ReadOne(ls, s);
      hide Words, Spell, Pending;
    }
  }

  /** What was read plus what is still to come stays the same. */
  lemma {:induction false} ReadOne(ls: seq<Lexeme>, s: Scan)
    requires ls != [] && s.Valid()
    ensures var after := if ls[0].Gap? then s.Flush() else s.Put(Value(ls[0]));
            after.args + Words(ls[1..], Pending(after)) == s.args + Words(ls, Pending(s))
  {
    hide Value;
    if ls[0].Gap? {
      assert s.args + (Closed(Pending(s)) + Words(ls[1..], None)) == s.args + Closed(Pending(s)) + Words(ls[1..], None);
      assert s.args + [] == s.args;
    }
  }

  /** However its words are quoted, a spelled command line splits into the values of its words. */
  lemma {:induction false} SpelledCommandSplits(ls: seq<Lexeme>)
    requires AllOk(ls)
    ensures Run(Spell(ls), START, false) == Arguments(Words(ls, None))
  {
    SpelledRun(ls, START);
    assert START.args + Words(ls, None) == Words(ls, None);
  }

  // ---- Nothing else is accepted ----

  lemma {:induction false} SingleQuoteCloses(cs: string, s: Scan) returns (text: string, rest: string)
    requires s.quote == Some('\'') && Run(cs, s, false).Arguments?
    ensures '\'' !in text && cs == text + ['\''] + rest
    decreases |cs|
  {
    if cs[0] == '\'' {
      text, rest := "", cs[1..];
    } else {
      text, rest := SingleQuoteCloses(cs[1..], s.Put([cs[0]]));
      text := [cs[0]] + text;
    }
  }

  lemma {:induction false} DoubleQuoteCloses(cs: string, s: Scan) returns (items: seq<DoubleItem>, rest: string)
    requires s.quote == Some('"') && Run(cs, s, false).Arguments?
    ensures (forall i :: 0 <= i < |items| ==> ItemOk(items[i])) && cs == SpellItems(items) + ['"'] + rest
    decreases |cs|
  {
    if cs[0] == '"' {
      items, rest := [], cs[1..];
    } else {
      var item := FirstItem(cs, s);
      var after := cs[|SpellItem(item)|..];
      assert cs == SpellItem(item) + after;
      ItemRun(item, after, s);
      hide Run, Next;
      items, rest := DoubleQuoteCloses(after, s.Put(ItemsValue([item])));
      assert ([item] + items)[1..] == items;
      items := [item] + items;
    }
  }

  lemma {:induction false} FirstItem(cs: string, s: Scan) returns (item: DoubleItem)
    requires s.quote == Some('"') && Run(cs, s, false).Arguments? && cs[0] != '"'
    ensures ItemOk(item) && SpellItem(item) <= cs
  {
    if cs[0] != '\\' {
      item := Plain(cs[0]);
    } else {
      assert Run(cs[1..], s.Put("\\"), false).UnterminatedQuote? || |cs| > 1;
      item := if cs[1] == '\n' then Joined else if Escapable(cs[1]) then Escaped(cs[1]) else KeptSlash(cs[1]);
    }
  }

  lemma {:induction false} AcceptedIsSpelled(cs: string, s: Scan) returns (ls: seq<Lexeme>)
    requires s.quote == None && Run(cs, s, false).Arguments?
    ensures AllOk(ls) && Spell(ls) == cs
    decreases |cs|
  {
    if cs == [] {
      ls := [];
    } else {
      var l := FirstLexeme(cs, s);
      var after := cs[|SpellOne(l)|..];
      assert cs == SpellOne(l) + after;
      LexemeRun(l, after, s);
      ls := AcceptedIsSpelled(after, if l.Gap? then s.Flush() else s.Put(Value(l)));
      ls := [l] + ls;
    }
  }

  lemma {:induction false} FirstLexeme(cs: string, s: Scan) returns (l: Lexeme)
    requires cs != [] && s.quote == None && Run(cs, s, false).Arguments?
    ensures LexemeOk(l) && SpellOne(l) != [] && SpellOne(l) <= cs
  {
    var c := cs[0];
    if c == '\'' {
      var text, rest := SingleQuoteCloses(cs[1..], s.Toggle(c));
      l := Single(text);
      assert cs == ['\''] + cs[1..];
    } else if c == '"' {
      var items, rest := DoubleQuoteCloses(cs[1..], s.Toggle(c));
      l := Double(items);
      assert cs == ['"'] + cs[1..];
    } else if c == '\\' {
      l := if cs[1] == '\n' then Continuation else Escape(cs[1]);
    } else {
      l := if IsSpace(c) then Gap(c) else Bare(c);
    }
  }

  /** A command is accepted exactly when it is a sequence of complete POSIX lexemes; its arguments are then theirs. */
  lemma {:induction false} AcceptedExactlyWhenSpelled(command: string)
    ensures Run(command, START, false).Arguments? <==> exists ls :: AllOk(ls) && Spell(ls) == command
    ensures forall ls :: AllOk(ls) && Spell(ls) == command ==> Run(command, START, false) == Arguments(Words(ls, None))
  {
    forall ls | AllOk(ls) && Spell(ls) == command ensures Run(command, START, false) == Arguments(Words(ls, None)) {
      SpelledCommandSplits(ls);
    }
    if Run(command, START, false).Arguments? {
      var ls := AcceptedIsSpelled(command, START);
    }
  }

  // ---- Printers ----

  /** Single quotes around everything; a single quote itself is written outside them. */
  function SingleStyle(arg: string): seq<Lexeme> {
    if '\'' !in arg then [Single(arg)]
    else
      var n := FirstQuote(arg);
      [Single(arg[..n]), Escape('\'')] + SingleStyle(arg[n + 1..])
  }

  function FirstQuote(arg: string): (n: nat)
    requires '\'' in arg
    ensures n < |arg| && arg[n] == '\'' && '\'' !in arg[..n]
  {
    if arg[0] == '\'' then 0 else 1 + FirstQuote(arg[1..])
  }

  /** Double quotes around everything, with a backslash before each character that needs one. */
  function DoubleStyle(arg: string): seq<Lexeme> {
    [Double(seq(|arg|, i requires 0 <= i < |arg| => if Escapable(arg[i]) && arg[i] != '\n' then Escaped(arg[i]) else Plain(arg[i])))]
  }

  datatype Style = SingleQuotes | DoubleQuotes

  function Quoted(style: Style, arg: string): seq<Lexeme> {
    if style.SingleQuotes? then SingleStyle(arg) else DoubleStyle(arg)
  }

  /** Arguments separated by blanks, each quoted in its own style. */
  function Printed(args: seq<string>, styles: seq<Style>): seq<Lexeme>
    requires |args| == |styles|
  {
    if args == [] then []
    else Quoted(styles[0], args[0]) + (if |args| == 1 then [] else [Gap(' ')] + Printed(args[1..], styles[1..]))
  }

  lemma {:induction false} WordsAppend(piece: seq<Lexeme>, rest: seq<Lexeme>, word: Option<string>)
    requires forall i :: 0 <= i < |piece| ==> !piece[i].Gap?
    ensures piece != [] ==> Words(piece + rest, word) == Words(rest, Some(Opened(word) + Spoken(piece)))
    ensures piece == [] ==> Words(piece + rest, word) == Words(rest, word)
  {
    hide Value;
    if piece == [] {
      assert piece + rest == rest;
    } else {
      assert (piece + rest)[1..] == piece[1..] + rest;
      var after := Some(Opened(word) + Value(piece[0]));
      assert Words(piece + rest, word) == Words(piece[1..] + rest, after);
      WordsAppend(piece[1..], rest, after);
      hide Words;
      if |piece| == 1 {
        assert Opened(word) + (Value(piece[0]) + "") == Opened(word) + Value(piece[0]);
        assert Spoken(piece) == Value(piece[0]) + "";
      } else {
        assert Opened(word) + (Value(piece[0]) + Spoken(piece[1..])) == Opened(after) + Spoken(piece[1..]);
      }
    }
  }

  /** The value of consecutive lexemes without a gap. */
  function Spoken(piece: seq<Lexeme>): string {
    if piece == [] then "" else Value(piece[0]) + Spoken(piece[1..])
  }

  /** Lexemes of one argument. */
  ghost predicate Says(piece: seq<Lexeme>, arg: string) {
    piece != [] && AllOk(piece) && (forall i :: 0 <= i < |piece| ==> !piece[i].Gap?) && Spoken(piece) == arg
  }

  lemma {:induction false} SaysMore(l: Lexeme, piece: seq<Lexeme>, arg: string)
    requires LexemeOk(l) && !l.Gap? && Says(piece, arg)
    ensures Says([l] + piece, Value(l) + arg)
  {
    hide LexemeOk, Value;
    assert ([l] + piece)[1..] == piece;
  }

  lemma {:induction false} SaysOne(l: Lexeme)
    requires LexemeOk(l) && !l.Gap?
    ensures Says([l], Value(l))
  {
    hide LexemeOk, Value;
    assert [l][1..] == [];
    assert Spoken([l]) == Value(l) + Spoken([]);
    assert Value(l) + "" == Value(l);
  }

  lemma {:induction false} SingleStyleSays(arg: string)
    ensures Says(SingleStyle(arg), arg)
    decreases |arg|
  {
    if '\'' !in arg {
      SaysOne(Single(arg));
    } else {
      var n := FirstQuote(arg);
      var tail, front, quote := SingleStyle(arg[n + 1..]), Single(arg[..n]), Escape('\'');
      SingleStyleSays(arg[n + 1..]);
      assert SingleStyle(arg) == [front] + ([quote] + tail);
      assert LexemeOk(quote) && LexemeOk(front) && Value(quote) == [arg[n]] && Value(front) == arg[..n];
      hide Says, SingleStyle, LexemeOk, Value;
      SaysMore(quote, tail, arg[n + 1..]);
      SaysMore(front, [quote] + tail, [arg[n]] + arg[n + 1..]);
      Rejoin(arg, n);
    }
  }

  lemma {:induction false} Rejoin(text: string, n: nat)
    requires n < |text|
    ensures text[..n] + ([text[n]] + text[n + 1..]) == text
  {}

  lemma {:induction false} DoubleStyleSays(arg: string)
    ensures Says(DoubleStyle(arg), arg)
  {
    var items := DoubleStyle(arg)[0].items;
    PlainItems(arg, items);
    SaysOne(Double(items));
  }

  lemma {:induction false} PlainItems(arg: string, items: seq<DoubleItem>)
    requires |items| == |arg|
    requires forall i :: 0 <= i < |arg| ==> items[i] == if Escapable(arg[i]) && arg[i] != '\n' then Escaped(arg[i]) else Plain(arg[i])
    ensures ItemsValue(items) == arg
  {
    if arg != [] {
      PlainItems(arg[1..], items[1..]);
    }
  }

  lemma {:induction false} LastWord(piece: seq<Lexeme>, arg: string)
    requires Says(piece, arg)
    ensures Words(piece, None) == [arg]
  {
    WordsAppend(piece, [], None);
    assert piece + [] == piece;
    assert Opened(None) + arg == arg;
    assert Words([], Some(arg)) == [arg];
    hide Words, Spoken, AllOk;
  }

  lemma {:induction false} WordBeforeGap(piece: seq<Lexeme>, arg: string, tail: seq<Lexeme>)
    requires Says(piece, arg) && AllOk(tail)
    ensures Words(piece + ([Gap(' ')] + tail), None) == [arg] + Words(tail, None)
    ensures AllOk(piece + ([Gap(' ')] + tail))
  {
    WordsAppend(piece, [Gap(' ')] + tail, None);
    assert Opened(None) + arg == arg;
    assert ([Gap(' ')] + tail)[1..] == tail;
    assert LexemeOk(Gap(' '));
    hide LexemeOk, Value, Spoken;
  }

  lemma {:induction false} PrintedSays(args: seq<string>, styles: seq<Style>)
    requires |args| == |styles|
    ensures AllOk(Printed(args, styles)) && Words(Printed(args, styles), None) == args
  {
    if args != [] {
      var piece := Quoted(styles[0], args[0]);
      SingleStyleSays(args[0]);
      DoubleStyleSays(args[0]);
      hide SingleStyle, DoubleStyle, Spoken, LexemeOk, Words;
      if |args| == 1 {
        LastWord(piece, args[0]);
        assert args == [args[0]] && piece + [] == piece;
      } else {
        var tail := Printed(args[1..], styles[1..]);
        PrintedSays(args[1..], styles[1..]);
        WordBeforeGap(piece, args[0], tail);
        assert Printed(args, styles) == piece + ([Gap(' ')] + tail);
        hide *;
        assert [args[0]] + args[1..] == args;
      }
    } else {
      assert Words([], None) == [];
    }
  }

  /** Every list of arguments, each quoted in either style, is read back. */
  lemma {:induction false} PosixRoundTrip(args: seq<string>, styles: seq<Style>)
    requires |args| == |styles|
    ensures Run(Spell(Printed(args, styles)), START, false) == Arguments(args)
  {
    PrintedSays(args, styles);
    SpelledCommandSplits(Printed(args, styles));
  }

  // ---- The fields of the shell ----

  /** What separates fields: the blanks of the POSIX locale, and the newline that ends a command. */
  predicate IsBlank(c: char) {
    c == ' ' || c == '\t' || c == '\n'
  }

  /** Other white space is an ordinary character of a field. */
  function FieldText(l: Lexeme): string {
    if l.Gap? then [l.c] else Value(l)
  }

  /** The fields that sections 2.2 and 2.3 give: a backslash and newline is removed before there are fields. */
  function Fields(ls: seq<Lexeme>, word: Option<string>): seq<string> {
    if ls == [] then Closed(word)
    else if ls[0].Gap? && IsBlank(ls[0].c) then Closed(word) + Fields(ls[1..], None)
    else if ls[0].Continuation? then Fields(ls[1..], word)
    else Fields(ls[1..], Some(Opened(word) + FieldText(ls[0])))
  }

  /** Some word consists of line continuations only; `open` and `real` describe the word being read. */
  predicate StrayContinuation(ls: seq<Lexeme>, open: bool, real_: bool) {
    if ls == [] then open && !real_
    else if ls[0].Gap? then (open && !real_) || StrayContinuation(ls[1..], false, false)
    else StrayContinuation(ls[1..], true, real_ || !ls[0].Continuation?)
  }

  /** How many white space characters outside quotes are no blanks. */
  function WideGaps(ls: seq<Lexeme>): nat {
    if ls == [] then 0 else WideGaps(ls[1..]) + (if ls[0].Gap? && !IsBlank(ls[0].c) then 1 else 0)
  }

  lemma {:induction false} FewerFields(ls: seq<Lexeme>, word: Option<string>, open: bool)
    requires (word.Some? ==> open) && WideGaps(ls) == 0
    ensures |Fields(ls, word)| <= |Words(ls, if open then Some(Opened(word)) else None)|
    ensures StrayContinuation(ls, open, word.Some?) ==> |Fields(ls, word)| < |Words(ls, if open then Some(Opened(word)) else None)|
    ensures !StrayContinuation(ls, open, word.Some?) ==> Fields(ls, word) == Words(ls, if open then Some(Opened(word)) else None)
  {
    if ls != [] {
      hide Value, IsBlank;
      if ls[0].Gap? {
        FewerFields(ls[1..], None, false);
      } else if ls[0].Continuation? {
        assert Opened(word) + "" == Opened(word) by { assert Value(ls[0]) == ""; }
        FewerFields(ls[1..], word, true);
      } else {
        FewerFields(ls[1..], Some(Opened(word) + Value(ls[0])), true);
      }
    }
  }

  function Letters(words: seq<string>): nat {
    if words == [] then 0 else |words[0]| + Letters(words[1..])
  }

  lemma {:induction false} LettersClosed(word: Option<string>, rest: seq<string>)
    ensures Letters(Closed(word) + rest) == |Opened(word)| + Letters(rest)
  {
    if word.Some? {
      assert ([word.value] + rest)[1..] == rest;
    } else {
      assert [] + rest == rest;
    }
  }

  /** Each character that only the tokenizer separates at is in a field, and in no argument. */
  lemma {:induction false} FieldsHoldMore(ls: seq<Lexeme>, field: Option<string>, word: Option<string>)
    ensures Letters(Fields(ls, field)) + |Opened(word)| == Letters(Words(ls, word)) + |Opened(field)| + WideGaps(ls)
  {
    if ls == [] {
      LettersClosed(field, []);
      LettersClosed(word, []);
      assert Closed(field) + [] == Closed(field) && Closed(word) + [] == Closed(word);
    } else if ls[0].Gap? {
      LettersClosed(word, Words(ls[1..], None));
      if IsBlank(ls[0].c) {
        LettersClosed(field, Fields(ls[1..], None));
        FieldsHoldMore(ls[1..], None, None);
      } else {
        FieldsHoldMore(ls[1..], Some(Opened(field) + [ls[0].c]), None);
      }
    } else {
      var text := Value(ls[0]);
      FieldsHoldMore(ls[1..], if ls[0].Continuation? then field else Some(Opened(field) + text), Some(Opened(word) + text));
      hide Letters, IsBlank;
    }
  }

  /** The arguments are the fields that the shell would see exactly when no word is made of continuations alone and
      no white space outside quotes is anything but a blank. */
  lemma {:induction false} ArgumentsAreFields(ls: seq<Lexeme>)
    requires AllOk(ls)
    ensures Run(Spell(ls), START, false) == Arguments(Fields(ls, None)) <==>
            !StrayContinuation(ls, false, false) && WideGaps(ls) == 0
  {
    SpelledCommandSplits(ls);
    FieldsHoldMore(ls, None, None);
    if WideGaps(ls) == 0 { FewerFields(ls, None, false); }
    hide Run, Words, Fields, Letters, StrayContinuation;
  }

  /** A line continuation on its own is an empty argument, though it is no field. */
  lemma {:induction false} LoneContinuationIsAnArgument()
    ensures Run("\\\n", START, false) == Arguments([""]) && Fields([Continuation], None) == []
  {
    var ls := [Continuation];
    assert ls[1..] == [];
    assert Spell(ls) == "\\\n" + Spell([]) == "\\\n";
    assert Words(ls, None) == Words([], Some("" + "")) == [""];
    assert Fields(ls, None) == Fields([], None) == [];
    SpelledCommandSplits(ls);
    hide *;
  }

  lemma {:induction false} NoBreakLexemes(a: Lexeme, gap: Lexeme, b: Lexeme)
    requires a == Bare('a') && gap == Gap('\U{A0}') && b == Bare('b')
    ensures Spell([a, gap, b]) == "a\U{A0}b" && Words([a, gap, b], None) == ["a", "b"]
  {
    var ls := [a, gap, b];
    assert ls[1..] == [gap, b] && [gap, b][1..] == [b] && [b][1..] == [];
    assert Spell([b]) == "b" + Spell([]) == "b";
    assert Spell([gap, b]) == "\U{A0}" + "b" == "\U{A0}b";
    assert "" + "b" == "b";
    assert Words([b], None) == Words([], Some("b")) == ["b"];
    assert Words([gap, b], Some("a")) == ["a"] + ["b"];
    assert "" + "a" == "a";
  }

  lemma {:induction false} NoBreakFields(a: Lexeme, gap: Lexeme, b: Lexeme)
    requires a == Bare('a') && gap == Gap('\U{A0}') && b == Bare('b')
    ensures Fields([a, gap, b], None) == ["a\U{A0}b"]
  {
    var ls := [a, gap, b];
    assert ls[1..] == [gap, b] && [gap, b][1..] == [b] && [b][1..] == [];
    assert "" + "a" == "a" && "a" + "\U{A0}" == "a\U{A0}" && "a\U{A0}" + "b" == "a\U{A0}b";
    assert Fields([b], Some("a\U{A0}")) == Fields([], Some("a\U{A0}b"));
    assert Fields([gap, b], Some("a")) == Fields([b], Some("a\U{A0}"));
    assert Fields(ls, None) == Fields([gap, b], Some("a"));
  }

  /** A no-break space separates arguments, though the shell keeps it inside one field. */
  lemma {:induction false} NoBreakSpaceSeparates()
    ensures Run("a\U{A0}b", START, false) == Arguments(["a", "b"])
    ensures Fields([Bare('a'), Gap('\U{A0}'), Bare('b')], None) == ["a\U{A0}b"]
  {
    var a, gap, b := Bare('a'), Gap('\U{A0}'), Bare('b');
    assert AllOk([a, gap, b]);
    hide *;
    NoBreakLexemes(a, gap, b);
    NoBreakFields(a, gap, b);
    SpelledCommandSplits([a, gap, b]);
  }

  // ---- Windows quoting ----

  /** The text inside the quotes: backslashes before a quote are doubled, the quote gets one more. */
  function Guarded(text: string, slashes: nat): string {
    if text == [] then Repeat('\\', 2 * slashes)
    else if text[0] == '\\' then Guarded(text[1..], slashes + 1)
    else if text[0] == '"' then Repeat('\\', 2 * slashes + 1) + ['"'] + Guarded(text[1..], 0)
    else Repeat('\\', slashes) + [text[0]] + Guarded(text[1..], 0)
  }

  function WindowsPrinted(args: seq<string>): string {
    if args == [] then ""
    else ['"'] + Guarded(args[0], 0) + ['"'] + (if |args| == 1 then "" else [' '] + WindowsPrinted(args[1..]))
  }

  lemma {:induction false} SlashRunIs(n: nat, rest: string)
    requires !StartsWith(rest, '\\')
    ensures SlashRun(Repeat('\\', n) + rest) == n
  {
    if n == 0 {
      assert Repeat('\\', 0) + rest == rest;
    } else {
      assert (Repeat('\\', n) + rest)[1..] == Repeat('\\', n - 1) + rest;
      SlashRunIs(n - 1, rest);
    }
  }

  /** A run of backslashes before something that is neither a backslash nor a quote. */
  lemma {:induction false} SlashesKept(n: nat, rest: string, s: Scan)
    requires s.quote == Some('"') && s.active && !StartsWith(rest, '\\') && !StartsWith(rest, '"')
    ensures Run(Repeat('\\', n) + rest, s, true) == Run(rest, s.Put(Repeat('\\', n)), true)
  {
    SlashRunIs(n, rest);
    var cs := Repeat('\\', n) + rest;
    assert cs[n..] == rest;
    if n == 0 {
      assert cs == rest && s.Put(Repeat('\\', 0)) == s;
    }
  }

  lemma {:induction false} SlashesBeforeQuote(n: nat, rest: string, s: Scan)
    requires s.quote == Some('"')
    ensures Run(Repeat('\\', 2 * n + 1) + ['"'] + rest, s, true) == Run(rest, s.Put(Repeat('\\', n) + ['"']), true)
  {
    var k := 2 * n + 1;
    var cs := Repeat('\\', k) + ['"'] + rest;
    assert cs == Repeat('\\', k) + (['"'] + rest);
    SlashRunIs(k, ['"'] + rest);
    assert cs[k + 1..] == rest && StartsWith(cs[k..], '"') && k / 2 == n && k % 2 == 1;
    hide SlashRun, Repeat;
  }

  lemma {:induction false} SlashesBeforeEnd(n: nat, rest: string, s: Scan)
    requires s.quote == Some('"') && s.active && !StartsWith(rest, '"')
    ensures Run(Repeat('\\', 2 * n) + ['"'] + rest, s, true) == Run(rest, s.Put(Repeat('\\', n)).Toggle('"'), true)
  {
    var k := 2 * n;
    var cs := Repeat('\\', k) + ['"'] + rest;
    assert cs == Repeat('\\', k) + (['"'] + rest);
    SlashRunIs(k, ['"'] + rest);
    assert cs[k + 1..] == rest && StartsWith(cs[k..], '"') && k / 2 == n && k % 2 == 0;
    if n == 0 {
      assert s.Put(Repeat('\\', 0)).Toggle('"') == s.Toggle('"');
    } else {
      hide SlashRun, Repeat;
    }
  }

  lemma {:induction false} PlainRun(c: char, rest: string, s: Scan)
    requires s.quote == Some('"') && c != '"' && c != '\\'
    ensures Run([c] + rest, s, true) == Run(rest, s.Put([c]), true)
  {
    assert ([c] + rest)[1..] == rest;
  }

  lemma {:induction false} OneMoreSlash(slashes: nat, text: string)
    requires text != [] && text[0] == '\\'
    ensures Repeat('\\', slashes + 1) + text[1..] == Repeat('\\', slashes) + text
  {}

  lemma {:induction false} GuardedRun(text: string, slashes: nat, rest: string, s: Scan)
    requires s.quote == Some('"') && s.active && !StartsWith(rest, '"')
    ensures Run(Guarded(text, slashes) + ['"'] + rest, s, true) == Run(rest, s.Put(Repeat('\\', slashes) + text).Toggle('"'), true)
    decreases |text|
  {
    hide Run, Next, Repeat;
    if text == [] {
      SlashesBeforeEnd(slashes, rest, s);
      assert Repeat('\\', slashes) + text == Repeat('\\', slashes);
    } else if text[0] == '\\' {
      GuardedRun(text[1..], slashes + 1, rest, s);
      OneMoreSlash(slashes, text);
    } else if text[0] == '"' {
      var tail := Guarded(text[1..], 0) + ['"'] + rest;
      assert Guarded(text, slashes) + ['"'] + rest == Repeat('\\', 2 * slashes + 1) + ['"'] + tail;
      SlashesBeforeQuote(slashes, tail, s);
      GuardedRun(text[1..], 0, rest, s.Put(Repeat('\\', slashes) + ['"']));
      PutJoins(s, Repeat('\\', slashes), text);
    } else {
      var tail := Guarded(text[1..], 0) + ['"'] + rest;
      assert Guarded(text, slashes) + ['"'] + rest == Repeat('\\', slashes) + ([text[0]] + tail);
      SlashesKept(slashes, [text[0]] + tail, s);
      PlainRun(text[0], tail, s.Put(Repeat('\\', slashes)));
      GuardedRun(text[1..], 0, rest, s.Put(Repeat('\\', slashes)).Put([text[0]]));
      PutJoins(s, Repeat('\\', slashes), text);
    }
  }

  lemma {:induction false} PutJoins(s: Scan, front: string, text: string)
    requires text != []
    ensures s.Put(front).Put([text[0]]) == s.Put(front + [text[0]])
    ensures s.Put(front + [text[0]]).Put(Repeat('\\', 0) + text[1..]) == s.Put(front + text)
  {
    assert front + [text[0]] + (Repeat('\\', 0) + text[1..]) == front + text;
  }

  lemma {:induction false} BlankBetween(rest: string, s: Scan)
    requires s.quote == None
    ensures Run([' '] + rest, s, true) == Run(rest, s.Flush(), true)
  {
    assert ([' '] + rest)[1..] == rest;
  }

  lemma {:induction false} OneWindowsArgument(arg: string, rest: string, s: Scan)
    requires s.quote == None && !s.active && s.arg == "" && !StartsWith(rest, '"')
    ensures Run(['"'] + Guarded(arg, 0) + ['"'] + rest, s, true) == Run(rest, Scan(s.args, arg, None, true), true)
  {
    hide Run, Next, Guarded, Repeat;
    var inside := Guarded(arg, 0);
    Regroup(['"'], inside, ['"'], rest);
    OpenQuote('"', inside + ['"'] + rest, s, true);
    GuardedRun(arg, 0, rest, s.Toggle('"'));
    NoSlashes(arg);
  }

  lemma {:induction false} NoSlashes(arg: string)
    ensures Repeat('\\', 0) + arg == arg
  {}

  lemma {:induction false} WindowsPrintedRun(args: seq<string>, s: Scan)
    requires s.quote == None && !s.active && s.arg == ""
    ensures Run(WindowsPrinted(args), s, true) == Arguments(s.args + args)
  {
    if args == [] {
      assert s.args + args == s.args;
    } else {
      hide Next, Guarded;
      var rest := if |args| == 1 then "" else [' '] + WindowsPrinted(args[1..]);
      var after := Scan(s.args, args[0], None, true);
      OneWindowsArgument(args[0], rest, s);
      assert WindowsPrinted(args) == ['"'] + Guarded(args[0], 0) + ['"'] + rest;
      if |args| == 1 {
        assert args == [args[0]];
      } else {
        hide Run, WindowsPrinted;
        BlankBetween(WindowsPrinted(args[1..]), after);
        WindowsPrintedRun(args[1..], after.Flush());
        assert s.args + [args[0]] + args[1..] == s.args + args;
      }
    }
  }

  /** Every list of arguments survives backslash-doubling quotes, empty ones and ones ending in backslashes included. */
  lemma {:induction false} WindowsRoundTrip(args: seq<string>)
    ensures Run(WindowsPrinted(args), START, true) == Arguments(args)
  {
    WindowsPrintedRun(args, START);
    assert START.args + args == args;
  }

  lemma {:induction false} OneTurn(cs: string, s: Scan, windows: bool)
    requires cs != []
    ensures Run(cs, s, windows) == match Next(cs, s, windows) { case Fail => UnterminatedEscape case Go(n, after) => Run(cs[n..], after, windows) }
  {}

  /** Between double quotes a backslash escapes a double quote, a backslash, a dollar sign and a back-quote, joins a line
      with the next, and stands for itself before every other character. */
  lemma {:induction false} BackslashInQuotes(c: char)
    ensures Run(['"', '\\', c, '"'], START, false) ==
            Arguments([if c == '\n' then "" else if c in {'"', '\\', '$', '`'} then [c] else ['\\', c]])
  {
    var cs := ['"', '\\', c, '"'];
    var inside := Scan([], "", Some('"'), true);
    hide Run;
    assert Next(cs, START, false) == Go(1, inside);
    OneTurn(cs, START, false);
    assert cs[1..] == ['\\', c, '"'] && cs[1..][2..] == ['"'] && cs[1..][1..] == [c, '"'] && [c, '"'][1..] == ['"'] && ['"'][1..] == [];
    OneTurn(cs[1..], inside, false);
    if c in {'"', '\\', '$', '`', '\n'} {
      assert inside.Put(Kept(c)) == Scan([], Kept(c), Some('"'), true);
      ClosesQuote(inside.Put(Kept(c)));
    } else {
      var slash := Scan([], "\\", Some('"'), true);
      assert inside.Put("\\") == slash && slash.Put([c]) == Scan([], ['\\', c], Some('"'), true);
      OneTurn([c, '"'], slash, false);
      ClosesQuote(slash.Put([c]));
    }
  }

  lemma {:induction false} ClosesQuote(s: Scan)
    requires s.quote == Some('"') && s.active && s.args == []
    ensures Run(['"'], s, false) == Arguments([s.arg])
  {
    assert ['"'][1..] == [];
  }

  /** The code points with the property White_Space, and the blanks among them that separate fields in a shell. */
  lemma {:induction false} SpacesAre(c: char)
    ensures IsSpace(c) <==> c as int in {0x9, 0xA, 0xB, 0xC, 0xD, 0x20, 0x85, 0xA0, 0x1680, 0x2000, 0x2001, 0x2002, 0x2003, 0x2004,
                                         0x2005, 0x2006, 0x2007, 0x2008, 0x2009, 0x200A, 0x2028, 0x2029, 0x202F, 0x205F, 0x3000}
    ensures IsBlank(c) <==> c as int in {0x9, 0xA, 0x20}
  {}
}
