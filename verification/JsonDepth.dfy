/** The depth guard in front of a JSON parser: scanning the text for brackets finds the nesting depth of the
    value, whatever its strings contain. */
module JsonDepth {
  import opened Common

  // ---- JSON texts: sections 2 to 7 of RFC 8259 ----

  /** One character of a string, as written. */
  datatype Chunk = Raw(c: char) | Esc(c: char) | Hex(digits: string)

  /** A value as written, with its insignificant white space. */
  datatype Json =
    | Word(text: string) // null, true, false and numbers
    | Text(chunks: seq<Chunk>)
    | Array(space: string, items: seq<Element>)
    | Object(space: string, members: seq<Member>)

  datatype Element = Element(before: string, value: Json, after: string)

  datatype Member = Member(before: string, name: seq<Chunk>, middle: string, element: Element)

  predicate IsHex(c: char) {
    '0' <= c <= '9' || 'a' <= c <= 'f' || 'A' <= c <= 'F'
  }

  predicate ChunkOk(k: Chunk) {
    match k
    case Raw(c) => c >= ' ' && c != '"' && c != '\\'
    case Esc(c) => c in {'"', '\\', '/', 'b', 'f', 'n', 'r', 't'}
    case Hex(digits) => |digits| == 4 && forall i :: 0 <= i < 4 ==> IsHex(digits[i])
  }

  predicate ChunksOk(ks: seq<Chunk>) {
    forall i :: 0 <= i < |ks| ==> ChunkOk(ks[i])
  }

  predicate Blank(ws: string) {
    forall i :: 0 <= i < |ws| ==> ws[i] in {' ', '\t', '\n', '\r'}
  }

  predicate WordOk(text: string) {
    text != [] && forall i :: 0 <= i < |text| ==> IsHex(text[i]) || 'a' <= text[i] <= 'z' || text[i] in {'E', '+', '-', '.'}
  }

  predicate JsonOk(j: Json)
    decreases j
  {
    match j
    case Word(text) => WordOk(text)
    case Text(chunks) => ChunksOk(chunks)
    case Array(space, items) => Blank(space) && ItemsOk(items)
    case Object(space, members) => Blank(space) && MembersOk(members)
  }

  predicate ElementOk(e: Element)
    decreases e
  {
    Blank(e.before) && JsonOk(e.value) && Blank(e.after)
  }

  predicate ItemsOk(items: seq<Element>)
    decreases items
  {
    items == [] || (ElementOk(items[0]) && ItemsOk(items[1..]))
  }

  predicate MembersOk(members: seq<Member>)
    decreases members
  {
    members == [] ||
    (Blank(members[0].before) && ChunksOk(members[0].name) && Blank(members[0].middle) && ElementOk(members[0].element) &&
     MembersOk(members[1..]))
  }

  function ChunkText(k: Chunk): string {
    match k
    case Raw(c) => [c]
    case Esc(c) => ['\\', c]
    case Hex(digits) => ['\\', 'u'] + digits
  }

  function ChunksText(ks: seq<Chunk>): string {
    if ks == [] then "" else ChunkText(ks[0]) + ChunksText(ks[1..])
  }

  function Quoted(ks: seq<Chunk>): string {
    ['"'] + ChunksText(ks) + ['"']
  }

  function Print(j: Json): string
    decreases j
  {
    match j
    case Word(text) => text
    case Text(chunks) => Quoted(chunks)
    case Array(space, items) => ['['] + (if items == [] then space else PrintItems(items)) + [']']
    case Object(space, members) => ['{'] + (if members == [] then space else PrintMembers(members)) + ['}']
  }

  function PrintElement(e: Element): string
    decreases e
  {
    e.before + Print(e.value) + e.after
  }

  function PrintItems(items: seq<Element>): string
    decreases items
  {
    if items == [] then ""
    else PrintElement(items[0]) + (if |items| == 1 then "" else [','] + PrintItems(items[1..]))
  }

  function PrintMembers(members: seq<Member>): string
    decreases members
  {
    if members == [] then ""
    else
      members[0].before + Quoted(members[0].name) + members[0].middle + [':'] + PrintElement(members[0].element) +
      (if |members| == 1 then "" else [','] + PrintMembers(members[1..]))
  }

  function Max(a: nat, b: nat): nat {
    if a < b then b else a
  }

  /** How many arrays and objects are open at the deepest point. */
  function Depth(j: Json): nat
    decreases j
  {
    match j
    case Word(_) => 0
    case Text(_) => 0
    case Array(_, items) => 1 + ItemsDepth(items)
    case Object(_, members) => 1 + MembersDepth(members)
  }

  function ItemsDepth(items: seq<Element>): nat
    decreases items
  {
    if items == [] then 0 else Max(Depth(items[0].value), ItemsDepth(items[1..]))
  }

  function MembersDepth(members: seq<Member>): nat
    decreases members
  {
    if members == [] then 0 else Max(Depth(members[0].element.value), MembersDepth(members[1..]))
  }

  // ---- The scan ----

  datatype Scan = Scan(depth: nat, max: nat, inString: bool, escaped: bool) {
    predicate Outside() {
      !inString && !escaped && depth <= max
    }

    function Deeper(n: nat): Scan {
      this.(max := Max(max, depth + n))
    }
  }

  function Step(s: Scan, c: char): Scan {
    if s.inString then
      if s.escaped then s.(escaped := false)
      else if c == '\\' then s.(escaped := true)
      else if c == '"' then s.(inString := false)
      else s
    else if c == '"' then s.(inString := true)
    else if c == '[' || c == '{' then Scan(s.depth + 1, Max(s.max, s.depth + 1), false, s.escaped)
    else if c == ']' || c == '}' then s.(depth := if s.depth == 0 then 0 else s.depth - 1)
    else s
  }

  function ScanAll(cs: string, s: Scan): Scan {
    if cs == [] then s else ScanAll(cs[1..], Step(s, cs[0]))
  }

  const START := Scan(0, 0, false, false)

  lemma {:induction false} ScanAppend(a: string, b: string, s: Scan)
    ensures ScanAll(a + b, s) == ScanAll(b, ScanAll(a, s))
  {
    if a == [] {
      assert a + b == b;
    } else {
      assert (a + b)[1..] == a[1..] + b;
      ScanAppend(a[1..], b, Step(s, a[0]));
    }
  }

  lemma {:induction false} ScanOne(c: char, s: Scan)
    ensures ScanAll([c], s) == Step(s, c)
  {
    assert [c][1..] == [];
  }

  lemma {:induction false} MaxGrows(cs: string, s: Scan)
    ensures ScanAll(cs, s).max >= s.max
  {
    if cs != [] { MaxGrows(cs[1..], Step(s, cs[0])); }
  }

  /** Stops at the first bracket that goes too deep. */
  method PreScan(text: string, limit: nat) returns (ok: bool)
    ensures ok <==> ScanAll(text, START).max <= limit
  {
    var s := START;
    for i := 0 to |text|
      invariant s.depth <= s.max <= limit
      invariant ScanAll(text[i..], s) == ScanAll(text, START)
    {
      assert text[i..][1..] == text[i + 1..];
      s := Step(s, text[i]);
      if s.depth > limit {
        MaxGrows(text[i + 1..], s);
        return false;
      }
    }
    return true;
  }

  predicate Quiet(c: char) {
    c != '"' && c != '[' && c != '{' && c != ']' && c != '}'
  }

  lemma {:induction false} QuietScan(cs: string, s: Scan)
    requires s.Outside() && forall i :: 0 <= i < |cs| ==> Quiet(cs[i])
    ensures ScanAll(cs, s) == s
  {
    if cs != [] { QuietScan(cs[1..], s); }
  }

  lemma {:induction false} BlankScan(ws: string, s: Scan)
    requires s.Outside() && Blank(ws)
    ensures ScanAll(ws, s) == s
  {
    QuietScan(ws, s);
  }

  lemma {:induction false} InnerScan(cs: string, s: Scan)
    requires s.inString && !s.escaped && forall i :: 0 <= i < |cs| ==> cs[i] != '"' && cs[i] != '\\'
    ensures ScanAll(cs, s) == s
  {
    if cs != [] { InnerScan(cs[1..], s); }
  }

  lemma {:induction false} ChunkScan(k: Chunk, s: Scan)
    requires ChunkOk(k) && s.inString && !s.escaped
    ensures ScanAll(ChunkText(k), s) == s
  {
    match k
    case Raw(c) => ScanOne(c, s);
    case Esc(c) =>
      ScanAppend(['\\'], [c], s);
      ScanOne('\\', s);
      ScanOne(c, Step(s, '\\'));
    case Hex(digits) =>
      ScanAppend(['\\'], ['u'], s);
      ScanOne('\\', s);
      ScanOne('u', Step(s, '\\'));
      ScanAppend(['\\', 'u'], digits, s);
      InnerScan(digits, s);
  }

  lemma {:induction false} ChunksScan(ks: seq<Chunk>, s: Scan)
    requires ChunksOk(ks) && s.inString && !s.escaped
    ensures ScanAll(ChunksText(ks), s) == s
  {
    if ks != [] {
      ChunkScan(ks[0], s);
      ChunksScan(ks[1..], s);
      ScanAppend(ChunkText(ks[0]), ChunksText(ks[1..]), s);
    }
  }

  /** A string leaves the scan where it was, whatever brackets, quotes and backslashes it holds. */
  lemma {:induction false} StringScan(ks: seq<Chunk>, s: Scan)
    requires ChunksOk(ks) && s.Outside()
    ensures ScanAll(Quoted(ks), s) == s
  {
    ScanAppend(['"'], ChunksText(ks), s);
    ScanAppend(['"'] + ChunksText(ks), ['"'], s);
    ScanOne('"', s);
    ChunksScan(ks, Step(s, '"'));
    ScanOne('"', Step(s, '"'));
  }

  lemma {:induction false} ValueScan(j: Json, s: Scan)
    requires JsonOk(j) && s.Outside()
    ensures ScanAll(Print(j), s) == s.Deeper(Depth(j))
    decreases j
  {
    match j
    case Word(text) => QuietScan(text, s);
    case Text(chunks) => StringScan(chunks, s);
    case Array(space, items) =>
      var inner := if items == [] then space else PrintItems(items);
      var within := Scan(s.depth + 1, Max(s.max, s.depth + 1), false, false);
      if items == [] { BlankScan(space, within); } else { ItemsScan(items, within); }
      BracketScan('[', inner, ']', s, ItemsDepth(items));
    case Object(space, members) =>
      var inner := if members == [] then space else PrintMembers(members);
      var within := Scan(s.depth + 1, Max(s.max, s.depth + 1), false, false);
      if members == [] { BlankScan(space, within); } else { MembersScan(members, within); }
      BracketScan('{', inner, '}', s, MembersDepth(members));
  }

  lemma {:induction false} BracketScan(mark: char, inner: string, close: char, s: Scan, n: nat)
    requires s.Outside() && (mark == '[' || mark == '{') && (close == ']' || close == '}')
    requires var within := Scan(s.depth + 1, Max(s.max, s.depth + 1), false, false); ScanAll(inner, within) == within.Deeper(n)
    ensures ScanAll([mark] + inner + [close], s) == s.Deeper(1 + n)
  {
    hide ScanAll;
    var within := Scan(s.depth + 1, Max(s.max, s.depth + 1), false, false);
    OpenAndClose(s, mark, close, n);
    hide Step;
    ScanOne(mark, s);
    ScanAppend([mark], inner, s);
    ScanAppend([mark] + inner, [close], s);
    ScanOne(close, within.Deeper(n));
  }

  lemma {:induction false} OpenAndClose(s: Scan, mark: char, close: char, n: nat)
    requires s.Outside() && (mark == '[' || mark == '{') && (close == ']' || close == '}')
    ensures var within := Scan(s.depth + 1, Max(s.max, s.depth + 1), false, false);
            Step(s, mark) == within && Step(within.Deeper(n), close) == s.Deeper(1 + n)
  {}

  lemma {:induction false} ElementScan(e: Element, s: Scan)
    requires ElementOk(e) && s.Outside()
    ensures ScanAll(PrintElement(e), s) == s.Deeper(Depth(e.value))
    decreases e
  {
    hide ScanAll;
    BlankScan(e.before, s);
    ValueScan(e.value, s);
    BlankScan(e.after, s.Deeper(Depth(e.value)));
    ScanAppend(e.before, Print(e.value), s);
    ScanAppend(e.before + Print(e.value), e.after, s);
  }

  lemma {:induction false} ItemsScan(items: seq<Element>, s: Scan)
    requires ItemsOk(items) && s.Outside()
    ensures ScanAll(PrintItems(items), s) == s.Deeper(ItemsDepth(items))
    decreases items
  {
    if items != [] {
      var here := s.Deeper(Depth(items[0].value));
      ElementScan(items[0], s);
      hide ScanAll, Print, PrintElement;
      if |items| == 1 {
        assert PrintItems(items) == PrintElement(items[0]);
        assert items[1..] == [];
      } else {
        ItemsScan(items[1..], here);
        ScanOne(',', here);
        ScanAppend([','], PrintItems(items[1..]), here);
        ScanAppend(PrintElement(items[0]), [','] + PrintItems(items[1..]), s);
      }
    }
  }

  lemma {:induction false} MembersScan(members: seq<Member>, s: Scan)
    requires MembersOk(members) && s.Outside()
    ensures ScanAll(PrintMembers(members), s) == s.Deeper(MembersDepth(members))
    decreases members
  {
    if members != [] {
      var m := members[0];
      var here := s.Deeper(Depth(m.element.value));
      ElementScan(m.element, s);
      NameScan(m.before, m.name, m.middle, s);
      var front := m.before + Quoted(m.name) + m.middle + [':'];
      hide ScanAll, Print, PrintElement, Quoted, Blank;
      ScanAppend(front, PrintElement(m.element), s);
      if |members| == 1 {
        assert PrintMembers(members) == front + PrintElement(m.element);
        assert members[1..] == [];
      } else {
        MembersScan(members[1..], here);
        ScanOne(',', here);
        ScanAppend([','], PrintMembers(members[1..]), here);
        ScanAppend(front + PrintElement(m.element), [','] + PrintMembers(members[1..]), s);
      }
    }
  }

  lemma {:induction false} NameScan(before: string, name: seq<Chunk>, middle: string, s: Scan)
    requires Blank(before) && ChunksOk(name) && Blank(middle) && s.Outside()
    ensures ScanAll(before + Quoted(name) + middle + [':'], s) == s
  {
    BlankScan(before, s);
    StringScan(name, s);
    BlankScan(middle, s);
    ScanOne(':', s);
    hide ScanAll, Quoted, Blank;
    ScanAppend(before, Quoted(name), s);
    ScanAppend(before + Quoted(name), middle, s);
    ScanAppend(before + Quoted(name) + middle, [':'], s);
  }

  /** On every JSON text the scan finds the nesting depth, so it accepts exactly the texts within the limit. */
  lemma {:induction false} ScanFindsDepth(document: Element)
    requires ElementOk(document)
    ensures ScanAll(PrintElement(document), START).max == Depth(document.value)
  {
    ElementScan(document, START);
  }

  // ---- The parsed value ----

  /** Names in an object are distinct after parsing. */
  datatype Value = Scalar(text: string) | Str(text: string) | Arr(items: seq<Value>) | Obj(fields: seq<Field>)

  datatype Field = Field(name: string, value: Value)

  /** A repeated name keeps its last value. `decode` turns a written string into its characters. */
  function Insert(fields: seq<Field>, f: Field): seq<Field> {
    if fields == [] then [f]
    else if fields[0].name == f.name then [f] + fields[1..]
    else [fields[0]] + Insert(fields[1..], f)
  }

  function Parsed(decode: seq<Chunk> -> string, j: Json): Value
    decreases j
  {
    match j
    case Word(text) => Scalar(text)
    case Text(chunks) => Str(decode(chunks))
    case Array(_, items) => Arr(ParsedItems(decode, items))
    case Object(_, members) => Obj(ParsedMembers(decode, members, []))
  }

  function ParsedItems(decode: seq<Chunk> -> string, items: seq<Element>): seq<Value>
    decreases items
  {
    if items == [] then [] else [Parsed(decode, items[0].value)] + ParsedItems(decode, items[1..])
  }

  function ParsedMembers(decode: seq<Chunk> -> string, members: seq<Member>, fields: seq<Field>): seq<Field>
    decreases members
  {
    if members == [] then fields
    else
      ParsedMembers(decode, members[1..], Insert(fields, Field(decode(members[0].name), Parsed(decode, members[0].element.value))))
  }

  /** Nested arrays and objects of a value. */
  function Nesting(v: Value): nat
    decreases v
  {
    match v
    case Scalar(_) => 0
    case Str(_) => 0
    case Arr(items) => 1 + NestingItems(items)
    case Obj(fields) => 1 + NestingFields(fields)
  }

  function NestingItems(items: seq<Value>): nat
    decreases items
  {
    if items == [] then 0 else Max(Nesting(items[0]), NestingItems(items[1..]))
  }

  function NestingFields(fields: seq<Field>): nat
    decreases fields
  {
    if fields == [] then 0 else Max(Nesting(fields[0].value), NestingFields(fields[1..]))
  }

  lemma {:induction false} InsertNesting(fields: seq<Field>, f: Field)
    ensures NestingFields(Insert(fields, f)) <= Max(NestingFields(fields), Nesting(f.value))
    ensures (forall i :: 0 <= i < |fields| ==> fields[i].name != f.name) ==>
      NestingFields(Insert(fields, f)) == Max(NestingFields(fields), Nesting(f.value)) && Insert(fields, f) == fields + [f]
  {
    if fields == [] {
      assert [f][1..] == [];
    } else if fields[0].name == f.name {
      assert ([f] + fields[1..])[1..] == fields[1..];
    } else {
      InsertNesting(fields[1..], f);
      assert ([fields[0]] + Insert(fields[1..], f))[1..] == Insert(fields[1..], f);
      assert [fields[0]] + (fields[1..] + [f]) == fields + [f];
    }
  }

  /** No object of the text repeats a name. */
  predicate DistinctNames(decode: seq<Chunk> -> string, j: Json)
    decreases j
  {
    match j
    case Word(_) => true
    case Text(_) => true
    case Array(_, items) => DistinctItems(decode, items)
    case Object(_, members) => DistinctMembers(decode, members)
  }

  predicate DistinctItems(decode: seq<Chunk> -> string, items: seq<Element>)
    decreases items
  {
    items == [] || (DistinctNames(decode, items[0].value) && DistinctItems(decode, items[1..]))
  }

  predicate DistinctMembers(decode: seq<Chunk> -> string, members: seq<Member>)
    decreases members
  {
    members == [] ||
    (DistinctNames(decode, members[0].element.value) && DistinctMembers(decode, members[1..]) &&
     forall i :: 1 <= i < |members| ==> decode(members[i].name) != decode(members[0].name))
  }

  /** The parsed value nests no deeper than the text, and just as deep when no name is repeated. */
  lemma {:induction false} ParsedNesting(decode: seq<Chunk> -> string, j: Json)
    ensures Nesting(Parsed(decode, j)) <= Depth(j)
    ensures DistinctNames(decode, j) ==> Nesting(Parsed(decode, j)) == Depth(j)
    decreases j
  {
    match j
    case Word(_) =>
    case Text(_) =>
    case Array(_, items) => ParsedItemsNesting(decode, items);
    case Object(_, members) => ParsedMembersNesting(decode, members, []);
  }

  lemma {:induction false} ParsedItemsNesting(decode: seq<Chunk> -> string, items: seq<Element>)
    ensures NestingItems(ParsedItems(decode, items)) <= ItemsDepth(items)
    ensures DistinctItems(decode, items) ==> NestingItems(ParsedItems(decode, items)) == ItemsDepth(items)
    decreases items
  {
    if items != [] {
      ParsedNesting(decode, items[0].value);
      ParsedItemsNesting(decode, items[1..]);
    }
  }

  ghost predicate Apart(decode: seq<Chunk> -> string, members: seq<Member>, fields: seq<Field>) {
    forall i, k :: 0 <= i < |members| && 0 <= k < |fields| ==> decode(members[i].name) != fields[k].name
  }

  lemma {:induction false} ParsedMembersNesting(decode: seq<Chunk> -> string, members: seq<Member>, fields: seq<Field>)
    ensures NestingFields(ParsedMembers(decode, members, fields)) <= Max(NestingFields(fields), MembersDepth(members))
    ensures DistinctMembers(decode, members) && Apart(decode, members, fields) ==>
      NestingFields(ParsedMembers(decode, members, fields)) == Max(NestingFields(fields), MembersDepth(members))
    decreases members
  {
    if members != [] {
      var f := Field(decode(members[0].name), Parsed(decode, members[0].element.value));
      ParsedNesting(decode, members[0].element.value);
      InsertNesting(fields, f);
      ParsedMembersNesting(decode, members[1..], Insert(fields, f));
      if DistinctMembers(decode, members) && Apart(decode, members, fields) {
        StillApart(decode, members, fields, f);
      }
      hide Nesting, NestingFields, Insert, Parsed, Depth, Apart, DistinctNames;
    }
  }

  lemma {:induction false} StillApart(decode: seq<Chunk> -> string, members: seq<Member>, fields: seq<Field>, f: Field)
    requires members != [] && DistinctMembers(decode, members) && Apart(decode, members, fields) && f.name == decode(members[0].name)
    ensures Apart(decode, members[1..], fields + [f])
    ensures forall i :: 0 <= i < |fields| ==> fields[i].name != f.name
  {
    hide DistinctNames;
    assert members[0] == members[0];
  }

  // ---- The walk over the parsed value ----

  /** Levels of a value, scalars included. */
  function Height(v: Value): nat
    decreases v
  {
    match v
    case Scalar(_) => 1
    case Str(_) => 1
    case Arr(items) => 1 + HeightItems(items)
    case Obj(fields) => 1 + HeightFields(fields)
  }

  function HeightItems(items: seq<Value>): nat
    decreases items
  {
    if items == [] then 0 else Max(Height(items[0]), HeightItems(items[1..]))
  }

  function HeightFields(fields: seq<Field>): nat
    decreases fields
  {
    if fields == [] then 0 else Max(Height(fields[0].value), HeightFields(fields[1..]))
  }

  /** Values within a value, itself included. */
  function Size(v: Value): nat
    decreases v
  {
    match v
    case Scalar(_) => 1
    case Str(_) => 1
    case Arr(items) => 1 + SizeItems(items)
    case Obj(fields) => 1 + SizeFields(fields)
  }

  function SizeItems(items: seq<Value>): nat
    decreases items
  {
    if items == [] then 0 else Size(items[0]) + SizeItems(items[1..])
  }

  function SizeFields(fields: seq<Field>): nat
    decreases fields
  {
    if fields == [] then 0 else Size(fields[0].value) + SizeFields(fields[1..])
  }

  function FieldValues(fields: seq<Field>): seq<Value> {
    if fields == [] then [] else [fields[0].value] + FieldValues(fields[1..])
  }

  function Children(v: Value): seq<Value> {
    match v
    case Scalar(_) => []
    case Str(_) => []
    case Arr(items) => items
    case Obj(fields) => FieldValues(fields)
  }

  lemma {:induction false} FieldsAsItems(fields: seq<Field>)
    ensures HeightItems(FieldValues(fields)) == HeightFields(fields)
    ensures SizeItems(FieldValues(fields)) == SizeFields(fields)
    ensures NestingItems(FieldValues(fields)) == NestingFields(fields)
  {
    if fields != [] {
      FieldsAsItems(fields[1..]);
      assert FieldValues(fields)[1..] == FieldValues(fields[1..]);
    }
  }

  lemma {:induction false} ByChildren(v: Value)
    ensures Height(v) == 1 + HeightItems(Children(v)) && Size(v) == 1 + SizeItems(Children(v))
  {
    if v.Obj? { FieldsAsItems(v.fields); }
  }

  /** A value to visit, at its level. */
  datatype Visit = Visit(value: Value, level: nat)

  function VisitAll(vs: seq<Value>, level: nat): (r: seq<Visit>)
    ensures |r| == |vs|
  {
    if vs == [] then [] else [Visit(vs[0], level)] + VisitAll(vs[1..], level)
  }

  /** What is left on the stack: how many values, and how deep they reach. */
  function Waiting(stack: seq<Visit>): nat {
    if stack == [] then 0 else Waiting(stack[..|stack| - 1]) + Size(stack[|stack| - 1].value)
  }

  function Reach(stack: seq<Visit>): nat {
    if stack == [] then 0
    else
      var top := stack[|stack| - 1];
      Max(Reach(stack[..|stack| - 1]), top.level + Height(top.value) - 1)
  }

  lemma {:induction false} PushAll(stack: seq<Visit>, vs: seq<Value>, level: nat)
    requires level > 0
    ensures Waiting(stack + VisitAll(vs, level)) == Waiting(stack) + SizeItems(vs)
    ensures Reach(stack + VisitAll(vs, level)) == Max(Reach(stack), if vs == [] then 0 else level + HeightItems(vs) - 1)
    decreases |vs|
  {
    if vs == [] {
      assert stack + VisitAll(vs, level) == stack;
    } else {
      var pushed := stack + [Visit(vs[0], level)];
      VisitFirst(stack, vs, level);
      assert pushed[..|stack|] == stack;
      hide Waiting, Reach, Height, Size, VisitAll;
      WaitingTop(pushed);
      PushAll(pushed, vs[1..], level);
      HeightAtLeastOne(vs[0]);
    }
  }

  lemma {:induction false} VisitFirst(stack: seq<Visit>, vs: seq<Value>, level: nat)
    requires vs != []
    ensures stack + VisitAll(vs, level) == (stack + [Visit(vs[0], level)]) + VisitAll(vs[1..], level)
  {}

  lemma {:induction false} HeightAtLeastOne(v: Value)
    ensures Height(v) >= 1 && Size(v) >= 1
  {}

  /** Visits every value with an explicit stack, counting values and checking levels. */
  method Walk(root: Value, maxDepth: nat, maxNodes: nat) returns (ok: bool)
    ensures ok <==> Height(root) <= maxDepth && Size(root) <= maxNodes
  {
    hide Waiting, Reach, Size, Height, Children, HeightItems, SizeItems;
    var stack := [Visit(root, 1)];
    var count := 0;
    ghost var reached: nat := 0;
    WaitingOnly(root);
    while stack != []
      invariant forall i :: 0 <= i < |stack| ==> stack[i].level > 0
      invariant count + Waiting(stack) == Size(root)
      invariant Max(reached, Reach(stack)) == Height(root)
      invariant reached <= maxDepth && count <= maxNodes
      decreases Waiting(stack)
    {
      var top, rest := stack[|stack| - 1], stack[..|stack| - 1];
      WaitingTop(stack);
      HeightAtLeastOne(top.value);
      ByChildren(top.value);
      NoItemsNoHeight(Children(top.value));
      count := count + 1;
      if count > maxNodes || top.level > maxDepth {
        return false;
      }
      reached := Max(reached, top.level);
      PushAll(rest, Children(top.value), top.level + 1);
      LevelsPositive(Children(top.value), top.level + 1);
      stack := rest + VisitAll(Children(top.value), top.level + 1);
    }
    WaitingNone();
    return true;
  }

  lemma {:induction false} WaitingOnly(root: Value)
    ensures Waiting([Visit(root, 1)]) == Size(root) && Reach([Visit(root, 1)]) == Height(root)
  {
    HeightAtLeastOne(root);
    WaitingNone();
    var stack := [Visit(root, 1)];
    assert stack[..|stack| - 1] == [];
    assert Waiting(stack) == Waiting([]) + Size(root);
  }

  lemma {:induction false} WaitingNone()
    ensures Waiting([]) == 0 && Reach([]) == 0
  {}

  lemma {:induction false} WaitingTop(stack: seq<Visit>)
    requires stack != []
    ensures var top := stack[|stack| - 1];
            && Waiting(stack) == Waiting(stack[..|stack| - 1]) + Size(top.value)
            && Reach(stack) == Max(Reach(stack[..|stack| - 1]), top.level + Height(top.value) - 1)
  {}

  lemma {:induction false} LevelsPositive(vs: seq<Value>, level: nat)
    ensures forall i :: 0 <= i < |vs| ==> VisitAll(vs, level)[i].level == level
  {
    if vs != [] { LevelsPositive(vs[1..], level); }
  }

  lemma {:induction false} NoItemsNoHeight(vs: seq<Value>)
    ensures vs == [] <==> HeightItems(vs) == 0
  {
    if vs != [] { HeightAtLeastOne(vs[0]); }
  }

  lemma {:induction false} NestingBelowHeight(v: Value)
    ensures Nesting(v) <= Height(v) <= Nesting(v) + 1
    decreases v
  {
    match v
    case Scalar(_) =>
    case Str(_) =>
    case Arr(items) => NestingBelowHeightItems(items);
    case Obj(fields) => NestingBelowHeightFields(fields);
  }

  lemma {:induction false} NestingBelowHeightItems(items: seq<Value>)
    ensures NestingItems(items) <= HeightItems(items) <= NestingItems(items) + 1
    decreases items
  {
    if items != [] {
      NestingBelowHeight(items[0]);
      NestingBelowHeightItems(items[1..]);
    }
  }

  lemma {:induction false} NestingBelowHeightFields(fields: seq<Field>)
    ensures NestingFields(fields) <= HeightFields(fields) <= NestingFields(fields) + 1
    decreases fields
  {
    if fields != [] {
      NestingBelowHeight(fields[0].value);
      NestingBelowHeightFields(fields[1..]);
    }
  }

  /** Refusing a text early is right: for a text without repeated names, whatever the scan refuses, the walk over
      the parsed value would refuse; what the scan lets through exceeds the limit by at most one level. */
  lemma {:induction false} EarlyRefusalIsSound(decode: seq<Chunk> -> string, document: Element, limit: nat)
    requires ElementOk(document)
    ensures var found, value := ScanAll(PrintElement(document), START).max, Parsed(decode, document.value);
            && (DistinctNames(decode, document.value) && found > limit ==> Height(value) > limit)
            && (found <= limit ==> Height(value) <= limit + 1)
  {
    ScanFindsDepth(document);
    ParsedNesting(decode, document.value);
    NestingBelowHeight(Parsed(decode, document.value));
  }
}
