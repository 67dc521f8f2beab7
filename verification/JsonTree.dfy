/** The syntax tree held in a JSON value: the shape check, removing trivia, and hashing. */
module JsonTree {
  import opened Common
  import opened JsonDepth

  /** Where a name stands among the fields; parsing leaves one field per name. */
  function Find(fields: seq<Field>, name: string): (at: Option<nat>)
    ensures at.Some? ==> at.value < |fields| && fields[at.value].name == name
    ensures at.None? ==> forall i :: 0 <= i < |fields| ==> fields[i].name != name
  {
    if fields == [] then None
    else if fields[0].name == name then Some(0)
    else
      match Find(fields[1..], name)
      case None => None
      case Some(i) => Some(i + 1)
  }

  function Get(v: Value, name: string): Option<Value> {
    if v.Obj? && Find(v.fields, name).Some? then Some(v.fields[Find(v.fields, name).value].value) else None
  }

  predicate IsText(v: Option<Value>) {
    v.None? || v.value.Str?
  }

  /** The child nodes: the elements of an array field `children`. */
  function TreeChildren(v: Value): (vs: seq<Value>)
    ensures v.Obj? ==> forall i :: 0 <= i < |vs| ==> vs[i] < v
  {
    match Get(v, "children")
    case Some(Arr(items)) => items
    case _ => []
  }

  function NodeType(v: Value): string {
    match Get(v, "node_type")
    case Some(Str(kind)) => if kind != "" then kind else TypeField(v)
    case _ => TypeField(v)
  }

  function TypeField(v: Value): string {
    match Get(v, "type")
    case Some(Str(kind)) => kind
    case _ => ""
  }

  // ---- The shape check ----

  /** A node is an object with textual kind and label; its `children`, if present, is an array. */
  predicate NodeOk(v: Value) {
    && v.Obj?
    && IsText(Get(v, "type")) && IsText(Get(v, "node_type")) && IsText(Get(v, "text")) && IsText(Get(v, "label"))
    && (Get(v, "children").Some? ==> Get(v, "children").value.Arr?)
  }

  predicate Shaped(v: Value)
    decreases v
  {
    NodeOk(v) && forall i :: 0 <= i < |TreeChildren(v)| ==> Shaped(TreeChildren(v)[i])
  }

  predicate AllShaped(vs: seq<Value>) {
    forall i :: 0 <= i < |vs| ==> Shaped(vs[i])
  }

  /** An object whose kinds and labels are texts and whose children are a list, wherever it has them. */
  lemma {:induction false} NodesAre(v: Value)
    ensures NodeOk(v) <==>
              && v.Obj?
              && (forall name, x :: name in {"type", "node_type", "text", "label"} && Get(v, name) == Some(x) ==> x.Str?)
              && (forall x :: Get(v, "children") == Some(x) ==> x.Arr?)
  {
    if !(forall name, x :: name in {"type", "node_type", "text", "label"} && Get(v, name) == Some(x) ==> x.Str?) {
      var name, x :| name in {"type", "node_type", "text", "label"} && Get(v, name) == Some(x) && !x.Str?;
      assert !IsText(Get(v, name));
    }
    hide Get;
  }

  lemma {:induction false} SizeAppend(a: seq<Value>, b: seq<Value>)
    ensures SizeItems(a + b) == SizeItems(a) + SizeItems(b)
  {
    if a == [] {
      assert a + b == b;
    } else {
      assert (a + b)[1..] == a[1..] + b;
      SizeAppend(a[1..], b);
    }
  }

  lemma {:induction false} FieldIsInside(fields: seq<Field>, i: nat)
    requires i < |fields|
    ensures Size(fields[i].value) <= SizeFields(fields) && Height(fields[i].value) <= HeightFields(fields)
  {
    if i > 0 { FieldIsInside(fields[1..], i - 1); }
  }

  lemma {:induction false} ChildrenAreSmaller(v: Value)
    ensures SizeItems(TreeChildren(v)) < Size(v)
    ensures TreeChildren(v) != [] ==> 2 + HeightItems(TreeChildren(v)) <= Height(v)
  {
    HeightAtLeastOne(v);
    if Get(v, "children").Some? {
      FieldIsInside(v.fields, Find(v.fields, "children").value);
    }
  }

  method CheckShape(root: Value) returns (ok: bool)
    ensures ok <==> Shaped(root)
  {
    var nodes := [root];
    assert AllShaped(nodes) <==> Shaped(nodes[0]);
    while nodes != []
      invariant AllShaped(nodes) <==> Shaped(root)
      decreases SizeItems(nodes)
    {
      var node, rest := nodes[|nodes| - 1], nodes[..|nodes| - 1];
      assert nodes == rest + [node];
      if !NodeOk(node) { return false; }
      ChildrenAreSmaller(node);
      SizeAppend(rest, [node]);
      SizeAppend(rest, TreeChildren(node));
      ShapedParts(rest, node);
      hide Size, SizeItems, Shaped, TreeChildren;
      SizeOfOne(node);
      nodes := rest + TreeChildren(node);
    }
    return true;
  }

  lemma {:induction false} SizeOfOne(v: Value)
    ensures SizeItems([v]) == Size(v)
  {
    assert [v][1..] == [];
  }

  lemma {:induction false} ShapedParts(rest: seq<Value>, node: Value)
    requires NodeOk(node)
    ensures AllShaped(rest + [node]) <==> AllShaped(rest + TreeChildren(node))
  {
    hide NodeOk, TreeChildren;
    var children := TreeChildren(node);
    assert AllShaped(rest + [node]) <==> AllShaped(rest) && Shaped(node) by {
      assert forall i :: 0 <= i < |rest| ==> (rest + [node])[i] == rest[i];
      assert (rest + [node])[|rest|] == node;
    }
    assert AllShaped(rest + children) <==> AllShaped(rest) && AllShaped(children) by {
      assert forall i :: 0 <= i < |rest| ==> (rest + children)[i] == rest[i];
      assert forall i :: 0 <= i < |children| ==> (rest + children)[|rest| + i] == children[i];
    }
  }

  // ---- Removing trivia ----

  /** The node without its trivia descendants, or nothing when it is trivia itself. */
  function Strip(v: Value, trivia: set<string>): Option<Value>
    decreases v, 1
  {
    if v.Obj? && NodeType(v) in trivia then None else Some(StripInside(v, trivia))
  }

  function StripInside(v: Value, trivia: set<string>): Value
    decreases v, 0
  {
    match Get(v, "children")
    case Some(Arr(items)) =>
      var at := Find(v.fields, "children").value;
      Obj(v.fields[at := Field("children", Arr(StripAll(items, trivia)))])
    case _ => v
  }

  function StripAll(vs: seq<Value>, trivia: set<string>): seq<Value>
    decreases vs
  {
    if vs == [] then []
    else (if Strip(vs[0], trivia).Some? then [Strip(vs[0], trivia).value] else []) + StripAll(vs[1..], trivia)
  }

  lemma {:induction false} FindKept(fields: seq<Field>, at: nat, f: Field, name: string)
    requires at < |fields| && f.name == fields[at].name
    ensures Find(fields[at := f], name) == Find(fields, name)
  {
    if at > 0 {
      assert fields[at := f][1..] == fields[1..][at - 1 := f];
      FindKept(fields[1..], at - 1, f, name);
    }
  }

  lemma {:induction false} GetAfter(fields: seq<Field>, items: seq<Value>, name: string)
    requires Find(fields, "children").Some?
    ensures var w := Obj(fields[Find(fields, "children").value := Field("children", Arr(items))]);
            Get(w, name) == if name == "children" then Some(Arr(items)) else Get(Obj(fields), name)
  {
    FindKept(fields, Find(fields, "children").value, Field("children", Arr(items)), name);
    hide Find;
  }

  /** Only the children change. */
  lemma {:induction false} StrippedFields(v: Value, trivia: set<string>, name: string)
    ensures var w := StripInside(v, trivia);
            && w.Obj? == v.Obj?
            && (name != "children" ==> Get(w, name) == Get(v, name))
            && (Get(v, "children").Some? ==> Get(w, "children").Some? && Get(w, "children").value.Arr? == Get(v, "children").value.Arr?)
            && (Get(v, "children").None? ==> Get(w, "children").None?)
            && TreeChildren(w) == StripAll(TreeChildren(v), trivia)
  {
    if v.Obj? && Get(v, "children").Some? && Get(v, "children").value.Arr? {
      GetAfter(v.fields, StripAll(Get(v, "children").value.items, trivia), name);
      GetAfter(v.fields, StripAll(Get(v, "children").value.items, trivia), "children");
      hide Get;
    }
  }

  lemma {:induction false} StrippedNode(v: Value, trivia: set<string>)
    ensures var w := StripInside(v, trivia);
            && w.Obj? == v.Obj?
            && TreeChildren(w) == StripAll(TreeChildren(v), trivia)
            && NodeType(w) == NodeType(v)
            && Get(w, "label") == Get(v, "label") && Get(w, "text") == Get(v, "text")
            && (NodeOk(w) <==> NodeOk(v))
  {
    StrippedFields(v, trivia, "type");
    StrippedFields(v, trivia, "node_type");
    StrippedFields(v, trivia, "label");
    StrippedFields(v, trivia, "text");
    hide StripInside, TreeChildren, Get;
  }

  lemma {:induction false} StripsToItself(v: Value, trivia: set<string>)
    requires StripAll(TreeChildren(v), trivia) == TreeChildren(v)
    ensures StripInside(v, trivia) == v
  {
    if Get(v, "children").Some? && Get(v, "children").value.Arr? {
      var at := Find(v.fields, "children").value;
      assert v.fields[at] == Field("children", Arr(TreeChildren(v)));
      assert v.fields[at := v.fields[at]] == v.fields;
    }
  }

  /** No node of the tree is trivia. */
  predicate Clean(v: Value, trivia: set<string>)
    decreases v
  {
    v.Obj? ==> NodeType(v) !in trivia && forall i :: 0 <= i < |TreeChildren(v)| ==> Clean(TreeChildren(v)[i], trivia)
  }

  predicate AllClean(vs: seq<Value>, trivia: set<string>) {
    forall i :: 0 <= i < |vs| ==> Clean(vs[i], trivia)
  }

  /** Whatever is left is clean, and as well shaped as before. */
  lemma {:induction false} StripLeavesNoTrivia(v: Value, trivia: set<string>)
    ensures Strip(v, trivia).Some? ==> Clean(Strip(v, trivia).value, trivia)
    ensures Strip(v, trivia).Some? && Shaped(v) ==> Shaped(Strip(v, trivia).value)
    decreases v, 1
  {
    StrippedNode(v, trivia);
    if v.Obj? {
      StripAllLeavesNoTrivia(v, TreeChildren(v), trivia);
    }
  }

  lemma {:induction false} StripAllLeavesNoTrivia(v: Value, vs: seq<Value>, trivia: set<string>)
    requires forall i :: 0 <= i < |vs| ==> vs[i] < v
    ensures AllClean(StripAll(vs, trivia), trivia)
    ensures AllShaped(vs) ==> AllShaped(StripAll(vs, trivia))
    decreases v, 0, |vs|
  {
    if vs != [] {
      StripLeavesNoTrivia(vs[0], trivia);
      assert forall i :: 0 <= i < |vs[1..]| ==> vs[1..][i] == vs[i + 1];
      StripAllLeavesNoTrivia(v, vs[1..], trivia);
      hide Strip, Clean, Shaped;
    }
  }

  /** A clean tree is left as it is; with the lemma above, stripping twice is stripping once. */
  lemma {:induction false} CleanIsUnchanged(v: Value, trivia: set<string>)
    requires Clean(v, trivia)
    ensures Strip(v, trivia) == Some(v)
    decreases v, 1
  {
    if v.Obj? {
      AllCleanUnchanged(v, TreeChildren(v), trivia);
      StripsToItself(v, trivia);
    }
  }

  lemma {:induction false} AllCleanUnchanged(v: Value, vs: seq<Value>, trivia: set<string>)
    requires AllClean(vs, trivia) && forall i :: 0 <= i < |vs| ==> vs[i] < v
    ensures StripAll(vs, trivia) == vs
    decreases v, 0, |vs|
  {
    if vs != [] {
      CleanIsUnchanged(vs[0], trivia);
      assert forall i :: 0 <= i < |vs[1..]| ==> vs[1..][i] == vs[i + 1];
      AllCleanUnchanged(v, vs[1..], trivia);
      hide Strip, Clean;
      assert [vs[0]] + vs[1..] == vs;
    }
  }

  lemma {:induction false} StripTwice(v: Value, trivia: set<string>)
    requires Strip(v, trivia).Some?
    ensures Strip(Strip(v, trivia).value, trivia) == Strip(v, trivia)
  {
    StripLeavesNoTrivia(v, trivia);
    CleanIsUnchanged(Strip(v, trivia).value, trivia);
  }

  /** The nodes of a tree in pre-order, leaving out trivia and everything below it; a node is known by its type
      and its fields other than the children. */
  function Outline(v: Value, trivia: set<string>): seq<(string, Option<Value>, Option<Value>)>
    decreases v, 1
  {
    if v.Obj? && NodeType(v) in trivia then []
    else [(NodeType(v), Get(v, "label"), Get(v, "text"))] + (if v.Obj? then OutlineAll(v, TreeChildren(v), trivia) else [])
  }

  function OutlineAll(v: Value, vs: seq<Value>, trivia: set<string>): seq<(string, Option<Value>, Option<Value>)>
    requires forall i :: 0 <= i < |vs| ==> vs[i] < v
    decreases v, 0, |vs|
  {
    if vs == [] then [] else Outline(vs[0], trivia) + OutlineAll(v, vs[1..], trivia)
  }

  /** Stripping keeps every node that is not at or below trivia, with its label, in order. */
  lemma {:induction false} StripKeepsTheRest(v: Value, trivia: set<string>)
    ensures Outline(v, trivia) == if Strip(v, trivia).None? then [] else Outline(Strip(v, trivia).value, {})
    decreases v, 1
  {
    StrippedNode(v, trivia);
    if v.Obj? && NodeType(v) !in trivia {
      StripAllKeepsTheRest(v, StripInside(v, trivia), TreeChildren(v), trivia);
    }
  }

  lemma {:induction false} StripAllKeepsTheRest(v: Value, w: Value, vs: seq<Value>, trivia: set<string>)
    requires forall i :: 0 <= i < |vs| ==> vs[i] < v
    requires forall i :: 0 <= i < |StripAll(vs, trivia)| ==> StripAll(vs, trivia)[i] < w
    ensures OutlineAll(v, vs, trivia) == OutlineAll(w, StripAll(vs, trivia), {})
    decreases v, 0, |vs|
  {
    if vs != [] {
      StripKeepsTheRest(vs[0], trivia);
      assert forall i :: 0 <= i < |vs[1..]| ==> vs[1..][i] == vs[i + 1];
      var first, rest := Strip(vs[0], trivia), StripAll(vs[1..], trivia);
      if first.Some? {
        assert StripAll(vs, trivia) == [first.value] + rest;
        assert forall i :: 0 <= i < |rest| ==> rest[i] == StripAll(vs, trivia)[i + 1];
        assert ([first.value] + rest)[1..] == rest;
      } else {
        assert StripAll(vs, trivia) == rest;
      }
      StripAllKeepsTheRest(v, w, vs[1..], trivia);
      hide Strip, StripAll, Outline;
    }
  }

  // ---- Hashing ----

  /** The digest of a tree; `digest` is SHA-256 in hexadecimal. Nothing when a node is not an object or a label is
      not text. */
  function Hash(digest: string -> string, v: Value): Option<string>
    decreases v, 1
  {
    if !v.Obj? then None
    else if TreeChildren(v) != [] then
      match HashAll(digest, v, TreeChildren(v))
      case None => None
      case Some(hashes) => Some(digest(NodeType(v) + "|" + hashes))
    else
      match if Get(v, "label").Some? then Get(v, "label") else Get(v, "text")
      case None => Some(digest(NodeType(v) + ":"))
      case Some(Str(text)) => Some(digest(NodeType(v) + ":" + text))
      case Some(_) => None
  }

  function HashAll(digest: string -> string, v: Value, vs: seq<Value>): Option<string>
    requires forall i :: 0 <= i < |vs| ==> vs[i] < v
    decreases v, 0, |vs|
  {
    if vs == [] then Some("")
    else
      match (Hash(digest, vs[0]), HashAll(digest, v, vs[1..]))
      case (Some(first), Some(rest)) => Some(if |vs| == 1 then first else first + "|" + rest)
      case _ => None
  }

  /** Every tree that passed the shape check has a hash. */
  lemma {:induction false} ShapedTreesHash(digest: string -> string, v: Value)
    requires Shaped(v)
    ensures Hash(digest, v).Some?
    decreases v, 1
  {
    AllShapedHash(digest, v, TreeChildren(v));
  }

  lemma {:induction false} AllShapedHash(digest: string -> string, v: Value, vs: seq<Value>)
    requires AllShaped(vs) && forall i :: 0 <= i < |vs| ==> vs[i] < v
    ensures HashAll(digest, v, vs).Some?
    decreases v, 0, |vs|
  {
    if vs != [] {
      ShapedTreesHash(digest, vs[0]);
      assert forall i :: 0 <= i < |vs[1..]| ==> vs[1..][i] == vs[i + 1];
      AllShapedHash(digest, v, vs[1..]);
    }
  }

  /** What a hash is meant to stand for: kinds, the order of the children, and the texts of the leaves. */
  datatype Structure = Leaf(kind: string, text: string) | Inner(kind: string, children: seq<Structure>)

  /** The text of a leaf: its label if it has one, else its text. */
  ghost predicate LeafText(v: Value, text: string) {
    || Get(v, "label") == Some(Str(text))
    || (Get(v, "label") == None && Get(v, "text") == Some(Str(text)))
    || (Get(v, "label") == None && Get(v, "text") == None && text == "")
  }

  /** `s` is the structure of the tree. */
  ghost predicate HasStructure(v: Value, s: Structure)
    decreases v, 1
  {
    v.Obj? && s.kind == NodeType(v) &&
    if TreeChildren(v) == [] then s.Leaf? && LeafText(v, s.text)
    else s.Inner? && HaveStructures(v, TreeChildren(v), s.children)
  }

  ghost predicate HaveStructures(v: Value, vs: seq<Value>, ss: seq<Structure>)
    requires forall i :: 0 <= i < |vs| ==> vs[i] < v
    decreases v, 0, |vs|
  {
    |vs| == |ss| && (vs == [] || (HasStructure(vs[0], ss[0]) && HaveStructures(v, vs[1..], ss[1..])))
  }

  /** The hash of a structure. */
  function Sealed(digest: string -> string, s: Structure): string
    decreases s, 1
  {
    match s
    case Leaf(kind, text) => digest(kind + ":" + text)
    case Inner(kind, children) => digest(kind + "|" + SealedAll(digest, children))
  }

  function SealedAll(digest: string -> string, ss: seq<Structure>): string
    decreases ss, 0
  {
    if ss == [] then "" else if |ss| == 1 then Sealed(digest, ss[0]) else Sealed(digest, ss[0]) + "|" + SealedAll(digest, ss[1..])
  }

  /** The hash of a tree is that of its structure. */
  lemma {:induction false} HashIsOfStructure(digest: string -> string, v: Value, s: Structure)
    requires HasStructure(v, s)
    ensures Hash(digest, v) == Some(Sealed(digest, s))
    decreases v, 1
  {
    if TreeChildren(v) != [] {
      HashAllIsOfStructures(digest, v, TreeChildren(v), s.children);
    } else {
      assert NodeType(v) + ":" + "" == NodeType(v) + ":";
    }
  }

  lemma {:induction false} HashAllIsOfStructures(digest: string -> string, v: Value, vs: seq<Value>, ss: seq<Structure>)
    requires (forall i :: 0 <= i < |vs| ==> vs[i] < v) && HaveStructures(v, vs, ss)
    ensures HashAll(digest, v, vs) == Some(SealedAll(digest, ss))
    decreases v, 0, |vs|
  {
    if vs != [] {
      HashIsOfStructure(digest, vs[0], ss[0]);
      assert forall i :: 0 <= i < |vs[1..]| ==> vs[1..][i] == vs[i + 1];
      HashAllIsOfStructures(digest, v, vs[1..], ss[1..]);
      assert HashAll(digest, v, vs) == Some(if |vs| == 1 then Sealed(digest, ss[0]) else Sealed(digest, ss[0]) + "|" + SealedAll(digest, ss[1..]));
    }
  }

  /** No kind of the structure holds a separator of the hashed text. */
  predicate Separable(s: Structure)
    decreases s, 1
  {
    ':' !in s.kind && '|' !in s.kind && (s.Inner? ==> s.children != [] && AllSeparable(s.children))
  }

  predicate AllSeparable(ss: seq<Structure>)
    decreases ss, 0
  {
    ss == [] || (Separable(ss[0]) && AllSeparable(ss[1..]))
  }

  /** A digest without collisions and without bars in what it returns, as hexadecimal digits are. */
  ghost predicate Ideal(digest: string -> string) {
    && (forall a, b :: digest(a) == digest(b) ==> a == b)
    && (forall a :: '|' !in digest(a))
  }

  lemma {:induction false} FirstBar(a: string, x: string, b: string, y: string)
    requires '|' !in a && '|' !in b
    ensures a + "|" + x == b + "|" + y ==> a == b && x == y
    ensures a != b + "|" + y
  {
    assert (b + "|" + y)[|b|] == '|';
    if a + "|" + x == b + "|" + y { CutAtSeparator({'|'}, a, '|', x, b, '|', y); }
  }

  lemma {:induction false} SealedInjective(digest: string -> string, s: Structure, t: Structure)
    requires Ideal(digest) && Separable(s) && Separable(t) && Sealed(digest, s) == Sealed(digest, t)
    ensures s == t
    decreases s, 1
  {
    var x, y := if s.Leaf? then s.text else SealedAll(digest, s.children), if t.Leaf? then t.text else SealedAll(digest, t.children);
    CutAtSeparator({':', '|'}, s.kind, if s.Leaf? then ':' else '|', x, t.kind, if t.Leaf? then ':' else '|', y);
    if s.Inner? {
      SealedAllInjective(digest, s.children, t.children);
    }
  }

  lemma {:induction false} SealedHasNoBar(digest: string -> string, s: Structure)
    requires Ideal(digest)
    ensures '|' !in Sealed(digest, s)
  {}

  lemma {:induction false} SealedAllInjective(digest: string -> string, ss: seq<Structure>, ts: seq<Structure>)
    requires Ideal(digest) && AllSeparable(ss) && AllSeparable(ts) && ss != [] && ts != []
    requires SealedAll(digest, ss) == SealedAll(digest, ts)
    ensures ss == ts
    decreases ss, 0
  {
    SealedHasNoBar(digest, ss[0]);
    SealedHasNoBar(digest, ts[0]);
    var x, y := if |ss| == 1 then "" else SealedAll(digest, ss[1..]), if |ts| == 1 then "" else SealedAll(digest, ts[1..]);
    FirstBar(Sealed(digest, ss[0]), x, Sealed(digest, ts[0]), y);
    FirstBar(Sealed(digest, ts[0]), y, Sealed(digest, ss[0]), x);
    hide Ideal, Sealed;
    SealedInjective(digest, ss[0], ts[0]);
    if |ss| > 1 { SealedAllInjective(digest, ss[1..], ts[1..]); }
    assert ss == [ss[0]] + ss[1..] && ts == [ts[0]] + ts[1..];
  }

  /** Every tree that passed the shape check has one structure. */
  lemma {:induction false} ShapedHasStructure(v: Value) returns (s: Structure)
    requires Shaped(v)
    ensures HasStructure(v, s) && (s.Inner? ==> s.children != [])
    decreases v, 1
  {
    var kids := TreeChildren(v);
    if kids == [] {
      var shown := if Get(v, "label").Some? then Get(v, "label") else Get(v, "text");
      s := Leaf(NodeType(v), if shown.Some? then shown.value.text else "");
    } else {
      var ss := ShapedHaveStructures(v, kids);
      s := Inner(NodeType(v), ss);
    }
  }

  lemma {:induction false} ShapedHaveStructures(v: Value, vs: seq<Value>) returns (ss: seq<Structure>)
    requires AllShaped(vs) && forall i :: 0 <= i < |vs| ==> vs[i] < v
    ensures HaveStructures(v, vs, ss)
    decreases v, 0, |vs|
  {
    ss := [];
    if vs != [] {
      var first := ShapedHasStructure(vs[0]);
      assert forall i :: 0 <= i < |vs[1..]| ==> vs[1..][i] == vs[i + 1];
      var rest := ShapedHaveStructures(v, vs[1..]);
      ss := [first] + rest;
    }
  }

  /** Trees of equal structure hash alike, and, under a digest without collisions, only they do where no kind holds a
      colon or a bar. */
  lemma {:induction false} HashIsStructural(digest: string -> string, v: Value, w: Value, s: Structure, t: Structure)
    requires HasStructure(v, s) && HasStructure(w, t)
    ensures s == t ==> Hash(digest, v) == Hash(digest, w)
    ensures Ideal(digest) && Separable(s) && Separable(t) ==> (Hash(digest, v) == Hash(digest, w) <==> s == t)
  {
    HashIsOfStructure(digest, v, s);
    HashIsOfStructure(digest, w, t);
    if Ideal(digest) && Separable(s) && Separable(t) && Sealed(digest, s) == Sealed(digest, t) {
      SealedInjective(digest, s, t);
    }
  }

  function LeafNode(kind: string, text: string): Value {
    Obj([Field("type", Str(kind)), Field("text", Str(text))])
  }

  /** With a colon in a kind, two different leaves hash alike under every digest. */
  lemma {:induction false} ColonCollides(digest: string -> string)
    ensures HasStructure(LeafNode("a:", "b"), Leaf("a:", "b")) && HasStructure(LeafNode("a", ":b"), Leaf("a", ":b"))
    ensures Hash(digest, LeafNode("a:", "b")) == Hash(digest, LeafNode("a", ":b"))
  {
    LeafNodeIs("a:", "b");
    LeafNodeIs("a", ":b");
    HashIsOfStructure(digest, LeafNode("a:", "b"), Leaf("a:", "b"));
    HashIsOfStructure(digest, LeafNode("a", ":b"), Leaf("a", ":b"));
    assert "a:" + ":" + "b" == "a" + ":" + ":b";
  }

  lemma {:induction false} LeafNodeIs(kind: string, text: string)
    ensures HasStructure(LeafNode(kind, text), Leaf(kind, text))
  {
    var v := LeafNode(kind, text);
    var fields := v.fields;
    assert Find(fields[1..][1..], "children") == None;
    assert Find(fields[1..], "children") == None && Find(fields, "children") == None;
    assert Find(fields[1..], "label") == None && Find(fields, "label") == None;
    assert Find(fields[1..], "node_type") == None && Find(fields, "node_type") == None;
    assert Find(fields[1..], "text") == Some(0) && Find(fields, "text") == Some(1) && Find(fields, "type") == Some(0);
  }

  /** The kind is a nonempty text `node_type`, else a text `type`, else nothing. */
  lemma {:induction false} NodeTypeMeans(v: Value, kind: string)
    requires NodeType(v) == kind
    ensures (exists k :: Get(v, "node_type") == Some(Str(k)) && k != "") ==> Get(v, "node_type") == Some(Str(kind))
    ensures !(exists k :: Get(v, "node_type") == Some(Str(k)) && k != "") ==>
              Get(v, "type") == Some(Str(kind)) || (kind == "" && !exists k :: Get(v, "type") == Some(Str(k)))
  {}

  /** How deep stripping and hashing recurse. */
  function Recursion(v: Value): nat
    decreases v, 1
  {
    1 + if v.Obj? then RecursionAll(v, TreeChildren(v)) else 0
  }

  function RecursionAll(v: Value, vs: seq<Value>): nat
    requires forall i :: 0 <= i < |vs| ==> vs[i] < v
    decreases v, 0, |vs|
  {
    if vs == [] then 0 else Max(Recursion(vs[0]), RecursionAll(v, vs[1..]))
  }

  /** Each tree level takes two levels of JSON, so a value within the depth limit bounds the recursion by half of it. */
  lemma {:induction false} RecursionIsBounded(v: Value)
    ensures 2 * Recursion(v) <= Height(v) + 1
    decreases v, 1
  {
    HeightAtLeastOne(v);
    ChildrenAreSmaller(v);
    if v.Obj? {
      RecursionAllIsBounded(v, TreeChildren(v));
    }
  }

  lemma {:induction false} RecursionAllIsBounded(v: Value, vs: seq<Value>)
    requires forall i :: 0 <= i < |vs| ==> vs[i] < v
    ensures vs != [] ==> 2 * RecursionAll(v, vs) <= HeightItems(vs) + 1
    ensures vs == [] ==> RecursionAll(v, vs) == 0
    decreases v, 0, |vs|
  {
    if vs != [] {
      RecursionIsBounded(vs[0]);
      HeightAtLeastOne(vs[0]);
      assert forall i :: 0 <= i < |vs[1..]| ==> vs[1..][i] == vs[i + 1];
      RecursionAllIsBounded(v, vs[1..]);
    }
  }

  // ---- The guarded parse ----

  datatype Limits = Limits(maxDepth: nat, maxNodes: nat)

  function Min(a: nat, b: nat): nat {
    if a < b then a else b
  }

  const CEILING := Limits(256, 1_000_000)

  /** A well-formed text is accepted exactly when the scan, the walk and the shape check all pass; callers can only
      tighten the limits. */
  method Parse(decode: seq<Chunk> -> string, document: Element, limits: Limits) returns (result: Option<Value>)
    requires ElementOk(document)
    ensures var v := Parsed(decode, document.value);
            var depth := if limits.maxDepth <= 256 then limits.maxDepth else 256;
            var nodes := if limits.maxNodes <= 1_000_000 then limits.maxNodes else 1_000_000;
            && result == (if Depth(document.value) <= depth && Height(v) <= depth && Size(v) <= nodes && Shaped(v) then Some(v) else None)
            && (result.Some? ==> 2 * Recursion(v) <= depth + 1)
  {
    var v := Parsed(decode, document.value);
    var depth, nodes := Min(limits.maxDepth, CEILING.maxDepth), Min(limits.maxNodes, CEILING.maxNodes);
    ScanFindsDepth(document);
    RecursionIsBounded(v);
    var scanned := PreScan(PrintElement(document), depth);
    if !scanned { return None; }
    var walked := Walk(v, depth, nodes);
    if !walked { return None; }
    var shaped := CheckShape(v);
    return if shaped then Some(v) else None;
  }
}
