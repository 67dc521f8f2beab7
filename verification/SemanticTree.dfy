/** The parser-independent tree and the edit drafts that the passes rewrite. */
module SemanticTree {
  import opened Common

  /** Ids are dotted paths, unique within a tree. */
  datatype Node = Node(id: string, kind: string, text: string, children: seq<Node>)

  /** Pre-order, without the node itself. */
  function Descendants(n: Node): seq<Node>
    decreases n, 0
  {
    Forest(n.children)
  }

  function Forest(ns: seq<Node>): seq<Node>
    decreases ns, 1
  {
    if ns == [] then [] else [ns[0]] + Descendants(ns[0]) + Forest(ns[1..])
  }

  /** The id up to its last dot, if it has one. */
  function ParentId(id: string): Option<string> {
    if '.' !in id then None
    else if id[|id| - 1] == '.' then Some(id[..|id| - 1])
    else ParentId(id[..|id| - 1])
  }

  lemma {:induction false} TrailingDot(whole: string, parent: string)
    ensures parent + "." <= whole + "." && '.' !in (whole + ".")[|parent| + 1..] <==> parent == whole
  {
    var id := whole + ".";
    if parent + "." <= id && parent != whole {
      assert id[..|parent|] == parent && id[..|whole|] == whole;
      assert |parent| < |whole|;
      assert id[|parent| + 1..][|whole| - |parent| - 1] == '.';
    }
  }

  /** The parent's id is what stands in front of the last dot. */
  lemma {:induction false} ParentIdIs(id: string, parent: string)
    ensures ParentId(id) == Some(parent) <==> parent + "." <= id && '.' !in id[|parent| + 1..]
    ensures ParentId(id).None? <==> '.' !in id
    decreases |id|
  {
    assert parent + "." <= id ==> id[|parent|] == '.';
    if '.' in id {
      var shorter, last := id[..|id| - 1], id[|id| - 1];
      assert id == shorter + [last];
      if last == '.' {
        TrailingDot(shorter, parent);
      } else {
        ParentIdIs(shorter, parent);
        if parent + "." <= id {
          assert |parent| + 1 < |id|;
          assert id[|parent| + 1..] == shorter[|parent| + 1..] + [last];
        }
      }
    }
  }

  datatype MatchPair = MatchPair(oldNode: Node, newNode: Node)

  datatype ChangeType = Addition | Deletion | Modification | Move | Reorder | Refactoring

  /** One edit. Descriptions and text diffs carry no decision and are left out. */
  datatype Draft = Draft(change: ChangeType, oldNode: Option<Node>, newNode: Option<Node>,
                         oldIndex: Option<nat>, newIndex: Option<nat>, confidence: real,
                         refactoringKind: Option<string>)
}
