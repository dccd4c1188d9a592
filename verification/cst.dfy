/**
 * The concrete syntax tree handed over by tree-sitter. A node records its
 * grammar kind, byte and row extent, children and error flag; sibling and
 * parent information comes from a node's position in its parent's child list
 * (a `ChildRef`), as tree-sitter's `prev_sibling`/`next_sibling` do.
 */
module Cst {
  import opened Optional

  type Byte = b: int | 0 <= b < 256
  type Bytes = seq<Byte>

  /**
   * A tree-sitter node: `type`, `start_byte`/`end_byte`, the row halves of
   * `start_point`/`end_point`, `children`, whether the parser flags it as an
   * error, and `text` (its source bytes).
   */
  datatype Node = Node(
    kind: string,
    startByte: nat,
    endByte: nat,
    startRow: nat,
    endRow: nat,
    children: seq<Node>,
    isError: bool,
    text: Bytes)

  /** Number of nodes in the tree rooted at `n`; the recursion measure of the builder. */
  function Size(n: Node): nat
    decreases n
  {
    1 + SizeOfAll(n.children)
  }

  function SizeOfAll(ns: seq<Node>): nat
    decreases ns
  {
    if ns == [] then 0 else Size(ns[0]) + SizeOfAll(ns[1..])
  }

  lemma {:induction false} SizeOfAllBounds(ns: seq<Node>, i: nat)
    requires i < |ns|
    ensures Size(ns[i]) <= SizeOfAll(ns)
  {
    if i > 0 {
      SizeOfAllBounds(ns[1..], i - 1);
    }
  }

  /** A child is a strictly smaller tree than its parent. */
  lemma ChildSmaller(n: Node, i: nat)
    requires i < |n.children|
    ensures Size(n.children[i]) < Size(n)
  {
    SizeOfAllBounds(n.children, i);
  }

  /** A node seen through its parent: `parent.children[index]`. */
  datatype Sibling = Sibling(parent: Node, index: nat)

  type ChildRef = r: Sibling | r.index < |r.parent.children|
    witness Sibling(Node("", 0, 0, 0, 0, [Node("", 0, 0, 0, 0, [], false, [])], false, []), 0)

  function NodeOf(r: ChildRef): Node
  {
    r.parent.children[r.index]
  }

  /** tree-sitter's `prev_sibling`: the node just before this one in its parent. */
  function PrevSibling(r: ChildRef): (p: Option<Node>)
    ensures p.None? <==> r.index == 0
    ensures p.Some? ==> p.value == r.parent.children[r.index - 1]
  {
    if r.index == 0 then None else Some(r.parent.children[r.index - 1])
  }

  /** References to `p.children[from..]`, each knowing its place in `p`. */
  function ChildRefs(p: Node, from: nat): (r: seq<ChildRef>)
    ensures |r| == if from <= |p.children| then |p.children| - from else 0
    ensures forall k :: 0 <= k < |r| ==> r[k].parent == p && r[k].index == from + k
  {
    if from >= |p.children| then []
    else seq(|p.children| - from, k requires 0 <= k < |p.children| - from => Sibling(p, from + k))
  }

  function NodesOf(refs: seq<ChildRef>): (ns: seq<Node>)
    ensures |ns| == |refs|
    ensures forall k :: 0 <= k < |refs| ==> ns[k] == NodeOf(refs[k])
  {
    seq(|refs|, k requires 0 <= k < |refs| => NodeOf(refs[k]))
  }

  lemma NodesOfChildRefs(p: Node, from: nat)
    requires from <= |p.children|
    ensures NodesOf(ChildRefs(p, from)) == p.children[from..]
  {
  }

  lemma NodesOfConcat(a: seq<ChildRef>, b: seq<ChildRef>)
    ensures NodesOf(a + b) == NodesOf(a) + NodesOf(b)
  {
  }

  /**
   * The helper `_find_type(node, kind)`: the index of the first child of the
   * given kind, or none.
   */
  function FindType(n: Node, kind: string): (r: Option<nat>)
    ensures r.Some? ==> r.value < |n.children| && n.children[r.value].kind == kind
    ensures r.Some? ==> forall j :: 0 <= j < r.value ==> n.children[j].kind != kind
    ensures r.None? ==> forall j :: 0 <= j < |n.children| ==> n.children[j].kind != kind
  {
    FirstOfKind(n.children, kind, 0)
  }

  function FirstOfKind(ns: seq<Node>, kind: string, from: nat): (r: Option<nat>)
    requires from <= |ns|
    requires forall j :: 0 <= j < from ==> ns[j].kind != kind
    ensures r.Some? ==> from <= r.value < |ns| && ns[r.value].kind == kind
    ensures r.Some? ==> forall j :: 0 <= j < r.value ==> ns[j].kind != kind
    ensures r.None? ==> forall j :: 0 <= j < |ns| ==> ns[j].kind != kind
    decreases |ns| - from
  {
    if from == |ns| then None
    else if ns[from].kind == kind then Some(from)
    else FirstOfKind(ns, kind, from + 1)
  }

  /** Byte ranges of consecutive nodes do not overlap and come in order. */
  predicate Sorted(ns: seq<Node>)
  {
    |ns| < 2 || (ns[0].endByte <= ns[1].startByte && Sorted(ns[1..]))
  }

  /**
   * The layout of a node's direct children that tree-sitter produces: the
   * node's range is ordered, its children are sorted and lie inside it.
   */
  predicate Nested(n: Node)
  {
    && n.startByte <= n.endByte
    && Sorted(n.children)
    && (|n.children| > 0 ==>
          n.startByte <= n.children[0].startByte && n.children[|n.children| - 1].endByte <= n.endByte)
  }

  /**
   * A well-formed inner tree: every node is `Nested` and a node with children
   * ends where its last child ends.
   */
  predicate WellFormed(n: Node)
  {
    && Nested(n)
    && (|n.children| > 0 ==> n.children[|n.children| - 1].endByte == n.endByte)
    && forall i :: 0 <= i < |n.children| ==> WellFormed(n.children[i])
  }

  /** A well-formed root may extend past its last child (trailing whitespace). */
  predicate RootWellFormed(n: Node)
  {
    Nested(n) && forall i :: 0 <= i < |n.children| ==> WellFormed(n.children[i])
  }
}
