/**
 * The Java code-block builder: classification of tree-sitter node kinds into
 * block categories, the per-construct rules choosing which nodes become a
 * block's children, and the recursive builder that splits the source bytes
 * among the blocks.
 */
module JavaParser {
  import opened Optional
  import opened Strings
  import opened Cst
  import opened CodeBlocks

  const Language: string := "java"

  const ClassNodeTypes: seq<string> := [
    "annotation_type_declaration",
    "class_declaration",
    "enum_declaration",
    "interface_declaration",
    "record_declaration"
  ]

  const FunctionNodeTypes: seq<string> := [
    "method_declaration",
    "constructor_declaration"
  ]

  /**
   * The statement table as the source spells it: no comma follows
   * "try_statement", so Python joins it with the next literal and neither
   * "try_statement" nor "switch_expression" is an entry.
   */
  const StatementNodeTypes: seq<string> := [
    "static_initializer",
    "instance_initializer",
    "if_statement",
    "for_statement",
    "enhanced_for_statement",
    "while_statement",
    "do_statement",
    "synchronized_statement",
    "try_statementswitch_expression"
  ]

  const BlockDelimiters: seq<string> := ["{", "}"]

  const DeclarationNodeTypes: seq<string> := [
    "local_variable_declaration",
    "field_declaration",
    "constant_declaration"
  ]

  /** The bytes of "..." (three full stops), the commented-out-code marker. */
  const Ellipsis: Bytes := [46, 46, 46]

  /**
   * The grammar hooks the shared base parser supplies: `find_block_node`
   * (the index of the block-bearing child, if any) and
   * `get_child_node_block_types` (kinds whose children are spliced into the
   * parent). Neither body is part of this model.
   */
  datatype Grammar = Grammar(findBlockNode: Node -> Option<nat>, childNodeBlockTypes: seq<string>)

  /**
   * How a spliced error node is wrapped: `AsWritten` gives the ERROR block the
   * enclosing node's `pre_code` and header `content`, as the source does;
   * `Salvage` gives it no bytes of its own.
   */
  datatype ErrorWrap = AsWritten | Salvage

  /**
   * `get_block_type`. The rules are tried in order, but the tables are
   * disjoint and contain no kind with "comment" in it, so each category is
   * characterised by its own rule alone.
   */
  function GetBlockType(node: Node): (r: CodeBlockType)
    ensures r == Module <==> node.kind == "program"
    ensures r == Function <==> node.kind in FunctionNodeTypes
    ensures r == Class <==> node.kind in ClassNodeTypes
    ensures r == Statement <==> node.kind in StatementNodeTypes
    ensures r == BlockDelimiter <==> node.kind in BlockDelimiters
    ensures r == Import <==> node.kind == "import_declaration"
    ensures r == CommentedOutCode <==>
              IsInfix("comment", node.kind) && IsInfix(Ellipsis, node.text) && !InTables(node.kind)
    ensures r == Comment <==>
              IsInfix("comment", node.kind) && !IsInfix(Ellipsis, node.text) && !InTables(node.kind)
    ensures r == Code <==> !IsInfix("comment", node.kind) && !InTables(node.kind)
    ensures r != Error && r != Space
  {
    if node.kind == "program" then Module
    else if node.kind in FunctionNodeTypes then Function
    else if node.kind in ClassNodeTypes then Class
    else if node.kind in StatementNodeTypes then Statement
    else if node.kind in BlockDelimiters then BlockDelimiter
    else if node.kind == "import_declaration" then Import
    else if IsInfix("comment", node.kind) then
      if IsInfix(Ellipsis, node.text) then CommentedOutCode else Comment
    else Code
  }

  /** The kind is named by one of the classification rules before the comment rule. */
  predicate InTables(kind: string)
  {
    || kind == "program"
    || kind in FunctionNodeTypes
    || kind in ClassNodeTypes
    || kind in StatementNodeTypes
    || kind in BlockDelimiters
    || kind == "import_declaration"
  }

  /** `get_block_delimiter_types`. */
  function GetBlockDelimiterTypes(): seq<string>
  {
    BlockDelimiters
  }

  /** The first `package_declaration` child that has a following sibling. */
  function PackageBeforeContent(children: seq<Node>, from: nat): (r: Option<nat>)
    requires from <= |children|
    ensures r.Some? ==> from <= r.value && r.value + 1 < |children|
    ensures r.Some? ==> children[r.value].kind == "package_declaration"
    ensures r.Some? ==> forall j :: from <= j < r.value ==> children[j].kind != "package_declaration"
    ensures r.None? ==> forall j :: from <= j < |children| - 1 ==> children[j].kind != "package_declaration"
    decreases |children| - from
  {
    if from == |children| then None
    else if children[from].kind == "package_declaration" && from + 1 < |children| then Some(from)
    else PackageBeforeContent(children, from + 1)
  }

  /** Children of the `program` root: everything after a package declaration. */
  function ProgramChildNodes(node: Node): (r: seq<ChildRef>)
  {
    match PackageBeforeContent(node.children, 0)
    case Some(i) => ChildRefs(node, i + 1)
    case None => ChildRefs(node, 0)
  }

  /**
   * `delimiter, _ = _find_type(n, token); if delimiter:` — the index just past
   * the token, where a token found at index 0 counts as not found.
   */
  function AfterToken(n: Node, token: string): (r: Option<nat>)
    ensures r.Some? ==> 2 <= r.value <= |n.children| && n.children[r.value - 1].kind == token
  {
    match FindType(n, token)
    case Some(d) => if d != 0 then Some(d + 1) else None
    case None => None
  }

  /**
   * A local, field or constant declaration with an initialiser: the
   * declarator's children after `=`, then the declaration's children after
   * the declarator.
   */
  function DeclarationChildNodes(node: Node): Option<seq<ChildRef>>
  {
    if && node.kind in DeclarationNodeTypes
       && |node.children| > 0
       && (exists k | 0 <= k < |node.children| :: |node.children[k].children| > 0)
    then
      match FindType(node, "variable_declarator")
      case Some(i) =>
        var declarator := node.children[i];
        if |declarator.children| > 0 then
          match AfterToken(declarator, "=")
          case Some(d) => Some(ChildRefs(declarator, d) + ChildRefs(node, i + 1))
          case None => None
        else None
      case None => None
    else None
  }

  /** A `variable_declarator` after `=`, or a `switch_rule` after `->`. */
  function DelimitedChildNodes(node: Node): Option<seq<ChildRef>>
  {
    if node.kind == "variable_declarator" then
      match AfterToken(node, "=")
      case Some(d) => Some(ChildRefs(node, d))
      case None => None
    else if node.kind == "switch_rule" then
      match AfterToken(node, "->")
      case Some(d) => Some(ChildRefs(node, d))
      case None => None
    else None
  }

  /** `find_block_node`, read as an index into the node's children. */
  function BlockNodeIndex(g: Grammar, node: Node): (r: Option<nat>)
    ensures r.Some? ==> r.value < |node.children|
  {
    match g.findBlockNode(node)
    case Some(b) => if b < |node.children| then Some(b) else None
    case None => None
  }

  /** The block node's children followed by every later sibling of the block node. */
  function BlockChildNodes(g: Grammar, node: Node): seq<ChildRef>
  {
    match BlockNodeIndex(g, node)
    case Some(b) => ChildRefs(node.children[b], 0) + ChildRefs(node, b + 1)
    case None => []
  }

  /** Every reference points at a child of `node` or at a grandchild through one of its children. */
  predicate Below(node: Node, refs: seq<ChildRef>)
  {
    forall k :: 0 <= k < |refs| ==>
      refs[k].parent == node || exists j | 0 <= j < |node.children| :: refs[k].parent == node.children[j]
  }

  lemma BelowSmaller(node: Node, refs: seq<ChildRef>)
    requires Below(node, refs)
    ensures forall k :: 0 <= k < |refs| ==> Size(NodeOf(refs[k])) < Size(node)
  {
    forall k | 0 <= k < |refs| ensures Size(NodeOf(refs[k])) < Size(node) {
      ChildSmaller(refs[k].parent, refs[k].index);
      if refs[k].parent != node {
        var j :| 0 <= j < |node.children| && refs[k].parent == node.children[j];
        ChildSmaller(node, j);
      }
    }
  }

  /** `get_child_node`: the nodes that become the block's children, in order. */
  function GetChildNodes(g: Grammar, node: Node): (r: seq<ChildRef>)
    ensures Below(node, r)
  {
    if node.kind == "program" then ProgramChildNodes(node)
    else match DeclarationChildNodes(node)
      case Some(r) => r
      case None =>
        match DelimitedChildNodes(node)
        case Some(r) => r
        case None => BlockChildNodes(g, node)
  }

  /** Where the header `content` ends: `(end_byte, end_line)`. */
  function HeaderEnd(node: Node, childNodes: seq<ChildRef>): (nat, nat)
  {
    if |childNodes| > 0 then
      match PrevSibling(childNodes[0])
      case Some(p) => (p.endByte, p.endRow)
      case None => (NodeOf(childNodes[0]).startByte, node.endRow)
    else (node.endByte, node.endRow)
  }

  /** Every child node is a childless non-delimiter, so they collapse into one CODE block. */
  predicate CollapsesToCode(childNodes: seq<ChildRef>)
  {
    && |childNodes| > 0
    && forall k :: 0 <= k < |childNodes| ==>
         |NodeOf(childNodes[k]).children| == 0 && NodeOf(childNodes[k]).kind !in GetBlockDelimiterTypes()
  }

  /**
   * What `parse_code` computes before building children: the header end
   * (`end_byte`, `end_line`), `pre_code` and the header `content`, with the
   * node's kind and first row that an ERROR wrapper reuses.
   */
  datatype Header = Header(kind: string, startLine: nat, endByte: nat, endLine: nat, preCode: Bytes, content: Bytes)

  function MakeHeader(src: Bytes, node: Node, startByte: nat, childNodes: seq<ChildRef>): (h: Header)
    ensures h.kind == node.kind && h.startLine == node.startRow
    ensures h.preCode == Slice(src, startByte, node.startByte)
    ensures h.content == Slice(src, node.startByte, h.endByte)
    // Without child nodes the header is the whole node.
    ensures |childNodes| == 0 ==> h.endByte == node.endByte && h.endLine == node.endRow
    // Otherwise it ends where the first child node's previous sibling ends ...
    ensures |childNodes| > 0 && childNodes[0].index > 0 ==>
              var p := childNodes[0].parent.children[childNodes[0].index - 1];
              h.endByte == p.endByte && h.endLine == p.endRow
    // ... or, when the first child node has none, where that node starts, on the node's last row.
    ensures |childNodes| > 0 && childNodes[0].index == 0 ==>
              h.endByte == NodeOf(childNodes[0]).startByte && h.endLine == node.endRow
  {
    var (endByte, endLine) := HeaderEnd(node, childNodes);
    Header(node.kind, node.startRow, endByte, endLine, Slice(src, startByte, node.startByte), Slice(src, node.startByte, endByte))
  }

  /** Blocks built from a run of nodes, and the cursor after them. */
  datatype Built = Built(blocks: seq<CodeBlock>, cursor: nat)

  function ErrorBlock(wrap: ErrorWrap, hdr: Header, blocks: seq<CodeBlock>): CodeBlock
  {
    match wrap
    case AsWritten => CodeBlock(Error, Some(hdr.kind), hdr.startLine, hdr.endLine, hdr.preCode, hdr.content, blocks, None)
    case Salvage => CodeBlock(Error, Some(hdr.kind), hdr.startLine, hdr.endLine, [], [], blocks, None)
  }

  /** The single CODE block that stands for a run of childless child nodes. */
  function CollapsedCode(src: Bytes, childNodes: seq<ChildRef>, endByte: nat): CodeBlock
    requires |childNodes| > 0
  {
    var first := NodeOf(childNodes[0]);
    var last := NodeOf(childNodes[|childNodes| - 1]);
    CodeBlock(Code, None, first.startRow, last.endRow,
              Slice(src, endByte, first.startByte), Slice(src, first.startByte, last.endByte), [], None)
  }

  /** At the root only: a SPACE block holding the bytes after the last child node. */
  function TrailingSpace(src: Bytes, node: Node, childNodes: seq<ChildRef>, isRoot: bool): seq<CodeBlock>
  {
    if isRoot && |childNodes| > 0 && NodeOf(childNodes[|childNodes| - 1]).endByte < node.endByte then
      var last := NodeOf(childNodes[|childNodes| - 1]);
      [CodeBlock(Space, None, last.startRow, last.endRow, Slice(src, last.endByte, node.endByte), [], [], None)]
    else []
  }

  /**
   * `parse_code`: the block for `node`, whose `pre_code` starts at
   * `startByte`. `isRoot` says that the node has no parent.
   */
  function ParseCode(g: Grammar, wrap: ErrorWrap, src: Bytes, node: Node, startByte: nat, isRoot: bool): (b: CodeBlock)
    ensures b.blockType == GetBlockType(node)
    ensures b.treeSitterType == Some(node.kind) && b.language == Some(Language)
    ensures b.startLine == node.startRow
    ensures b.preCode == Slice(src, startByte, node.startByte)
    decreases Size(node), 3, 0
  {
    var childNodes := GetChildNodes(g, node);
    var hdr := MakeHeader(src, node, startByte, childNodes);
    BelowSmaller(node, childNodes);
    CodeBlock(GetBlockType(node), Some(node.kind), node.startRow, hdr.endLine, hdr.preCode, hdr.content,
              BuildChildren(g, wrap, src, node, childNodes, hdr) + TrailingSpace(src, node, childNodes, isRoot),
              Some(Language))
  }

  /** The children of the block: one collapsed CODE block, or the blocks of the child nodes in order. */
  function BuildChildren(g: Grammar, wrap: ErrorWrap, src: Bytes, node: Node, childNodes: seq<ChildRef>, hdr: Header): seq<CodeBlock>
    requires forall k :: 0 <= k < |childNodes| ==> Size(NodeOf(childNodes[k])) < Size(node)
    decreases Size(node), 2, 0
  {
    if CollapsesToCode(childNodes) then [CollapsedCode(src, childNodes, hdr.endByte)]
    else ParseChildren(g, wrap, src, childNodes, hdr.endByte, hdr, Size(node)).blocks
  }

  /**
   * The loop over `child_nodes`: each child is built from the cursor, which
   * then moves to the child's end; a child of a spliced kind contributes its
   * own children instead.
   */
  function ParseChildren(g: Grammar, wrap: ErrorWrap, src: Bytes, refs: seq<ChildRef>, cursor: nat, hdr: Header, bound: nat): (r: Built)
    requires forall k :: 0 <= k < |refs| ==> Size(NodeOf(refs[k])) < bound
    decreases bound, 1, |refs|
  {
    if refs == [] then Built([], cursor)
    else
      var child := NodeOf(refs[0]);
      if child.kind in g.childNodeBlockTypes then
        var here := Splice(g, wrap, src, child, cursor, hdr, bound);
        var rest := ParseChildren(g, wrap, src, refs[1..], here.cursor, hdr, bound);
        Built(here.blocks + rest.blocks, rest.cursor)
      else
        var b := ParseCode(g, wrap, src, child, cursor, false);
        var rest := ParseChildren(g, wrap, src, refs[1..], child.endByte, hdr, bound);
        Built([b] + rest.blocks, rest.cursor)
  }

  /**
   * A child of a spliced kind: its own children built in order from the
   * cursor, wrapped in one ERROR block when the child is an error node.
   */
  function Splice(g: Grammar, wrap: ErrorWrap, src: Bytes, child: Node, cursor: nat, hdr: Header, bound: nat): (r: Built)
    requires Size(child) < bound
    ensures child.isError ==> |r.blocks| == 1 && r.blocks[0].blockType == Error && |r.blocks[0].children| == |child.children|
    ensures !child.isError ==> |r.blocks| == |child.children|
    ensures r.cursor == if child.children == [] then cursor else child.children[|child.children| - 1].endByte
    decreases bound, 0, |child.children| + 1
  {
    forall j | 0 <= j < |child.children| ensures Size(child.children[j]) < bound {
      ChildSmaller(child, j);
    }
    var inner := ParseSpliced(g, wrap, src, child.children, cursor, bound);
    if child.isError then Built([ErrorBlock(wrap, hdr, inner.blocks)], inner.cursor) else inner
  }

  /** The inner loop over a spliced child's children. */
  function ParseSpliced(g: Grammar, wrap: ErrorWrap, src: Bytes, nodes: seq<Node>, cursor: nat, bound: nat): (r: Built)
    requires forall k :: 0 <= k < |nodes| ==> Size(nodes[k]) < bound
    ensures |r.blocks| == |nodes|
    ensures forall k :: 0 <= k < |nodes| ==> r.blocks[k].treeSitterType == Some(nodes[k].kind)
    ensures forall k :: 0 <= k < |nodes| ==>
              r.blocks[k].preCode == Slice(src, if k == 0 then cursor else nodes[k - 1].endByte, nodes[k].startByte)
    ensures r.cursor == if nodes == [] then cursor else nodes[|nodes| - 1].endByte
    decreases bound, 0, |nodes|
  {
    if nodes == [] then Built([], cursor)
    else
      var b := ParseCode(g, wrap, src, nodes[0], cursor, false);
      var rest := ParseSpliced(g, wrap, src, nodes[1..], nodes[0].endByte, bound);
      Built([b] + rest.blocks, rest.cursor)
  }
}
