/**
 * The shape of the block tree `parse_code` builds, beyond its text: a node
 * without child nodes is one leaf block, childless child nodes collapse into
 * one CODE block, other child nodes become one block each built from where
 * the previous one ended, and a SPACE block appears only at the root.
 */
module JavaBlocks {
  import opened Optional
  import opened Strings
  import opened Cst
  import opened CodeBlocks
  import opened JavaParser
  import opened JavaRoundTrip

  /** A node without child nodes is a single block: its content is the whole node and it has no children. */
  lemma LeafNode(g: Grammar, wrap: ErrorWrap, src: Bytes, node: Node, cursor: nat, isRoot: bool)
    requires GetChildNodes(g, node) == []
    ensures var b := ParseCode(g, wrap, src, node, cursor, isRoot);
            && b.content == Slice(src, node.startByte, node.endByte)
            && b.endLine == node.endRow
            && b.children == []
  {
    ParseCodeParts(g, wrap, src, node, cursor, isRoot);
  }

  /**
   * Child nodes that are all childless non-delimiters give one CODE block
   * spanning from the first to the last of them, whose `pre_code` starts at
   * the header end; only a root may add a trailing SPACE block after it.
   */
  lemma CollapsedChild(g: Grammar, wrap: ErrorWrap, src: Bytes, node: Node, cursor: nat, isRoot: bool)
    requires CollapsesToCode(GetChildNodes(g, node))
    ensures var refs := GetChildNodes(g, node);
            var first := NodeOf(refs[0]);
            var last := NodeOf(refs[|refs| - 1]);
            var b := ParseCode(g, wrap, src, node, cursor, isRoot);
            && (|b.children| == 1 || (isRoot && |b.children| == 2 && b.children[1].blockType == Space))
            && b.children[0].blockType == Code
            && b.children[0].preCode == Slice(src, HeaderEnd(node, refs).0, first.startByte)
            && b.children[0].content == Slice(src, first.startByte, last.endByte)
            && b.children[0].startLine == first.startRow && b.children[0].endLine == last.endRow
            && b.children[0].children == []
  {
    ParseCodeParts(g, wrap, src, node, cursor, isRoot);
  }

  /** Where the `k`-th node's `pre_code` starts: the run's start for the first node, else the previous node's end. */
  function PrevEnd(refs: seq<ChildRef>, cursor: nat, k: nat): nat
    requires k < |refs|
  {
    if k == 0 then cursor else NodeOf(refs[k - 1]).endByte
  }

  /**
   * The `k`-th block stands for the `k`-th node, and its `pre_code` starts
   * where the run began or where the previous node ended.
   */
  predicate EachFromPrevious(src: Bytes, blocks: seq<CodeBlock>, refs: seq<ChildRef>, cursor: nat)
  {
    && |refs| <= |blocks|
    && forall k :: 0 <= k < |refs| ==>
         && blocks[k].treeSitterType == Some(NodeOf(refs[k]).kind)
         && blocks[k].startLine == NodeOf(refs[k]).startRow
         && blocks[k].preCode == Slice(src, PrevEnd(refs, cursor, k), NodeOf(refs[k]).startByte)
  }

  /** One step of the loop over a child node of no spliced kind: its block, then the rest from its end. */
  lemma UnsplicedCons(g: Grammar, wrap: ErrorWrap, src: Bytes, refs: seq<ChildRef>, cursor: nat, hdr: Header, bound: nat)
    requires forall k :: 0 <= k < |refs| ==> Size(NodeOf(refs[k])) < bound
    requires refs != [] && NodeOf(refs[0]).kind !in g.childNodeBlockTypes
    ensures forall k :: 0 <= k < |refs[1..]| ==> Size(NodeOf(refs[1..][k])) < bound
    ensures var r := ParseChildren(g, wrap, src, refs, cursor, hdr, bound);
            var rest := ParseChildren(g, wrap, src, refs[1..], NodeOf(refs[0]).endByte, hdr, bound);
            && |r.blocks| == 1 + |rest.blocks| && r.blocks[1..] == rest.blocks && r.cursor == rest.cursor
            && r.blocks[0].treeSitterType == Some(NodeOf(refs[0]).kind)
            && r.blocks[0].startLine == NodeOf(refs[0]).startRow
            && r.blocks[0].preCode == Slice(src, cursor, NodeOf(refs[0]).startByte)
  {
    var r := ParseChildren(g, wrap, src, refs, cursor, hdr, bound);
    var rest := ParseChildren(g, wrap, src, refs[1..], NodeOf(refs[0]).endByte, hdr, bound);
    var first := ParseCode(g, wrap, src, NodeOf(refs[0]), cursor, false);
    assert r.blocks == [first] + rest.blocks;
  }

  lemma EachFromPreviousAt(src: Bytes, blocks: seq<CodeBlock>, refs: seq<ChildRef>, cursor: nat, k: nat)
    requires EachFromPrevious(src, blocks, refs, cursor) && k < |refs|
    ensures blocks[k].treeSitterType == Some(NodeOf(refs[k]).kind) && blocks[k].startLine == NodeOf(refs[k]).startRow
    ensures blocks[k].preCode == Slice(src, PrevEnd(refs, cursor, k), NodeOf(refs[k]).startByte)
  {
  }

  lemma EachFromPreviousCons(src: Bytes, blocks: seq<CodeBlock>, refs: seq<ChildRef>, cursor: nat)
    requires refs != [] && blocks != []
    requires blocks[0].treeSitterType == Some(NodeOf(refs[0]).kind) && blocks[0].startLine == NodeOf(refs[0]).startRow
    requires blocks[0].preCode == Slice(src, cursor, NodeOf(refs[0]).startByte)
    requires EachFromPrevious(src, blocks[1..], refs[1..], NodeOf(refs[0]).endByte)
    ensures EachFromPrevious(src, blocks, refs, cursor)
  {
    forall k | 1 <= k < |refs|
      ensures blocks[k].treeSitterType == Some(NodeOf(refs[k]).kind) && blocks[k].startLine == NodeOf(refs[k]).startRow
      ensures blocks[k].preCode == Slice(src, PrevEnd(refs, cursor, k), NodeOf(refs[k]).startByte)
    {
      EachFromPreviousAt(src, blocks[1..], refs[1..], NodeOf(refs[0]).endByte, k - 1);
      assert blocks[1..][k - 1] == blocks[k];
      assert refs[1..][k - 1] == refs[k];
      if k > 1 {
        assert refs[1..][k - 2] == refs[k - 1];
      }
    }
  }

  /** The property survives appending blocks after the run. */
  lemma EachFromPreviousPrefix(src: Bytes, blocks: seq<CodeBlock>, more: seq<CodeBlock>, refs: seq<ChildRef>, cursor: nat)
    requires EachFromPrevious(src, blocks, refs, cursor)
    ensures EachFromPrevious(src, blocks + more, refs, cursor)
  {
    forall k | 0 <= k < |refs|
      ensures (blocks + more)[k].treeSitterType == Some(NodeOf(refs[k]).kind) && (blocks + more)[k].startLine == NodeOf(refs[k]).startRow
      ensures (blocks + more)[k].preCode == Slice(src, PrevEnd(refs, cursor, k), NodeOf(refs[k]).startByte)
    {
      EachFromPreviousAt(src, blocks, refs, cursor, k);
      assert (blocks + more)[k] == blocks[k];
    }
  }

  /** Child nodes of no spliced kind are built one block each, every one from where the previous node ended. */
  lemma {:induction false} UnsplicedRun(g: Grammar, wrap: ErrorWrap, src: Bytes, refs: seq<ChildRef>, cursor: nat, hdr: Header, bound: nat)
    requires forall k :: 0 <= k < |refs| ==> Size(NodeOf(refs[k])) < bound
    requires forall k :: 0 <= k < |refs| ==> NodeOf(refs[k]).kind !in g.childNodeBlockTypes
    ensures var r := ParseChildren(g, wrap, src, refs, cursor, hdr, bound);
            && |r.blocks| == |refs|
            && EachFromPrevious(src, r.blocks, refs, cursor)
            && r.cursor == if refs == [] then cursor else NodeOf(refs[|refs| - 1]).endByte
    decreases |refs|
  {
    if refs != [] {
      var child := NodeOf(refs[0]);
      UnsplicedCons(g, wrap, src, refs, cursor, hdr, bound);
      UnsplicedRun(g, wrap, src, refs[1..], child.endByte, hdr, bound);
      EachFromPreviousCons(src, ParseChildren(g, wrap, src, refs, cursor, hdr, bound).blocks, refs, cursor);
      if |refs| > 1 {
        assert refs[1..][|refs[1..]| - 1] == refs[|refs| - 1];
      }
    }
  }

  /** The children `parse_code` gives a node: the built children, then the trailing block. */
  lemma ChildrenParts(g: Grammar, wrap: ErrorWrap, src: Bytes, node: Node, cursor: nat, isRoot: bool)
    ensures var refs := GetChildNodes(g, node);
            var hdr := MakeHeader(src, node, cursor, refs);
            && (forall k :: 0 <= k < |refs| ==> Size(NodeOf(refs[k])) < Size(node))
            && ParseCode(g, wrap, src, node, cursor, isRoot).children
               == BuildChildren(g, wrap, src, node, refs, hdr) + TrailingSpace(src, node, refs, isRoot)
  {
    ParseCodeParts(g, wrap, src, node, cursor, isRoot);
  }

  /**
   * When the child nodes do not collapse and none is of a spliced kind, the
   * `k`-th child block stands for the `k`-th child node, and its `pre_code`
   * starts where the header or the previous child node ended.
   */
  lemma UnsplicedChildren(g: Grammar, wrap: ErrorWrap, src: Bytes, node: Node, cursor: nat, isRoot: bool)
    requires !CollapsesToCode(GetChildNodes(g, node))
    requires forall k :: 0 <= k < |GetChildNodes(g, node)| ==> NodeOf(GetChildNodes(g, node)[k]).kind !in g.childNodeBlockTypes
    ensures var refs := GetChildNodes(g, node);
            var b := ParseCode(g, wrap, src, node, cursor, isRoot);
            && |refs| <= |b.children| <= |refs| + 1
            && EachFromPrevious(src, b.children, refs, HeaderEnd(node, refs).0)
  {
    var refs := GetChildNodes(g, node);
    ChildrenParts(g, wrap, src, node, cursor, isRoot);
    var hdr := MakeHeader(src, node, cursor, refs);
    UnsplicedRun(g, wrap, src, refs, hdr.endByte, hdr, Size(node));
    var built := ParseChildren(g, wrap, src, refs, hdr.endByte, hdr, Size(node)).blocks;
    EachFromPreviousPrefix(src, built, TrailingSpace(src, node, refs, isRoot), refs, hdr.endByte);
  }

  /** `get_block_type` never answers SPACE, so no block `parse_code` builds for a node is one. */
  lemma ParseCodeNotSpace(g: Grammar, wrap: ErrorWrap, src: Bytes, node: Node, cursor: nat, isRoot: bool)
    ensures ParseCode(g, wrap, src, node, cursor, isRoot).blockType != Space
  {
  }

  /** One step of the inner loop over a spliced node's children. */
  lemma SplicedCons(g: Grammar, wrap: ErrorWrap, src: Bytes, nodes: seq<Node>, cursor: nat, bound: nat)
    requires forall k :: 0 <= k < |nodes| ==> Size(nodes[k]) < bound
    requires nodes != []
    ensures forall k :: 0 <= k < |nodes[1..]| ==> Size(nodes[1..][k]) < bound
    ensures ParseSpliced(g, wrap, src, nodes, cursor, bound).blocks
            == [ParseCode(g, wrap, src, nodes[0], cursor, false)] + ParseSpliced(g, wrap, src, nodes[1..], nodes[0].endByte, bound).blocks
  {
  }

  /** None of the blocks is a SPACE block. */
  predicate NoSpace(bs: seq<CodeBlock>)
  {
    forall k :: 0 <= k < |bs| ==> bs[k].blockType != Space
  }

  lemma NoSpaceConcat(a: seq<CodeBlock>, b: seq<CodeBlock>)
    requires NoSpace(a) && NoSpace(b)
    ensures NoSpace(a + b)
  {
  }

  /** No block built for spliced nodes is a SPACE block. */
  lemma {:induction false} SplicedNotSpace(g: Grammar, wrap: ErrorWrap, src: Bytes, nodes: seq<Node>, cursor: nat, bound: nat)
    requires forall k :: 0 <= k < |nodes| ==> Size(nodes[k]) < bound
    ensures NoSpace(ParseSpliced(g, wrap, src, nodes, cursor, bound).blocks)
    decreases |nodes|
  {
    if nodes != [] {
      SplicedCons(g, wrap, src, nodes, cursor, bound);
      SplicedNotSpace(g, wrap, src, nodes[1..], nodes[0].endByte, bound);
      ParseCodeNotSpace(g, wrap, src, nodes[0], cursor, false);
      NoSpaceConcat([ParseCode(g, wrap, src, nodes[0], cursor, false)], ParseSpliced(g, wrap, src, nodes[1..], nodes[0].endByte, bound).blocks);
    }
  }

  /** One step of the loop over child nodes: the first child's blocks, then the rest from where it left the cursor. */
  lemma ChildrenCons(g: Grammar, wrap: ErrorWrap, src: Bytes, refs: seq<ChildRef>, cursor: nat, hdr: Header, bound: nat)
    requires forall k :: 0 <= k < |refs| ==> Size(NodeOf(refs[k])) < bound
    requires refs != []
    ensures forall k :: 0 <= k < |refs[1..]| ==> Size(NodeOf(refs[1..][k])) < bound
    ensures var child := NodeOf(refs[0]);
            var next := if child.kind in g.childNodeBlockTypes then Splice(g, wrap, src, child, cursor, hdr, bound).cursor else child.endByte;
            ParseChildren(g, wrap, src, refs, cursor, hdr, bound).blocks
            == HeadBlocks(g, wrap, src, child, cursor, hdr, bound) + ParseChildren(g, wrap, src, refs[1..], next, hdr, bound).blocks
  {
  }

  /** The blocks one child node contributes are not SPACE blocks. */
  lemma HeadNotSpace(g: Grammar, wrap: ErrorWrap, src: Bytes, child: Node, cursor: nat, hdr: Header, bound: nat)
    requires Size(child) < bound
    ensures NoSpace(HeadBlocks(g, wrap, src, child, cursor, hdr, bound))
  {
    if child.kind in g.childNodeBlockTypes {
      forall j | 0 <= j < |child.children| ensures Size(child.children[j]) < bound {
        ChildSmaller(child, j);
      }
      SplicedNotSpace(g, wrap, src, child.children, cursor, bound);
      var inner := ParseSpliced(g, wrap, src, child.children, cursor, bound);
      assert Splice(g, wrap, src, child, cursor, hdr, bound).blocks
             == if child.isError then [ErrorBlock(wrap, hdr, inner.blocks)] else inner.blocks;
    } else {
      ParseCodeNotSpace(g, wrap, src, child, cursor, false);
    }
  }

  /** No block built for a run of child nodes is a SPACE block. */
  lemma {:induction false} ChildrenNotSpace(g: Grammar, wrap: ErrorWrap, src: Bytes, refs: seq<ChildRef>, cursor: nat, hdr: Header, bound: nat)
    requires forall k :: 0 <= k < |refs| ==> Size(NodeOf(refs[k])) < bound
    ensures NoSpace(ParseChildren(g, wrap, src, refs, cursor, hdr, bound).blocks)
    decreases |refs|
  {
    if refs != [] {
      var child := NodeOf(refs[0]);
      var next := if child.kind in g.childNodeBlockTypes then Splice(g, wrap, src, child, cursor, hdr, bound).cursor else child.endByte;
      ChildrenCons(g, wrap, src, refs, cursor, hdr, bound);
      HeadNotSpace(g, wrap, src, child, cursor, hdr, bound);
      ChildrenNotSpace(g, wrap, src, refs[1..], next, hdr, bound);
      NoSpaceConcat(HeadBlocks(g, wrap, src, child, cursor, hdr, bound), ParseChildren(g, wrap, src, refs[1..], next, hdr, bound).blocks);
    }
  }

  /**
   * Children made of blocks that are not SPACE blocks followed by the
   * trailing block: a SPACE block can only be the trailing one.
   */
  lemma SpaceOnlyTrailing(built: seq<CodeBlock>, src: Bytes, node: Node, refs: seq<ChildRef>, isRoot: bool)
    requires NoSpace(built)
    ensures var children := built + TrailingSpace(src, node, refs, isRoot);
            var trailing := isRoot && |refs| > 0 && NodeOf(refs[|refs| - 1]).endByte < node.endByte;
            && (forall k :: 0 <= k < |children| && children[k].blockType == Space ==>
                  isRoot && k == |children| - 1 && children[k].content == [] && children[k].children == [])
            && (trailing <==> |children| > 0 && children[|children| - 1].blockType == Space)
            && (trailing ==>
                  |children| > 0 && children[|children| - 1].preCode == Slice(src, NodeOf(refs[|refs| - 1]).endByte, node.endByte))
  {
    var trailing := TrailingSpace(src, node, refs, isRoot);
    var children := built + trailing;
    forall k | 0 <= k < |children| && children[k].blockType == Space
      ensures isRoot && k == |children| - 1 && children[k].content == [] && children[k].children == []
    {
      if k < |built| {
        assert false;
      } else {
        assert children[k] == trailing[k - |built|];
      }
    }
    if |children| > 0 && trailing == [] {
      assert children[|children| - 1] == built[|built| - 1];
    }
  }

  /**
   * A SPACE block is only ever the last child of the root, with empty
   * content and no children; the root gets one exactly when its last child
   * node ends before the root does, and it holds the bytes in between.
   */
  lemma SpaceOnlyAtRoot(g: Grammar, wrap: ErrorWrap, src: Bytes, node: Node, cursor: nat, isRoot: bool)
    ensures var refs := GetChildNodes(g, node);
            var b := ParseCode(g, wrap, src, node, cursor, isRoot);
            var trailing := isRoot && |refs| > 0 && NodeOf(refs[|refs| - 1]).endByte < node.endByte;
            && (forall k :: 0 <= k < |b.children| && b.children[k].blockType == Space ==>
                  isRoot && k == |b.children| - 1 && b.children[k].content == [] && b.children[k].children == [])
            && (trailing <==> |b.children| > 0 && b.children[|b.children| - 1].blockType == Space)
            && (trailing ==>
                  |b.children| > 0 && b.children[|b.children| - 1].preCode == Slice(src, NodeOf(refs[|refs| - 1]).endByte, node.endByte))
  {
    var refs := GetChildNodes(g, node);
    ParseCodeParts(g, wrap, src, node, cursor, isRoot);
    var hdr := MakeHeader(src, node, cursor, refs);
    var built := BuildChildren(g, wrap, src, node, refs, hdr);
    if !CollapsesToCode(refs) {
      ChildrenNotSpace(g, wrap, src, refs, hdr.endByte, hdr, Size(node));
    }
    assert NoSpace(built);
    SpaceOnlyTrailing(built, src, node, refs, isRoot);
  }
}
