/**
 * Facts about the Java builder as written: the statement table's missing
 * comma, the ERROR wrapper that repeats its parent's header bytes, and the
 * bytes of a childless spliced node that no block holds.
 */
module JavaFindings {
  import opened Optional
  import opened Strings
  import opened Cst
  import opened CodeBlocks
  import opened JavaParser
  import opened JavaRoundTrip

  /**
   * The statement table lists the concatenation of `try_statement` and
   * `switch_expression` as one kind, so neither of the two is a statement:
   * both fall through to CODE.
   */
  lemma MergedStatementKinds(node: Node)
    requires node.kind == "try_statement" || node.kind == "switch_expression"
    ensures GetBlockType(node) == Code
  {
    MergedKindsArePlain();
  }

  /** Neither merged kind is in a table, and neither mentions `comment`. */
  lemma MergedKindsArePlain()
    ensures !InTables("try_statement") && !IsInfix("comment", "try_statement")
    ensures !InTables("switch_expression") && !IsInfix("comment", "switch_expression")
  {
    AbsentElementNotInfix("comment", "try_statement", 'c');
    AbsentElementNotInfix("comment", "switch_expression", 'm');
  }

  /** A grammar whose ERROR nodes are spliced and that finds no block nodes. */
  function ErrorSplicing(): Grammar
  {
    Grammar(n => None, ["ERROR"])
  }

  /** The two-byte source `pb`. */
  function SmallSource(): Bytes
  {
    [112, 98]
  }

  function IdNode(): Node
  {
    Node("identifier", 1, 2, 0, 0, [], false, [98])
  }

  function ErrNode(): Node
  {
    Node("ERROR", 1, 2, 0, 0, [IdNode()], true, [98])
  }

  /** `p` then `b`: a package declaration followed by an ERROR node around one identifier. */
  function SmallProgram(): Node
  {
    Node("program", 0, 2, 0, 0, [Node("package_declaration", 0, 1, 0, 0, [], false, [112]), ErrNode()], false, [112, 98])
  }

  /** The program's child nodes are the ERROR node alone, and its header is the package declaration. */
  lemma SmallProgramLayout()
    ensures GetChildNodes(ErrorSplicing(), SmallProgram()) == [Sibling(SmallProgram(), 1)]
    ensures HeaderEnd(SmallProgram(), [Sibling(SmallProgram(), 1)]).0 == 1
  {
    assert PackageBeforeContent(SmallProgram().children, 0) == Some(0);
  }

  lemma IdText()
    ensures Text(ParseCode(ErrorSplicing(), AsWritten, SmallSource(), IdNode(), 1, false)) == [98]
  {
    assert GetChildNodes(ErrorSplicing(), IdNode()) == [];
    ParseCodeParts(ErrorSplicing(), AsWritten, SmallSource(), IdNode(), 1, false);
  }

  /** The ERROR wrapper repeats the header it is given before its child's bytes. */
  lemma ErrorWrapperText(hdr: Header, bound: nat)
    requires Size(ErrNode()) < bound
    requires hdr.preCode == [] && hdr.content == [112]
    ensures TextOfAll(Splice(ErrorSplicing(), AsWritten, SmallSource(), ErrNode(), 1, hdr, bound).blocks) == [112, 98]
  {
    var g, src := ErrorSplicing(), SmallSource();
    var idBlock := ParseCode(g, AsWritten, src, IdNode(), 1, false);
    ChildSmaller(ErrNode(), 0);
    var inner := ParseSpliced(g, AsWritten, src, ErrNode().children, 1, bound);
    assert inner.blocks == [idBlock] by {
      assert inner.blocks == [idBlock] + ParseSpliced(g, AsWritten, src, [], 2, bound).blocks;
    }
    var e := ErrorBlock(AsWritten, hdr, [idBlock]);
    assert Splice(g, AsWritten, src, ErrNode(), 1, hdr, bound).blocks == [e];
    IdText();
    WrapperText(e);
  }

  lemma WrapperText(e: CodeBlock)
    requires e.preCode == [] && e.content == [112] && |e.children| == 1 && Text(e.children[0]) == [98]
    ensures TextOfAll([e]) == [112, 98]
  {
    assert TextOfAll([e]) == Text(e) + TextOfAll([]);
    assert TextOfAll(e.children) == Text(e.children[0]) + TextOfAll([]);
  }

  /**
   * As written, the ERROR wrapper carries the parent's header again: the
   * two-byte source `pb` comes back as `ppb`.
   */
  lemma ErrorWrapperRepeatsHeader()
    ensures Text(ParseCode(ErrorSplicing(), AsWritten, SmallSource(), SmallProgram(), 0, true)) == [112, 112, 98]
    ensures Text(ParseCode(ErrorSplicing(), AsWritten, SmallSource(), SmallProgram(), 0, true)) != SmallSource()
  {
    var g, src, root := ErrorSplicing(), SmallSource(), SmallProgram();
    var refs: seq<ChildRef> := [Sibling(root, 1)];
    var hdr := MakeHeader(src, root, 0, refs);
    SmallProgramBlock();
    SmallBodyText(hdr);
    RepeatedHeaderText(ParseCode(g, AsWritten, src, root, 0, true));
  }

  /** The program's block: an empty `pre_code`, the package declaration as content, and the built children. */
  lemma SmallProgramBlock()
    ensures Size(ErrNode()) < Size(SmallProgram())
    ensures var refs: seq<ChildRef> := [Sibling(SmallProgram(), 1)];
            var hdr := MakeHeader(SmallSource(), SmallProgram(), 0, refs);
            var b := ParseCode(ErrorSplicing(), AsWritten, SmallSource(), SmallProgram(), 0, true);
            && hdr.preCode == [] && hdr.content == [112] && hdr.endByte == 1
            && b.preCode == [] && b.content == [112]
            && b.children == BuildChildren(ErrorSplicing(), AsWritten, SmallSource(), SmallProgram(), refs, hdr)
  {
    var g, src, root := ErrorSplicing(), SmallSource(), SmallProgram();
    SmallProgramLayout();
    ChildSmaller(root, 1);
    var refs := GetChildNodes(g, root);
    var hdr := MakeHeader(src, root, 0, refs);
    ParseCodeParts(g, AsWritten, src, root, 0, true);
    assert TrailingSpace(src, root, refs, true) == [];
    var body := BuildChildren(g, AsWritten, src, root, refs, hdr);
    assert body + [] == body;
  }

  /** The program's children: the ERROR wrapper with the header, then the identifier. */
  lemma SmallBodyText(hdr: Header)
    requires hdr.preCode == [] && hdr.content == [112] && hdr.endByte == 1
    requires Size(ErrNode()) < Size(SmallProgram())
    ensures TextOfAll(BuildChildren(ErrorSplicing(), AsWritten, SmallSource(), SmallProgram(), [Sibling(SmallProgram(), 1)], hdr))
            == [112, 98]
  {
    var g, src, root := ErrorSplicing(), SmallSource(), SmallProgram();
    var refs: seq<ChildRef> := [Sibling(root, 1)];
    var bound := Size(root);
    ErrorWrapperText(hdr, bound);
    var spliced := Splice(g, AsWritten, src, ErrNode(), 1, hdr, bound);
    var body := BuildChildren(g, AsWritten, src, root, refs, hdr);
    assert body == spliced.blocks + ParseChildren(g, AsWritten, src, refs[1..], spliced.cursor, hdr, bound).blocks;
    assert body == spliced.blocks + [];
  }

  lemma RepeatedHeaderText(b: CodeBlock)
    requires b.preCode == [] && b.content == [112] && TextOfAll(b.children) == [112, 98]
    ensures Text(b) == [112, 112, 98]
  {
  }

  /**
   * With the wrapper holding only its children, the round trip holds whenever
   * every spliced node has children, ERROR nodes included.
   */
  lemma SalvagedRoundTrip(g: Grammar, src: Bytes, root: Node)
    requires RootWellFormed(root) && root.endByte <= |src|
    requires forall i :: 0 <= i < |root.children| ==> SplicesIntact(g, Salvage, root.children[i])
    ensures Text(ParseCode(g, Salvage, src, root, 0, true)) == src[..root.endByte]
  {
    RoundTrip(g, Salvage, src, root);
  }

  // ----- a spliced node without children -----

  /** The two-byte source `ab`. */
  function TwoByteSource(): Bytes
  {
    [97, 98]
  }

  /** `a`: a statement around one identifier. */
  function StatementNode(): Node
  {
    Node("expression_statement", 0, 1, 0, 0, [Node("identifier", 0, 1, 0, 0, [], false, [97])], false, [97])
  }

  /** `b`: an ERROR node without children. */
  function EmptyErrNode(): Node
  {
    Node("ERROR", 1, 2, 0, 0, [], true, [98])
  }

  function EmptySpliceProgram(): Node
  {
    Node("program", 0, 2, 0, 0, [StatementNode(), EmptyErrNode()], false, [97, 98])
  }

  lemma StatementText(wrap: ErrorWrap)
    ensures Text(ParseCode(ErrorSplicing(), wrap, TwoByteSource(), StatementNode(), 0, false)) == [97]
  {
    assert GetChildNodes(ErrorSplicing(), StatementNode()) == [];
    ParseCodeParts(ErrorSplicing(), wrap, TwoByteSource(), StatementNode(), 0, false);
  }

  /** The ERROR node, having no children, becomes one empty ERROR block and leaves the cursor at 1. */
  lemma EmptySplice(wrap: ErrorWrap, hdr: Header, bound: nat)
    requires Size(EmptyErrNode()) < bound
    requires hdr.preCode == [] && hdr.content == []
    ensures var r := Splice(ErrorSplicing(), wrap, TwoByteSource(), EmptyErrNode(), 1, hdr, bound);
            r.blocks == [ErrorBlock(wrap, hdr, [])] && r.cursor == 1
  {
    assert ParseSpliced(ErrorSplicing(), wrap, TwoByteSource(), [], 1, bound) == Built([], 1);
  }

  /** The loop from the ERROR node on: just the empty ERROR block. */
  lemma EmptySpliceTail(wrap: ErrorWrap, hdr: Header)
    requires hdr.preCode == [] && hdr.content == []
    ensures var root := EmptySpliceProgram();
            && Size(EmptyErrNode()) < Size(root)
            && ParseChildren(ErrorSplicing(), wrap, TwoByteSource(), [Sibling(root, 1)], 1, hdr, Size(root)).blocks
               == [ErrorBlock(wrap, hdr, [])]
  {
    var root := EmptySpliceProgram();
    ChildSmaller(root, 1);
    EmptySplice(wrap, hdr, Size(root));
    var refs: seq<ChildRef> := [Sibling(root, 1)];
    assert refs[1..] == [];
  }

  /** One step of the loop over a child node of no spliced kind. */
  lemma PlainStep(g: Grammar, wrap: ErrorWrap, src: Bytes, refs: seq<ChildRef>, cursor: nat, hdr: Header, bound: nat)
    requires forall k :: 0 <= k < |refs| ==> Size(NodeOf(refs[k])) < bound
    requires refs != [] && NodeOf(refs[0]).kind !in g.childNodeBlockTypes
    ensures forall k :: 0 <= k < |refs[1..]| ==> Size(NodeOf(refs[1..][k])) < bound
    ensures ParseChildren(g, wrap, src, refs, cursor, hdr, bound).blocks
            == [ParseCode(g, wrap, src, NodeOf(refs[0]), cursor, false)]
               + ParseChildren(g, wrap, src, refs[1..], NodeOf(refs[0]).endByte, hdr, bound).blocks
  {
  }

  /** The program's children: the statement's block, then an ERROR block holding nothing. */
  lemma EmptySpliceChildren(wrap: ErrorWrap, hdr: Header)
    requires hdr.preCode == [] && hdr.content == []
    ensures var root := EmptySpliceProgram();
            var refs: seq<ChildRef> := [Sibling(root, 0), Sibling(root, 1)];
            && (forall k :: 0 <= k < |refs| ==> Size(NodeOf(refs[k])) < Size(root))
            && TextOfAll(ParseChildren(ErrorSplicing(), wrap, TwoByteSource(), refs, 0, hdr, Size(root)).blocks) == [97]
  {
    var g, src, root := ErrorSplicing(), TwoByteSource(), EmptySpliceProgram();
    ChildSmaller(root, 0);
    ChildSmaller(root, 1);
    var refs: seq<ChildRef> := [Sibling(root, 0), Sibling(root, 1)];
    EmptySpliceTail(wrap, hdr);
    assert refs[1..] == [Sibling(root, 1)];
    PlainStep(g, wrap, src, refs, 0, hdr, Size(root));
    var a := ParseCode(g, wrap, src, StatementNode(), 0, false);
    StatementText(wrap);
    EmptyWrapperText(a, ErrorBlock(wrap, hdr, []));
  }

  lemma EmptyWrapperText(a: CodeBlock, e: CodeBlock)
    requires Text(a) == [97] && e.preCode == [] && e.content == [] && e.children == []
    ensures TextOfAll([a] + [e]) == [97]
  {
    assert TextOfAll([a] + [e]) == Text(a) + TextOfAll([e]);
    assert TextOfAll([e]) == Text(e) + TextOfAll([]);
  }

  /** The program is well-formed, its child nodes are both its children, and they do not collapse. */
  lemma EmptySpliceLayout()
    ensures RootWellFormed(EmptySpliceProgram())
    ensures var root := EmptySpliceProgram();
            var refs: seq<ChildRef> := [Sibling(root, 0), Sibling(root, 1)];
            && GetChildNodes(ErrorSplicing(), root) == refs
            && !CollapsesToCode(refs)
            && TrailingSpace(TwoByteSource(), root, refs, true) == []
            && MakeHeader(TwoByteSource(), root, 0, refs).preCode == []
            && MakeHeader(TwoByteSource(), root, 0, refs).content == []
            && MakeHeader(TwoByteSource(), root, 0, refs).endByte == 0
  {
    var root := EmptySpliceProgram();
    assert PackageBeforeContent(root.children, 0) == None by {
      assert PackageBeforeContent(root.children, 2) == None;
    }
    var refs: seq<ChildRef> := [Sibling(root, 0), Sibling(root, 1)];
    assert |NodeOf(refs[0]).children| > 0;
  }

  /**
   * A spliced node without children leaves the cursor where it was, and when
   * it is the last child node nothing picks up its bytes: the well-formed
   * tree for `ab` whose `b` is such a node comes back as `a`, however the
   * ERROR wrapper is filled.
   */
  lemma EmptySpliceLosesBytes(wrap: ErrorWrap)
    ensures RootWellFormed(EmptySpliceProgram())
    ensures Text(ParseCode(ErrorSplicing(), wrap, TwoByteSource(), EmptySpliceProgram(), 0, true)) == [97]
  {
    var g, src, root := ErrorSplicing(), TwoByteSource(), EmptySpliceProgram();
    var refs: seq<ChildRef> := [Sibling(root, 0), Sibling(root, 1)];
    EmptySpliceLayout();
    var hdr := MakeHeader(src, root, 0, refs);
    EmptySpliceChildren(wrap, hdr);
    BlockOfChildren(g, wrap, src, root, refs, hdr);
  }

  /** A root block under an empty header whose child nodes do not collapse spells what its built children spell. */
  lemma BlockOfChildren(g: Grammar, wrap: ErrorWrap, src: Bytes, root: Node, refs: seq<ChildRef>, hdr: Header)
    requires GetChildNodes(g, root) == refs && !CollapsesToCode(refs) && TrailingSpace(src, root, refs, true) == []
    requires hdr == MakeHeader(src, root, 0, refs) && hdr.preCode == [] && hdr.content == []
    requires forall k :: 0 <= k < |refs| ==> Size(NodeOf(refs[k])) < Size(root)
    ensures Text(ParseCode(g, wrap, src, root, 0, true)) == TextOfAll(ParseChildren(g, wrap, src, refs, hdr.endByte, hdr, Size(root)).blocks)
  {
    ParseCodeParts(g, wrap, src, root, 0, true);
    var b := ParseCode(g, wrap, src, root, 0, true);
    var blocks := ParseChildren(g, wrap, src, refs, hdr.endByte, hdr, Size(root)).blocks;
    assert BuildChildren(g, wrap, src, root, refs, hdr) == blocks;
    assert b.preCode == [] && b.content == [] && b.children == blocks + [];
    EmptyHeaderText(b, blocks);
  }

  lemma EmptyHeaderText(b: CodeBlock, blocks: seq<CodeBlock>)
    requires b.preCode == [] && b.content == [] && b.children == blocks + []
    ensures Text(b) == TextOfAll(blocks)
  {
    assert blocks + [] == blocks;
  }
}
