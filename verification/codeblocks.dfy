/**
 * The semantic block tree the builder produces, and its serialisation. A
 * block's text is its `pre_code` (the gap before it), its own `content`,
 * then the text of its children in order.
 */
module CodeBlocks {
  import opened Optional
  import opened Cst

  datatype CodeBlockType =
    | Module
    | Class
    | Function
    | Statement
    | Code
    | Import
    | Comment
    | CommentedOutCode
    | BlockDelimiter
    | Error
    | Space

  /**
   * A code block: its category, the tree-sitter kind it came from (unset for
   * synthesised blocks), first and last row, the bytes before it, its own
   * bytes, its children and the language tag (unset when not given).
   */
  datatype CodeBlock = CodeBlock(
    blockType: CodeBlockType,
    treeSitterType: Option<string>,
    startLine: nat,
    endLine: nat,
    preCode: Bytes,
    content: Bytes,
    children: seq<CodeBlock>,
    language: Option<string>)

  /** The source text a block stands for: `pre_code + content` in preorder. */
  function Text(b: CodeBlock): Bytes
    decreases b
  {
    b.preCode + b.content + TextOfAll(b.children)
  }

  function TextOfAll(bs: seq<CodeBlock>): Bytes
    decreases bs
  {
    if bs == [] then [] else Text(bs[0]) + TextOfAll(bs[1..])
  }

  lemma {:induction false} TextOfAllConcat(a: seq<CodeBlock>, b: seq<CodeBlock>)
    ensures TextOfAll(a + b) == TextOfAll(a) + TextOfAll(b)
  {
    if a == [] {
      assert a + b == b;
    } else {
      assert (a + b)[1..] == a[1..] + b;
      TextOfAllConcat(a[1..], b);
    }
  }
}
