/**
 * What the Java builder guarantees: the per-construct child rules, the
 * contiguity of the byte slices it hands out, and the round trip — the
 * preorder concatenation of `pre_code + content` from the root is the source
 * up to the root's end.
 */
module JavaRoundTrip {
  import opened Optional
  import opened Strings
  import opened Cst
  import opened CodeBlocks
  import opened JavaParser

  // ----- the child rules -----

  /** After the first package declaration that has a following sibling, the program's children start. */
  lemma ProgramSkipsPackage(g: Grammar, node: Node, i: nat)
    requires node.kind == "program"
    requires i + 1 < |node.children| && node.children[i].kind == "package_declaration"
    requires forall j :: 0 <= j < i ==> node.children[j].kind != "package_declaration"
    ensures NodesOf(GetChildNodes(g, node)) == node.children[i + 1..]
  {
    var r := PackageBeforeContent(node.children, 0);
    assert r == Some(i);
    NodesOfChildRefs(node, i + 1);
  }

  /** Without such a package declaration the program's children are all of its children. */
  lemma ProgramWithoutPackage(g: Grammar, node: Node)
    requires node.kind == "program"
    requires forall j :: 0 <= j < |node.children| - 1 ==> node.children[j].kind != "package_declaration"
    ensures NodesOf(GetChildNodes(g, node)) == node.children
  {
    NodesOfChildRefs(node, 0);
  }

  /**
   * A declaration whose first declarator has `=` at a non-zero index `d`
   * yields the declarator's children after `=`, then its own children after
   * the declarator.
   */
  lemma DeclarationAfterAssign(g: Grammar, node: Node, i: nat, d: nat)
    requires node.kind in DeclarationNodeTypes
    requires i < |node.children| && node.children[i].kind == "variable_declarator"
    requires forall j :: 0 <= j < i ==> node.children[j].kind != "variable_declarator"
    requires 0 < d < |node.children[i].children| && node.children[i].children[d].kind == "="
    requires forall j :: 0 <= j < d ==> node.children[i].children[j].kind != "="
    ensures NodesOf(GetChildNodes(g, node)) == node.children[i].children[d + 1..] + node.children[i + 1..]
  {
    var declarator := node.children[i];
    assert |node.children[i].children| > 0;
    assert DeclarationChildNodes(node) == Some(ChildRefs(declarator, d + 1) + ChildRefs(node, i + 1));
    NodesOfConcat(ChildRefs(declarator, d + 1), ChildRefs(node, i + 1));
    NodesOfChildRefs(declarator, d + 1);
    NodesOfChildRefs(node, i + 1);
  }

  /** A `variable_declarator` whose first `=` is at a non-zero index `d` yields its children after `=`. */
  lemma DeclaratorAfterAssign(g: Grammar, node: Node, d: nat)
    requires node.kind == "variable_declarator"
    requires 0 < d < |node.children| && node.children[d].kind == "="
    requires forall j :: 0 <= j < d ==> node.children[j].kind != "="
    ensures NodesOf(GetChildNodes(g, node)) == node.children[d + 1..]
  {
    NodesOfChildRefs(node, d + 1);
  }

  /** A `switch_rule` whose first `->` is at a non-zero index `d` yields its children after `->`. */
  lemma SwitchRuleAfterArrow(g: Grammar, node: Node, d: nat)
    requires node.kind == "switch_rule"
    requires 0 < d < |node.children| && node.children[d].kind == "->"
    requires forall j :: 0 <= j < d ==> node.children[j].kind != "->"
    ensures NodesOf(GetChildNodes(g, node)) == node.children[d + 1..]
  {
    NodesOfChildRefs(node, d + 1);
  }

  /** A token found at index 0 counts as not found: the block rule applies instead. */
  lemma LeadingTokenIsNotFound(g: Grammar, node: Node)
    requires node.kind == "variable_declarator" || node.kind == "switch_rule"
    requires |node.children| > 0 && node.children[0].kind == (if node.kind == "switch_rule" then "->" else "=")
    ensures GetChildNodes(g, node) == BlockChildNodes(g, node)
  {
    var token := if node.kind == "switch_rule" then "->" else "=";
    assert FindType(node, token) == Some(0);
    assert AfterToken(node, token) == None;
    assert node.kind !in DeclarationNodeTypes;
    assert DelimitedChildNodes(node) == None;
  }

  /**
   * The token found is the first of its kind, and nothing is found exactly
   * when no child after the first has that kind or the first child has it.
   */
  lemma AfterTokenFirst(n: Node, token: string)
    ensures var r := AfterToken(n, token);
            && (r.Some? ==> forall j :: 0 <= j < r.value - 1 ==> n.children[j].kind != token)
            && (r.None? <==>
                  (forall j :: 1 <= j < |n.children| ==> n.children[j].kind != token) || (|n.children| > 0 && n.children[0].kind == token))
  {
  }

  /**
   * A declaration whose first declarator has no `=` after its first child
   * (`int x;`), or that has no declarator, falls through to the block-node rule.
   */
  lemma DeclarationWithoutInitialiser(g: Grammar, node: Node)
    requires node.kind in DeclarationNodeTypes
    requires FindType(node, "variable_declarator").None? || AfterToken(node.children[FindType(node, "variable_declarator").value], "=").None?
    ensures GetChildNodes(g, node) == BlockChildNodes(g, node)
  {
    assert node.kind != "variable_declarator" && node.kind != "switch_rule";
  }

  /** A `variable_declarator` without `=`, or a `switch_rule` without `->`, past its first child falls through to the block-node rule. */
  lemma DelimiterMissing(g: Grammar, node: Node)
    requires node.kind == "variable_declarator" || node.kind == "switch_rule"
    requires forall j :: 1 <= j < |node.children| ==> node.children[j].kind != (if node.kind == "switch_rule" then "->" else "=")
    ensures GetChildNodes(g, node) == BlockChildNodes(g, node)
  {
    assert node.kind !in DeclarationNodeTypes;
    AfterTokenFirst(node, if node.kind == "switch_rule" then "->" else "=");
  }

  /**
   * The fallback rule: the block node's children followed by every later
   * sibling of the block node, or nothing without a block node.
   */
  lemma BlockNodeRule(g: Grammar, node: Node)
    requires node.kind != "program"
    requires DeclarationChildNodes(node).None? && DelimitedChildNodes(node).None?
    ensures GetChildNodes(g, node) == BlockChildNodes(g, node)
    ensures BlockNodeIndex(g, node).None? ==> GetChildNodes(g, node) == []
    ensures BlockNodeIndex(g, node).Some? ==>
              var b := BlockNodeIndex(g, node).value;
              NodesOf(GetChildNodes(g, node)) == node.children[b].children + node.children[b + 1..]
  {
    if BlockNodeIndex(g, node).Some? {
      var b := BlockNodeIndex(g, node).value;
      NodesOfConcat(ChildRefs(node.children[b], 0), ChildRefs(node, b + 1));
      NodesOfChildRefs(node.children[b], 0);
      NodesOfChildRefs(node, b + 1);
    }
  }

  // ----- layout of the chosen child nodes -----

  /** Within a sorted run of ordered ranges, an earlier node ends before a later one starts. */
  lemma {:induction false} SortedApart(ns: seq<Node>, j: nat, k: nat)
    requires Sorted(ns) && Ordered(ns)
    requires j < k < |ns|
    ensures ns[j].endByte <= ns[k].startByte
    decreases j, k
  {
    var t := ns[1..];
    assert Ordered(t) by {
      forall m | 0 <= m < |t| ensures t[m].startByte <= t[m].endByte {
        assert t[m] == ns[m + 1];
      }
    }
    if j > 0 {
      SortedApart(t, j - 1, k - 1);
      assert t[j - 1] == ns[j] && t[k - 1] == ns[k];
    } else if k > 1 {
      SortedApart(t, 0, k - 1);
      assert t[0] == ns[1] && t[k - 1] == ns[k];
    }
  }

  /** A sorted run of ordered ranges starts before it ends. */
  lemma RunInOrder(ns: seq<Node>)
    requires |ns| > 0 && Sorted(ns) && Ordered(ns)
    ensures ns[0].startByte <= ns[0].endByte <= ns[|ns| - 1].endByte
  {
    if |ns| > 1 {
      SortedApart(ns, 0, |ns| - 1);
    }
  }

  /** Consecutive references are ordered. */
  predicate SortedRefs(refs: seq<ChildRef>)
  {
    Sorted(NodesOf(refs))
  }

  /** Every node of a spliced kind has children and, unless errors are salvaged, is no error node. */
  predicate SplicesIntact(g: Grammar, wrap: ErrorWrap, n: Node)
  {
    && (n.kind in g.childNodeBlockTypes ==> |n.children| > 0 && (wrap == Salvage || !n.isError))
    && forall i :: 0 <= i < |n.children| ==> SplicesIntact(g, wrap, n.children[i])
  }

  /** The chosen nodes are well-formed and keep the splice condition, as descendants of the node. */
  lemma BelowInherits(g: Grammar, wrap: ErrorWrap, node: Node, refs: seq<ChildRef>)
    requires Below(node, refs)
    requires forall i :: 0 <= i < |node.children| ==> WellFormed(node.children[i])
    requires forall i :: 0 <= i < |node.children| ==> SplicesIntact(g, wrap, node.children[i])
    ensures forall k :: 0 <= k < |refs| ==> WellFormed(NodeOf(refs[k])) && SplicesIntact(g, wrap, NodeOf(refs[k]))
  {
    forall k | 0 <= k < |refs|
      ensures WellFormed(NodeOf(refs[k])) && SplicesIntact(g, wrap, NodeOf(refs[k]))
    {
      if refs[k].parent != node {
        var j :| 0 <= j < |node.children| && refs[k].parent == node.children[j];
      }
    }
  }

  /** Nodes whose own ranges are ordered. */
  predicate Ordered(ns: seq<Node>)
  {
    forall m :: 0 <= m < |ns| ==> ns[m].startByte <= ns[m].endByte
  }

  lemma ChildrenOrdered(n: Node)
    requires forall i :: 0 <= i < |n.children| ==> WellFormed(n.children[i])
    ensures Ordered(n.children)
  {
    forall m | 0 <= m < |n.children| ensures n.children[m].startByte <= n.children[m].endByte {
      assert WellFormed(n.children[m]);
    }
  }

  lemma {:induction false} SortedTail(ns: seq<Node>, a: nat)
    requires Sorted(ns) && a <= |ns|
    ensures Sorted(ns[a..])
    decreases a
  {
    if a > 0 {
      SortedTail(ns[1..], a - 1);
      assert ns[1..][a - 1..] == ns[a..];
    }
  }

  lemma {:induction false} SortedConcat(xs: seq<Node>, ys: seq<Node>)
    requires Sorted(xs) && Sorted(ys)
    requires |xs| > 0 && |ys| > 0 ==> xs[|xs| - 1].endByte <= ys[0].startByte
    ensures Sorted(xs + ys)
    decreases |xs|
  {
    if |xs| == 0 {
      assert xs + ys == ys;
    } else if |xs| == 1 {
      assert (xs + ys)[1..] == ys;
    } else {
      SortedConcat(xs[1..], ys);
      assert (xs + ys)[1..] == xs[1..] + ys;
    }
  }

  /** A child of a well-formed node starts no earlier than the node. */
  lemma ChildStartsInside(n: Node, j: nat)
    requires Nested(n) && Ordered(n.children) && j < |n.children|
    ensures n.startByte <= n.children[j].startByte
  {
    if j > 0 {
      SortedApart(n.children, 0, j);
    }
  }

  /** The node-level facts behind `TwoTails`. */
  lemma TwoTailsNodes(node: Node, i: nat, a: nat)
    requires RootWellFormed(node)
    requires i < |node.children| && a <= |node.children[i].children|
    ensures var xs := node.children[i].children[a..];
      var ys := node.children[i + 1..];
      && Sorted(xs + ys)
      && node.startByte <= node.children[i].startByte
      && (a > 0 ==> node.startByte <= node.children[i].children[a - 1].endByte)
      && (|xs| > 0 && a > 0 ==> node.children[i].children[a - 1].endByte <= xs[0].startByte)
      && (|xs| > 0 && a == 0 ==> node.startByte <= xs[0].startByte)
      && (|xs| == 0 && |ys| > 0 ==> node.children[i].endByte <= ys[0].startByte)
      && (|ys| == 0 && |xs| > 0 ==> xs[|xs| - 1].endByte == node.children[|node.children| - 1].endByte)
  {
    var p := node.children[i];
    var xs := p.children[a..];
    var ys := node.children[i + 1..];
    assert WellFormed(p);
    ChildrenOrdered(node);
    ChildrenOrdered(p);
    SortedTail(p.children, a);
    SortedTail(node.children, i + 1);
    if |xs| > 0 && |ys| > 0 {
      SortedApart(node.children, i, i + 1);
      assert xs[|xs| - 1] == p.children[|p.children| - 1] && ys[0] == node.children[i + 1];
    }
    SortedConcat(xs, ys);
    ChildStartsInside(node, i);
    if a > 0 {
      ChildStartsInside(p, a - 1);
      if |xs| > 0 {
        SortedApart(p.children, a - 1, a);
      }
    }
    if |ys| > 0 {
      SortedApart(node.children, i, i + 1);
    }
    if a == 0 && |xs| > 0 {
      ChildStartsInside(p, 0);
    }
  }

  /** The nodes behind the two runs of `TwoTails`. */
  lemma TwoTailsNodesOf(node: Node, i: nat, a: nat)
    requires i < |node.children| && a <= |node.children[i].children|
    ensures NodesOf(ChildRefs(node.children[i], a) + ChildRefs(node, i + 1))
            == node.children[i].children[a..] + node.children[i + 1..]
  {
    NodesOfConcat(ChildRefs(node.children[i], a), ChildRefs(node, i + 1));
    NodesOfChildRefs(node.children[i], a);
    NodesOfChildRefs(node, i + 1);
  }

  lemma TwoTailsHeader(node: Node, i: nat, a: nat)
    requires RootWellFormed(node)
    requires i < |node.children| && a <= |node.children[i].children|
    requires |ChildRefs(node.children[i], a) + ChildRefs(node, i + 1)| > 0
    ensures var refs := ChildRefs(node.children[i], a) + ChildRefs(node, i + 1);
      node.startByte <= HeaderEnd(node, refs).0 <= NodeOf(refs[0]).startByte
  {
    var p := node.children[i];
    var refs := ChildRefs(p, a) + ChildRefs(node, i + 1);
    TwoTailsNodes(node, i, a);
    if a < |p.children| {
      assert refs[0] == Sibling(p, a);
    } else {
      assert refs[0] == Sibling(node, i + 1);
    }
  }

  lemma TwoTailsLast(node: Node, i: nat, a: nat)
    requires RootWellFormed(node)
    requires i < |node.children| && a <= |node.children[i].children|
    requires |ChildRefs(node.children[i], a) + ChildRefs(node, i + 1)| > 0
    ensures var refs := ChildRefs(node.children[i], a) + ChildRefs(node, i + 1);
      NodeOf(refs[|refs| - 1]).endByte == node.children[|node.children| - 1].endByte
  {
    var refs := ChildRefs(node.children[i], a) + ChildRefs(node, i + 1);
    var xs, ys := node.children[i].children[a..], node.children[i + 1..];
    TwoTailsNodesOf(node, i, a);
    TwoTailsNodes(node, i, a);
    var ns := NodesOf(refs);
    assert NodeOf(refs[|refs| - 1]) == ns[|ns| - 1];
    if |ys| > 0 {
      assert ns[|ns| - 1] == ys[|ys| - 1] == node.children[|node.children| - 1];
    } else {
      assert ns[|ns| - 1] == xs[|xs| - 1];
    }
  }

  /**
   * Child nodes laid out inside `node`: in order, with the header ending
   * between the node's start and the first of them, and the last of them
   * ending where the node's last child ends.
   */
  predicate Laid(node: Node, refs: seq<ChildRef>)
  {
    && SortedRefs(refs)
    && (|refs| > 0 ==> |node.children| > 0)
    && (|refs| > 0 ==> node.startByte <= HeaderEnd(node, refs).0 <= NodeOf(refs[0]).startByte)
    && (|refs| > 0 ==> NodeOf(refs[|refs| - 1]).endByte == node.children[|node.children| - 1].endByte)
  }

  /**
   * Two runs of siblings — a parent's children from `a`, then the
   * grandparent's children after that parent — form one sorted run whose
   * header end lies between the grandparent's start and the first node.
   */
  lemma TwoTails(node: Node, i: nat, a: nat)
    requires RootWellFormed(node)
    requires i < |node.children| && a <= |node.children[i].children|
    ensures Laid(node, ChildRefs(node.children[i], a) + ChildRefs(node, i + 1))
  {
    TwoTailsNodesOf(node, i, a);
    TwoTailsNodes(node, i, a);
    if |ChildRefs(node.children[i], a) + ChildRefs(node, i + 1)| > 0 {
      TwoTailsHeader(node, i, a);
      TwoTailsLast(node, i, a);
    }
  }

  /** One run of a node's own children from index `a`. */
  lemma OneTail(node: Node, a: nat)
    requires RootWellFormed(node)
    requires a <= |node.children|
    ensures Laid(node, ChildRefs(node, a))
  {
    var refs := ChildRefs(node, a);
    assert Nested(node);
    ChildrenOrdered(node);
    TailSorted(node, a);
    if |refs| > 0 {
      TailHeader(node, a);
      assert NodeOf(refs[|refs| - 1]) == node.children[|node.children| - 1];
    }
  }

  lemma TailSorted(node: Node, a: nat)
    requires Sorted(node.children) && a <= |node.children|
    ensures SortedRefs(ChildRefs(node, a))
  {
    NodesOfChildRefs(node, a);
    SortedTail(node.children, a);
  }

  /** The header before a run of a node's own children ends between the node's start and the run. */
  lemma TailHeader(node: Node, a: nat)
    requires Nested(node) && Ordered(node.children) && a < |node.children|
    ensures var refs := ChildRefs(node, a);
      node.startByte <= HeaderEnd(node, refs).0 <= NodeOf(refs[0]).startByte
  {
    var refs := ChildRefs(node, a);
    assert NodeOf(refs[0]) == node.children[a];
    if a > 0 {
      ChildStartsInside(node, a - 1);
      SortedApart(node.children, a - 1, a);
      assert HeaderEnd(node, refs).0 == node.children[a - 1].endByte;
    } else {
      assert HeaderEnd(node, refs).0 == node.children[0].startByte;
    }
  }

  /**
   * The child nodes of a well-formed node come in order, the header ends
   * between the node's start and the first of them, and the last of them ends
   * where the node's last child ends.
   */
  lemma ChildNodesLayout(g: Grammar, node: Node)
    requires RootWellFormed(node)
    ensures Laid(node, GetChildNodes(g, node))
  {
    if node.kind == "program" {
      ProgramLayout(g, node);
    } else if DeclarationChildNodes(node).Some? {
      DeclarationLayout(g, node);
    } else if DelimitedChildNodes(node).Some? {
      DelimitedLayout(g, node);
    } else {
      assert GetChildNodes(g, node) == BlockChildNodes(g, node);
      if BlockNodeIndex(g, node).Some? {
        var b := BlockNodeIndex(g, node).value;
        TwoTails(node, b, 0);
      }
    }
  }

  lemma ProgramLayout(g: Grammar, node: Node)
    requires RootWellFormed(node) && node.kind == "program"
    ensures Laid(node, GetChildNodes(g, node))
  {
    var k := if PackageBeforeContent(node.children, 0).Some? then PackageBeforeContent(node.children, 0).value + 1 else 0;
    assert GetChildNodes(g, node) == ChildRefs(node, k);
    OneTail(node, k);
  }

  lemma DeclarationLayout(g: Grammar, node: Node)
    requires RootWellFormed(node) && node.kind != "program" && DeclarationChildNodes(node).Some?
    ensures Laid(node, GetChildNodes(g, node))
  {
    var i := FindType(node, "variable_declarator").value;
    var d := AfterToken(node.children[i], "=").value;
    assert GetChildNodes(g, node) == DeclarationChildNodes(node).value;
    assert DeclarationChildNodes(node).value == ChildRefs(node.children[i], d) + ChildRefs(node, i + 1);
    TwoTails(node, i, d);
  }

  lemma DelimitedLayout(g: Grammar, node: Node)
    requires RootWellFormed(node) && node.kind != "program"
    requires DeclarationChildNodes(node).None? && DelimitedChildNodes(node).Some?
    ensures Laid(node, GetChildNodes(g, node))
  {
    var token := if node.kind == "variable_declarator" then "=" else "->";
    var d := AfterToken(node, token).value;
    assert GetChildNodes(g, node) == DelimitedChildNodes(node).value == ChildRefs(node, d);
    OneTail(node, d);
  }

  // ----- contiguity and round trip -----

  lemma SliceJoin(s: Bytes, a: nat, b: nat, c: nat)
    requires a <= b <= c <= |s|
    ensures s[a..b] + s[b..c] == s[a..c]
  {
  }

  /** Within the source, the header's `pre_code` and content are the plain slices before and after the node's start. */
  lemma HeaderSlices(src: Bytes, node: Node, cursor: nat, refs: seq<ChildRef>)
    requires cursor <= node.startByte <= HeaderEnd(node, refs).0 <= |src|
    ensures MakeHeader(src, node, cursor, refs).endByte == HeaderEnd(node, refs).0
    ensures MakeHeader(src, node, cursor, refs).preCode == src[cursor..node.startByte]
    ensures MakeHeader(src, node, cursor, refs).content == src[node.startByte..HeaderEnd(node, refs).0]
  {
  }

  /** `parse_code` assembled from its parts. */
  lemma ParseCodeParts(g: Grammar, wrap: ErrorWrap, src: Bytes, node: Node, cursor: nat, isRoot: bool)
    ensures var refs := GetChildNodes(g, node);
            var hdr := MakeHeader(src, node, cursor, refs);
            && (forall k :: 0 <= k < |refs| ==> Size(NodeOf(refs[k])) < Size(node))
            && ParseCode(g, wrap, src, node, cursor, isRoot)
               == CodeBlock(GetBlockType(node), Some(node.kind), node.startRow, hdr.endLine, hdr.preCode, hdr.content,
                            BuildChildren(g, wrap, src, node, refs, hdr) + TrailingSpace(src, node, refs, isRoot),
                            Some(Language))
  {
    BelowSmaller(node, GetChildNodes(g, node));
  }

  /** The blocks below a node, children and trailing space, as the source from the header end to the node's end. */
  predicate BodySpellsSource(g: Grammar, wrap: ErrorWrap, src: Bytes, node: Node, cursor: nat, isRoot: bool)
  {
    var refs := GetChildNodes(g, node);
    var hdr := MakeHeader(src, node, cursor, refs);
    && (forall k :: 0 <= k < |refs| ==> Size(NodeOf(refs[k])) < Size(node))
    && node.startByte <= hdr.endByte <= node.endByte <= |src|
    && TextOfAll(BuildChildren(g, wrap, src, node, refs, hdr) + TrailingSpace(src, node, refs, isRoot))
       == src[hdr.endByte..node.endByte]
  }

  /** Once the blocks below a node spell the rest, the node's block spells the source from the cursor. */
  lemma AssembledText(g: Grammar, wrap: ErrorWrap, src: Bytes, node: Node, cursor: nat, isRoot: bool)
    requires cursor <= node.startByte
    requires BodySpellsSource(g, wrap, src, node, cursor, isRoot)
    ensures Text(ParseCode(g, wrap, src, node, cursor, isRoot)) == src[cursor..node.endByte]
  {
    var b := ParseCode(g, wrap, src, node, cursor, isRoot);
    var refs := GetChildNodes(g, node);
    var hdr := MakeHeader(src, node, cursor, refs);
    var h := hdr.endByte;
    assert b.preCode == src[cursor..node.startByte] && b.content == src[node.startByte..h]
           && TextOfAll(b.children) == src[h..node.endByte] by {
      ParseCodeParts(g, wrap, src, node, cursor, isRoot);
      HeaderSlices(src, node, cursor, refs);
    }
    ThreeSlices(src, b, cursor, node.startByte, h, node.endByte);
  }

  /** A block whose three parts are consecutive slices spells their union. */
  lemma ThreeSlices(src: Bytes, b: CodeBlock, c: nat, s: nat, h: nat, e: nat)
    requires c <= s <= h <= e <= |src|
    requires b.preCode == src[c..s] && b.content == src[s..h] && TextOfAll(b.children) == src[h..e]
    ensures Text(b) == src[c..e]
  {
    assert src[c..s] + src[s..h] + src[h..e] == src[c..s] + (src[s..h] + src[h..e]);
    SliceJoin(src, s, h, e);
    SliceJoin(src, c, s, e);
  }

  /** A well-formed node's block, built from any cursor before it, spells the source from the cursor to its end. */
  lemma {:induction false} ParseCodeText(g: Grammar, wrap: ErrorWrap, src: Bytes, node: Node, cursor: nat)
    requires WellFormed(node) && SplicesIntact(g, wrap, node)
    requires cursor <= node.startByte && node.endByte <= |src|
    ensures Text(ParseCode(g, wrap, src, node, cursor, false)) == src[cursor..node.endByte]
    decreases Size(node), 3, 0
  {
    BodyText(g, wrap, src, node, cursor, false);
    AssembledText(g, wrap, src, node, cursor, false);
  }

  /** The blocks below a well-formed node spell the source after its header; at the root they include the trailing space. */
  lemma {:induction false} BodyText(g: Grammar, wrap: ErrorWrap, src: Bytes, node: Node, cursor: nat, isRoot: bool)
    requires RootWellFormed(node) && node.endByte <= |src|
    requires forall i :: 0 <= i < |node.children| ==> SplicesIntact(g, wrap, node.children[i])
    requires !isRoot ==> WellFormed(node)
    ensures BodySpellsSource(g, wrap, src, node, cursor, isRoot)
    decreases Size(node), 2, 1
  {
    var refs := GetChildNodes(g, node);
    var hdr := MakeHeader(src, node, cursor, refs);
    BelowSmaller(node, refs);
    var h := hdr.endByte;
    var body := BuildChildren(g, wrap, src, node, refs, hdr);
    var trailing := TrailingSpace(src, node, refs, isRoot);
    if |refs| == 0 {
      assert h == node.endByte;
      assert refs == [] && !CollapsesToCode(refs);
      assert body == ParseChildren(g, wrap, src, [], h, hdr, Size(node)).blocks == [];
      assert trailing == [];
    } else {
      var lastEnd := NodeOf(refs[|refs| - 1]).endByte;
      assert node.startByte <= h <= lastEnd <= node.endByte && (!isRoot ==> lastEnd == node.endByte)
             && TextOfAll(body) == src[h..lastEnd] by {
        ChildRun(g, wrap, node);
        assert h == HeaderEnd(node, refs).0;
        BuildChildrenText(g, wrap, src, node, refs, hdr);
      }
      assert TextOfAll(trailing) == src[lastEnd..node.endByte] by {
        TrailingText(src, node, refs, isRoot);
      }
      TextOfAllConcat(body, trailing);
      SliceJoin(src, h, lastEnd, node.endByte);
    }
  }

  /** The trailing SPACE block, present only at the root, covers the bytes after the last child node. */
  lemma TrailingText(src: Bytes, node: Node, refs: seq<ChildRef>, isRoot: bool)
    requires |refs| > 0
    requires NodeOf(refs[|refs| - 1]).endByte <= node.endByte <= |src|
    requires !isRoot ==> NodeOf(refs[|refs| - 1]).endByte == node.endByte
    ensures TextOfAll(TrailingSpace(src, node, refs, isRoot)) == src[NodeOf(refs[|refs| - 1]).endByte..node.endByte]
  {
    var trailing := TrailingSpace(src, node, refs, isRoot);
    if NodeOf(refs[|refs| - 1]).endByte < node.endByte {
      assert TextOfAll(trailing) == Text(trailing[0]) + TextOfAll([]);
    }
  }

  /** The child nodes of a well-formed node form a sorted run that ends where the node ends. */
  lemma ChildRun(g: Grammar, wrap: ErrorWrap, node: Node)
    requires RootWellFormed(node)
    requires forall i :: 0 <= i < |node.children| ==> SplicesIntact(g, wrap, node.children[i])
    requires |GetChildNodes(g, node)| > 0
    ensures var refs := GetChildNodes(g, node);
            && SortedRefs(refs)
            && (forall k :: 0 <= k < |refs| ==> WellFormed(NodeOf(refs[k])) && SplicesIntact(g, wrap, NodeOf(refs[k])))
            && node.startByte <= HeaderEnd(node, refs).0 <= NodeOf(refs[0]).startByte
            && HeaderEnd(node, refs).0 <= NodeOf(refs[|refs| - 1]).endByte
            && NodeOf(refs[|refs| - 1]).endByte == node.children[|node.children| - 1].endByte
  {
    var refs := GetChildNodes(g, node);
    ChildNodesLayout(g, node);
    BelowInherits(g, wrap, node, refs);
    LaidRun(node, refs);
  }

  /** The header of a laid-out run of well-formed nodes ends no later than the run. */
  lemma LaidRun(node: Node, refs: seq<ChildRef>)
    requires Laid(node, refs) && |refs| > 0
    requires forall k :: 0 <= k < |refs| ==> WellFormed(NodeOf(refs[k]))
    ensures HeaderEnd(node, refs).0 <= NodeOf(refs[|refs| - 1]).endByte
  {
    var ns := NodesOf(refs);
    assert Ordered(ns) by {
      forall m | 0 <= m < |ns| ensures ns[m].startByte <= ns[m].endByte {
        assert WellFormed(NodeOf(refs[m]));
      }
    }
    RunInOrder(ns);
  }

  /** The children built for a sorted run of child nodes spell the source from the header end to the run's end. */
  lemma {:induction false} BuildChildrenText(g: Grammar, wrap: ErrorWrap, src: Bytes, node: Node, refs: seq<ChildRef>, hdr: Header)
    requires forall k :: 0 <= k < |refs| ==> Size(NodeOf(refs[k])) < Size(node)
    requires |refs| > 0 && SortedRefs(refs)
    requires forall k :: 0 <= k < |refs| ==> WellFormed(NodeOf(refs[k])) && SplicesIntact(g, wrap, NodeOf(refs[k]))
    requires hdr.endByte <= NodeOf(refs[0]).startByte
    requires hdr.endByte <= NodeOf(refs[|refs| - 1]).endByte <= |src|
    ensures TextOfAll(BuildChildren(g, wrap, src, node, refs, hdr)) == src[hdr.endByte..NodeOf(refs[|refs| - 1]).endByte]
    decreases Size(node), 2, 0
  {
    if CollapsesToCode(refs) {
      var first := NodeOf(refs[0]);
      var last := NodeOf(refs[|refs| - 1]);
      assert first.startByte <= last.endByte by {
        if |refs| > 1 {
          assert Ordered(NodesOf(refs));
          SortedApart(NodesOf(refs), 0, |refs| - 1);
        }
      }
      var c := CollapsedCode(src, refs, hdr.endByte);
      assert TextOfAll([c]) == Text(c) + TextOfAll([]);
      SliceJoin(src, hdr.endByte, first.startByte, last.endByte);
    } else {
      ParseChildrenText(g, wrap, src, refs, hdr.endByte, hdr, Size(node));
    }
  }

  /** The loop over the child nodes spells the source from the cursor to the last node's end. */
  lemma {:induction false} ParseChildrenText(g: Grammar, wrap: ErrorWrap, src: Bytes, refs: seq<ChildRef>, cursor: nat, hdr: Header, bound: nat)
    requires forall k :: 0 <= k < |refs| ==> Size(NodeOf(refs[k])) < bound
    requires |refs| > 0 && SortedRefs(refs)
    requires forall k :: 0 <= k < |refs| ==> WellFormed(NodeOf(refs[k])) && SplicesIntact(g, wrap, NodeOf(refs[k]))
    requires cursor <= NodeOf(refs[0]).startByte && NodeOf(refs[|refs| - 1]).endByte <= |src|
    requires cursor <= NodeOf(refs[|refs| - 1]).endByte
    ensures TextOfAll(ParseChildren(g, wrap, src, refs, cursor, hdr, bound).blocks)
            == src[cursor..NodeOf(refs[|refs| - 1]).endByte]
    decreases bound, 1, |refs|, 1
  {
    var child := NodeOf(refs[0]);
    var lastEnd := NodeOf(refs[|refs| - 1]).endByte;
    var ns := NodesOf(refs);
    assert child.endByte <= lastEnd by {
      assert Ordered(ns);
      RunInOrder(ns);
    }
    var here := HeadBlocks(g, wrap, src, child, cursor, hdr, bound);
    var rest := ParseChildren(g, wrap, src, refs[1..], child.endByte, hdr, bound).blocks;
    ChildStep(g, wrap, src, refs, cursor, hdr, bound);
    assert TextOfAll(rest) == src[child.endByte..lastEnd] by {
      if |refs| > 1 {
        TailInherits(g, wrap, refs, bound);
        ParseChildrenText(g, wrap, src, refs[1..], child.endByte, hdr, bound);
      } else {
        assert rest == [];
      }
    }
    TextOfAllConcat(here, rest);
    SliceJoin(src, cursor, child.endByte, lastEnd);
  }

  /** What the loop needs of its child nodes holds for the ones after the first. */
  lemma TailInherits(g: Grammar, wrap: ErrorWrap, refs: seq<ChildRef>, bound: nat)
    requires forall k :: 0 <= k < |refs| ==> Size(NodeOf(refs[k])) < bound
    requires |refs| > 1 && SortedRefs(refs)
    requires forall k :: 0 <= k < |refs| ==> WellFormed(NodeOf(refs[k])) && SplicesIntact(g, wrap, NodeOf(refs[k]))
    ensures forall k :: 0 <= k < |refs[1..]| ==> Size(NodeOf(refs[1..][k])) < bound
    ensures SortedRefs(refs[1..]) && NodeOf(refs[0]).endByte <= NodeOf(refs[1]).startByte
    ensures forall k :: 0 <= k < |refs[1..]| ==> WellFormed(NodeOf(refs[1..][k])) && SplicesIntact(g, wrap, NodeOf(refs[1..][k]))
  {
    assert NodesOf(refs[1..]) == NodesOf(refs)[1..];
  }

  /** The blocks contributed by one child node: its own block, or its children's when it is spliced. */
  function HeadBlocks(g: Grammar, wrap: ErrorWrap, src: Bytes, child: Node, cursor: nat, hdr: Header, bound: nat): seq<CodeBlock>
    requires Size(child) < bound
  {
    if child.kind in g.childNodeBlockTypes then Splice(g, wrap, src, child, cursor, hdr, bound).blocks
    else [ParseCode(g, wrap, src, child, cursor, false)]
  }

  /** One step of the loop: the first child's blocks spell the source up to its end, and the loop resumes there. */
  lemma {:induction false} ChildStep(g: Grammar, wrap: ErrorWrap, src: Bytes, refs: seq<ChildRef>, cursor: nat, hdr: Header, bound: nat)
    requires forall k :: 0 <= k < |refs| ==> Size(NodeOf(refs[k])) < bound
    requires |refs| > 0
    requires WellFormed(NodeOf(refs[0])) && SplicesIntact(g, wrap, NodeOf(refs[0]))
    requires cursor <= NodeOf(refs[0]).startByte && NodeOf(refs[0]).endByte <= |src|
    ensures var child := NodeOf(refs[0]);
            var here := HeadBlocks(g, wrap, src, child, cursor, hdr, bound);
            && TextOfAll(here) == src[cursor..child.endByte]
            && ParseChildren(g, wrap, src, refs, cursor, hdr, bound).blocks
               == here + ParseChildren(g, wrap, src, refs[1..], child.endByte, hdr, bound).blocks
    decreases bound, 1, |refs|, 0
  {
    var child := NodeOf(refs[0]);
    var here := HeadBlocks(g, wrap, src, child, cursor, hdr, bound);
    if child.kind in g.childNodeBlockTypes {
      SpliceText(g, wrap, src, child, cursor, hdr, bound);
    } else {
      ParseCodeText(g, wrap, src, child, cursor);
      assert TextOfAll(here) == Text(here[0]) + TextOfAll([]);
    }
  }

  /** A spliced child spells the source from the cursor to its end and leaves the cursor there. */
  lemma {:induction false} SpliceText(g: Grammar, wrap: ErrorWrap, src: Bytes, child: Node, cursor: nat, hdr: Header, bound: nat)
    requires Size(child) < bound
    requires child.kind in g.childNodeBlockTypes
    requires WellFormed(child) && SplicesIntact(g, wrap, child)
    requires cursor <= child.startByte && child.endByte <= |src|
    ensures Splice(g, wrap, src, child, cursor, hdr, bound).cursor == child.endByte
    ensures TextOfAll(Splice(g, wrap, src, child, cursor, hdr, bound).blocks) == src[cursor..child.endByte]
    decreases bound, 0, |child.children| + 1, 1
  {
    SplicedChildrenText(g, wrap, src, child, cursor, bound);
    var inner := ParseSpliced(g, wrap, src, child.children, cursor, bound);
    var r := Splice(g, wrap, src, child, cursor, hdr, bound);
    if child.isError {
      assert r.blocks == [ErrorBlock(Salvage, hdr, inner.blocks)];
      SalvagedText(hdr, inner.blocks);
    } else {
      assert r == inner;
    }
  }

  /** An ERROR wrapper that salvages its children spells exactly what they spell. */
  lemma SalvagedText(hdr: Header, blocks: seq<CodeBlock>)
    ensures TextOfAll([ErrorBlock(Salvage, hdr, blocks)]) == TextOfAll(blocks)
  {
    var e := ErrorBlock(Salvage, hdr, blocks);
    assert TextOfAll([e]) == Text(e) + TextOfAll([]);
  }

  /** The children of a spliced child spell the source from the cursor to its end. */
  lemma {:induction false} SplicedChildrenText(g: Grammar, wrap: ErrorWrap, src: Bytes, child: Node, cursor: nat, bound: nat)
    requires Size(child) < bound
    requires child.kind in g.childNodeBlockTypes
    requires WellFormed(child) && SplicesIntact(g, wrap, child)
    requires cursor <= child.startByte && child.endByte <= |src|
    ensures forall j :: 0 <= j < |child.children| ==> Size(child.children[j]) < bound
    ensures ParseSpliced(g, wrap, src, child.children, cursor, bound).cursor == child.endByte
    ensures TextOfAll(ParseSpliced(g, wrap, src, child.children, cursor, bound).blocks) == src[cursor..child.endByte]
    decreases bound, 0, |child.children| + 1, 0
  {
    var ns := child.children;
    forall j | 0 <= j < |ns| ensures Size(ns[j]) < bound {
      ChildSmaller(child, j);
    }
    ChildrenOrdered(child);
    RunInOrder(ns);
    ParseSplicedText(g, wrap, src, ns, cursor, bound);
  }

  /** The spliced children spell the source from the cursor to the last one's end. */
  lemma {:induction false} ParseSplicedText(g: Grammar, wrap: ErrorWrap, src: Bytes, nodes: seq<Node>, cursor: nat, bound: nat)
    requires forall k :: 0 <= k < |nodes| ==> Size(nodes[k]) < bound
    requires |nodes| > 0 && Sorted(nodes)
    requires forall k :: 0 <= k < |nodes| ==> WellFormed(nodes[k]) && SplicesIntact(g, wrap, nodes[k])
    requires cursor <= nodes[0].startByte && nodes[|nodes| - 1].endByte <= |src|
    requires cursor <= nodes[|nodes| - 1].endByte
    ensures TextOfAll(ParseSpliced(g, wrap, src, nodes, cursor, bound).blocks) == src[cursor..nodes[|nodes| - 1].endByte]
    decreases bound, 0, |nodes|, 0
  {
    var lastEnd := nodes[|nodes| - 1].endByte;
    assert nodes[0].endByte <= lastEnd by {
      assert Ordered(nodes);
      RunInOrder(nodes);
    }
    var first := ParseCode(g, wrap, src, nodes[0], cursor, false);
    var rest := ParseSpliced(g, wrap, src, nodes[1..], nodes[0].endByte, bound).blocks;
    var all := [first] + rest;
    assert ParseSpliced(g, wrap, src, nodes, cursor, bound).blocks == all;
    assert all[0] == first && all[1..] == rest;
    ParseCodeText(g, wrap, src, nodes[0], cursor);
    if |nodes| > 1 {
      SplicedTailInherits(g, wrap, nodes, bound);
      ParseSplicedText(g, wrap, src, nodes[1..], nodes[0].endByte, bound);
    } else {
      assert rest == [];
    }
    SliceJoin(src, cursor, nodes[0].endByte, lastEnd);
  }

  /** What the inner loop needs of its nodes holds for the ones after the first. */
  lemma SplicedTailInherits(g: Grammar, wrap: ErrorWrap, nodes: seq<Node>, bound: nat)
    requires forall k :: 0 <= k < |nodes| ==> Size(nodes[k]) < bound
    requires |nodes| > 1 && Sorted(nodes)
    requires forall k :: 0 <= k < |nodes| ==> WellFormed(nodes[k]) && SplicesIntact(g, wrap, nodes[k])
    ensures forall k :: 0 <= k < |nodes[1..]| ==> Size(nodes[1..][k]) < bound
    ensures Sorted(nodes[1..]) && nodes[0].endByte <= nodes[1].startByte
    ensures forall k :: 0 <= k < |nodes[1..]| ==> WellFormed(nodes[1..][k]) && SplicesIntact(g, wrap, nodes[1..][k])
  {
  }

  /**
   * The round trip: building from the root with the cursor at 0 and
   * concatenating `pre_code + content` in preorder gives back the source up
   * to the root's end.
   */
  lemma RoundTrip(g: Grammar, wrap: ErrorWrap, src: Bytes, root: Node)
    requires RootWellFormed(root) && root.endByte <= |src|
    requires forall i :: 0 <= i < |root.children| ==> SplicesIntact(g, wrap, root.children[i])
    ensures Text(ParseCode(g, wrap, src, root, 0, true)) == src[..root.endByte]
  {
    BodyText(g, wrap, src, root, 0, true);
    AssembledText(g, wrap, src, root, 0, true);
    assert src[..root.endByte] == src[0..root.endByte];
  }
}
