# A Dafny model of moatless-tools' block parser, coder and benchmark helpers

This project models three parts of the moatless-tools code-editing agent.

- **The Java block parser** (`codeblocks/parser/java.py`). It covers the node-kind tables,
  `get_block_type` and `get_block_delimiter_types`. It covers `get_child_nodes`, which picks the
  nodes that become a block's children. It covers `parse_code`, which turns a tree-sitter
  concrete syntax tree into a tree of `CodeBlock`s whose `pre_code` and `content` are slices of
  the source bytes.
  The central property is the round trip: over a well-formed tree, concatenating `pre_code + content`
  of the block tree in preorder gives back the source.
- **The coder** (`moatless/coder/base.py`). From `plan` it covers:
  - how a span id becomes a block path (`_L<n>_L<m>` suffix stripped, split on `.`);
  - the lookup of the span in the file context;
  - the fall-back to a block path, and to its parent for `"add"` tasks;
  - the task defaults and corrections;
  - the two-attempt retry loop.

  From `code` it covers:
  - the resolution of the expected block;
  - the three-attempt retry loop;
  - the counting of added and removed diff lines;
  - the re-addressing of later planned spans by the line delta.
- **The benchmark helpers** (`benchmark/swebench.py`). These are:
  - the instance-id sort key and the order it gives `get_instances`;
  - the cache-file and index names;
  - the first-match lookup of `get_instance`;
  - the running context length of retrieved snippets;
  - the closed-interval overlap behind the snippet highlighting.

Modules: `Optional` (the `Option` type), `Strings` (sequence and string helpers:
character replacement, split/join, last index, decimal parsing, lexicographic order), `Cst`
(tree-sitter nodes, sibling references, well-formedness), `CodeBlocks` (the block tree and its
text), `JavaParser`, `JavaRoundTrip` (child rules and the round trip), `JavaBlocks` (the shape of the
block tree), `JavaFindings`, `Coder` and `Swebench`.

Calls whose code is not part of this model are parameters of the operations that use them:
- the base parser's `find_block_node` and `get_child_node_block_types`;
- `CodeBlock.find_by_path` and `find_block_with_span`;
- the completion service, whose replies are a function from attempt number to reply;
- `extract_response_parts`, the Python parser and `write_code`, folded into one attempt outcome;
- the diff text `do_diff` produces.

## Model

| member | source | states |
|---|---|---|
| JavaParser.GetBlockType | codeblocks/parser/java.py:45-64 | Each block type holds exactly for its own rule: `program` is MODULE, the function, class and statement tables and `{`/`}` give their types, `import_declaration` is IMPORT, a kind containing `comment` is COMMENTED_OUT_CODE iff the text holds `...` and COMMENT otherwise, everything else CODE; never ERROR or SPACE |
| JavaFindings.MergedStatementKinds | codeblocks/parser/java.py:21-32 | Because of the missing comma, `try_statement` and `switch_expression` classify as CODE, not STATEMENT |
| JavaParser.PackageBeforeContent | codeblocks/parser/java.py:70-75 | Finds the first `package_declaration` child that has a following sibling, and none is skipped before it |
| JavaRoundTrip.ProgramSkipsPackage | codeblocks/parser/java.py:70-74 | A program's child nodes are the children after its first package declaration that has a successor |
| JavaRoundTrip.ProgramWithoutPackage | codeblocks/parser/java.py:70-75 | Without such a package declaration a program's child nodes are all its children |
| JavaParser.AfterToken | codeblocks/parser/java.py:82-94 | The index just past a found `=`/`->` token; a token at index 0 counts as not found |
| JavaRoundTrip.AfterTokenFirst | codeblocks/parser/java.py:82-94 | The token found is the first child of that kind; nothing is found exactly when no child after the first has the kind or the first child has it |
| JavaRoundTrip.DeclarationAfterAssign | codeblocks/parser/java.py:78-84 | A declaration with an initialiser yields the declarator's children after `=`, then its own children after the declarator |
| JavaRoundTrip.DeclaratorAfterAssign | codeblocks/parser/java.py:86-89 | A `variable_declarator` yields its children after the first `=` |
| JavaRoundTrip.SwitchRuleAfterArrow | codeblocks/parser/java.py:91-94 | A `switch_rule` yields its children after the first `->` |
| JavaRoundTrip.LeadingTokenIsNotFound | codeblocks/parser/java.py:87-94 | A `=` or `->` at index 0 is falsy, so the block-node rule applies instead |
| JavaRoundTrip.DeclarationWithoutInitialiser | codeblocks/parser/java.py:78-104 | A declaration without a declarator, or whose first declarator has no `=` past its first child (`int x;`), falls through to the block-node rule |
| JavaRoundTrip.DelimiterMissing | codeblocks/parser/java.py:86-104 | A `variable_declarator` without `=`, or a `switch_rule` without `->`, past its first child falls through to the block-node rule |
| JavaRoundTrip.BlockNodeRule | codeblocks/parser/java.py:96-104 | Whenever a non-program node gets nothing from the declaration and `=`/`->` rules, its child nodes are the block node's children then every later sibling of the block node, or nothing without a block node |
| JavaParser.GetChildNodes | codeblocks/parser/java.py:69-104 | The chosen nodes are children of the node or grandchildren through one child, so they are strictly smaller |
| JavaRoundTrip.ChildNodesLayout | codeblocks/parser/java.py:69-124 | On a well-formed node the child nodes come in source order, the header ends between the node's start and the first of them, and the last ends where the node's last child ends |
| JavaParser.MakeHeader | codeblocks/parser/java.py:107-126 | `pre_code` is the bytes from the cursor to the node's start, `content` the bytes from its start to the header end; the header ends where the first child node's previous sibling ends, on that sibling's last row, else at the first child node's start on the node's last row, and without child nodes at the node's end |
| JavaRoundTrip.HeaderSlices | codeblocks/parser/java.py:107-126 | Inside the source, `pre_code` and `content` are the adjacent slices before and after the node's start |
| JavaParser.ParseCode | codeblocks/parser/java.py:106-178 | The block carries the node's type, kind, start row, the language and the `pre_code` slice from the cursor |
| JavaBlocks.LeafNode | codeblocks/parser/java.py:114-126 | A node without child nodes is one block whose content is the whole node, ending on its last row, with no children |
| JavaBlocks.CollapsedChild | codeblocks/parser/java.py:128-135 | Childless non-delimiter child nodes give one CODE block first: `pre_code` from the header end, content from the first node's start to the last one's end, their rows, no children; only a root can have a second child, a SPACE block |
| JavaBlocks.UnsplicedRun | codeblocks/parser/java.py:156-158 | The loop over child nodes of no spliced kind gives one block per node, each of its node's kind and row, with `pre_code` from where the previous node ended, and leaves the cursor at the last node's end |
| JavaBlocks.UnsplicedChildren | codeblocks/parser/java.py:128-167 | Without collapse or splicing, the `k`-th child block stands for the `k`-th child node, its `pre_code` starting at the header end or the previous child node's end; at most one block follows them |
| JavaBlocks.ChildrenNotSpace | codeblocks/parser/java.py:137-158 | No block the loop over child nodes builds, spliced or not, is a SPACE block |
| JavaBlocks.SpaceOnlyAtRoot | codeblocks/parser/java.py:160-167 | A SPACE child is only ever the root's last child, with empty content and no children; the root has one exactly when its last child node ends before it, holding the bytes in between |
| JavaParser.Splice | codeblocks/parser/java.py:138-155 | A spliced child contributes one ERROR block over all its children if it is an error node, otherwise one block per child, and moves the cursor to its last child's end |
| JavaParser.ParseSpliced | codeblocks/parser/java.py:141-143 | One block per grandchild, each of that node's kind, with the cursor at the last one's end |
| JavaRoundTrip.ParseCodeText | codeblocks/parser/java.py:106-178 | A block whose children spell the rest of the node spells the source from the cursor to the node's end |
| JavaRoundTrip.BodyText | codeblocks/parser/java.py:128-167 | The children and the root's trailing SPACE block spell the source from the header end to the node's end |
| JavaRoundTrip.TrailingText | codeblocks/parser/java.py:160-167 | The SPACE block, present only at the root, spells the bytes after the last child node |
| JavaRoundTrip.BuildChildrenText | codeblocks/parser/java.py:128-158 | The collapsed CODE block or the built children spell the source from the header end to the last child node's end |
| JavaRoundTrip.ParseChildrenText | codeblocks/parser/java.py:137-158 | The loop over child nodes spells the source from the cursor to the last node's end |
| JavaRoundTrip.SpliceText | codeblocks/parser/java.py:138-155 | A spliced child that is not a wrapped error spells the source from the cursor to its end |
| JavaRoundTrip.ParseSplicedText | codeblocks/parser/java.py:140-143 | The inner loop spells the source from the cursor to the last grandchild's end |
| JavaRoundTrip.RoundTrip | codeblocks/parser/java.py:106-178 | For a well-formed tree without wrapped error nodes, the blocks built from the root spell the source up to the root's end |
| JavaFindings.ErrorWrapperRepeatsHeader | codeblocks/parser/java.py:144-153 | As written, an ERROR wrapper repeats the parent's header: the source `pb` comes back as `ppb` |
| JavaFindings.SalvagedRoundTrip | codeblocks/parser/java.py:144-153 | With the ERROR wrapper holding only its children, the round trip holds for error nodes too |
| JavaFindings.EmptySpliceLosesBytes | codeblocks/parser/java.py:138-167 | A spliced node without children does not move the cursor, and as the last child node its bytes are in no block: the well-formed tree for `ab` comes back as `a`, however the wrapper is filled |
| Coder.StripLineSuffix | moatless/coder/base.py:188 | Removing the `_L\d+_L\d+$` suffix never lengthens the id |
| Coder.StripLineSuffixSpec | moatless/coder/base.py:188 | The substitution cuts out the match of the pattern when there is one and leaves the id alone when there is none |
| Coder.StripNeedsMatch | moatless/coder/base.py:188 | The id changes only if the pattern matches somewhere |
| Coder.SuffixBeforeFinalNewline | moatless/coder/base.py:188 | `$` also matches before a final newline, so `run_L3_L9\n` names the path `["run\n"]` |
| Coder.BlockPath | moatless/coder/base.py:188-190 | The path is non-empty, no part holds a `.`, and joined with `.` it is the stripped id |
| Coder.BlockPathOfSpanId | moatless/coder/base.py:188-190 | Round trip: the block path of `<path joined by .>_L<start>_L<end>` is the path |
| Coder.FirstSpan | moatless/coder/base.py:196-201 | The first span of a file with the id, or none iff no span has it |
| Coder.LastWithSpan | moatless/coder/base.py:192-201 | The last file with the path that has a span with the id, or none iff there is no such file |
| Coder.FindContextSpan | moatless/coder/base.py:192-201 | The nested loops give the first span of the last matching file, since `break` leaves only the inner loop |
| Coder.DropLast | moatless/coder/base.py:212 | `path[:-1]`: all but the last part, and empty for an empty path |
| Coder.FindWithFallback | moatless/coder/base.py:207-216 | A found block is found under the path returned; that path is the full path, or its parent only for an `"add"` task; found iff the path or, for `"add"`, its parent resolves |
| Coder.PlanTask | moatless/coder/base.py:172-227 | An entry is skipped iff it has no file path; a `KeyError` iff the span id is not in the context and the file has no tree; the action defaults to `"update"`; a context span wins over a block; otherwise the span is found iff the block lookup with its parent fall-back succeeds, and then has the found block's lines and the path used; the two corrections are reported exactly when that lookup fails |
| Coder.PlanTasks | moatless/coder/base.py:172-244 | The appended tasks are those of the appended entries, in entry order, up to the first entry that raises; aborted iff some entry raises, and then the corrections are only the parse error, otherwise all entries' corrections in order; at most one task per entry |
| Coder.Plan | moatless/coder/base.py:129-271 | At most two attempts; every attempt but the last had corrections; `NoMessage` raises; success iff the last reply had no corrections; the tasks are those of all replies |
| Coder.RetryDuplicatesTasks | moatless/coder/base.py:172-238 | A rejected reply's tasks stay, so resending the corrected plan lists the same task twice |
| Coder.CountedMultiplicity | moatless/coder/base.py:426-436 | The comprehension keeps each counting line as often as it occurs in the diff, and no other line |
| Coder.CountedCons | moatless/coder/base.py:426-436 | A first line is kept, in front, exactly when it counts |
| Coder.CountedConcat | moatless/coder/base.py:426-436 | Counting distributes over concatenation, so kept lines stay in diff order |
| Coder.CountsDisjoint | moatless/coder/base.py:426-436 | No line counts as both added and removed |
| Coder.HunkStart | moatless/coder/base.py:426-436 | The first index past an `@@` line, after which lines are hunk lines |
| Coder.LinesDelta | moatless/coder/base.py:459 | The line delta is bounded by the number of lines |
| Coder.RenderAll | moatless/coder/base.py:426-436 | Rendering a hunk body prefixes each line by its sign, line by line |
| Coder.BodyCounts | moatless/coder/base.py:426-436 | Counting a rendered body gives its delta when no added text starts with `++` and no removed text with `--` |
| Coder.HeaderCounts | moatless/coder/base.py:430-435 | The `---`/`+++` header and the `@@` line count neither way |
| Coder.HunksOnlyDelta | moatless/coder/base.py:426-436 | Counting only inside the hunk gives the hunk's delta for every body |
| Coder.HunksOnlyDiffDelta | moatless/coder/base.py:426-436 | The same for the diff text split on newlines |
| Coder.AsWrittenDelta | moatless/coder/base.py:426-436 | As written, the delta is right when no added text starts with `++` and no removed text with `--` |
| Coder.DoubledSignMiscounted | moatless/coder/base.py:430 | As written, an added line reading `++y` is not counted: the delta is 0 where the hunk adds one line |
| Coder.ExpectedBlock | moatless/coder/base.py:282-292 | Whole file iff no span; a span with a block path is resolved by path, any other by its lines; unresolved iff that lookup fails |
| Coder.ShiftSpan | moatless/coder/base.py:468-471 | The start moves by the delta, the end too unless it is 0, and the width is kept |
| Coder.ShiftAll | moatless/coder/base.py:461-471 | Fails iff some planned task of the file has no span; shifts exactly the spans at or after the edit |
| Coder.Readdress | moatless/coder/base.py:456-471 | Nothing changes for a zero delta; fails iff the delta is non-zero and a planned task of the file has no span; other tasks are unchanged; moved spans start and end `d` lines later |
| Coder.ReaddressUndo | moatless/coder/base.py:456-471 | Shifting back by `-d` restores the task list when every moved span stays movable |
| Coder.ReaddressExample | moatless/coder/base.py:456-471 | Spans at 10-12 and 20-25, the first edited with delta +3: the second becomes 23-28 |
| Coder.ShiftShared | moatless/coder/base.py:461-471 | On span objects that tasks may share: raises iff a planned task of the file has no span; no object no task holds changes |
| Coder.SharedSpanShiftedTwice | moatless/coder/base.py:200 | As written, a span object held by two planned tasks moves once per holder: 20-25 ends at 26-31, where each task on its own moves to 23-28 |
| Coder.UnsharedShiftsOnce | moatless/coder/base.py:461-471 | When no object is shared and no planned task holds the edited one, the loop on objects raises and moves spans exactly as `ShiftAll` does on values |
| Coder.Finish | moatless/coder/base.py:404-483 | Crashes iff the task has no span or re-addressing raises; otherwise the task is completed and the others re-addressed by the diff's delta |
| Coder.Code | moatless/coder/base.py:273-517 | Refused iff no tree or the block is unresolved; at most three attempts, every earlier one retried; a reply without code ends with `False`; three retries give up; a written change finishes as `Finish` says |
| Swebench.SortKey | benchmark/swebench.py:32-34 | No key without a `-`; a key is the text before the last `-` and the integer after it |
| Swebench.SortKeyOfParts | benchmark/swebench.py:98-100 | For `text-suffix` with no `-` in the suffix, the key is `(text, int(suffix))`, or none when the suffix is no integer |
| Swebench.SortKeyOfNumberedId | benchmark/swebench.py:98-100 | Round trip: the key of `text-<n>` is `(text, n)` |
| Swebench.KeyLessTransitive | benchmark/swebench.py:94 | Tuple order on keys is transitive |
| Swebench.KeyLessTotal | benchmark/swebench.py:94 | Any two distinct keys are ordered one way or the other |
| Swebench.KeyLessAsymmetric | benchmark/swebench.py:94 | Tuple order on keys is asymmetric |
| Swebench.NumericNotLexical | benchmark/swebench.py:32-34 | The keys put `x-9` before `x-10`, which string order would not |
| Swebench.InsertOrdered | benchmark/swebench.py:94 | Inserting into an ordered list keeps it ordered |
| Swebench.SortBy | benchmark/swebench.py:94 | The result is ordered by the key and is a permutation of the rows |
| Swebench.SortRows | benchmark/swebench.py:93-95 | A result iff every row has a key; then the same rows, as a multiset, in key order: no row's key is below an earlier row's |
| Swebench.NumberOrdersSameText | benchmark/swebench.py:93-95 | In sorted rows, ids that share the text before the last `-` come in numeric order, so `x-9` precedes `x-10` |
| Swebench.GetFilename | benchmark/swebench.py:37-38 | The dataset name with `/` turned into `-`, a `-`, then the split; no `/` when the split has none |
| Swebench.FilenameSplitRecoverable | benchmark/swebench.py:37-38 | A split without `-` is what follows the name's last `-` |
| Swebench.FilenameCollision | benchmark/swebench.py:37-38 | The name cannot be recovered: datasets `a/b` and `a-b` get the same file name `a-b-dev` |
| Swebench.GetIndexName | benchmark/swebench.py:103-104 | The repo with `/` turned into `_`, then `__`, then the instance id |
| Swebench.IndexNameDistinct | benchmark/swebench.py:103-104 | Within one repo, distinct instance ids give distinct index names |
| Swebench.GetInstance | benchmark/swebench.py:84-87 | The first row with the id, or none iff no row has it |
| Swebench.GetInstanceAppend | benchmark/swebench.py:85-87 | In a concatenation the front part's match wins |
| Swebench.ContextLengths | benchmark/swebench.py:161-171 | Entry `i` is the token total of snippets `0..i`, a missing count adding 0: the first entry is the first count and each later entry is the one before plus its snippet's count; never decreasing when no count is negative |
| Swebench.OverlapsMeansSharedLine | benchmark/swebench.py:235-238 | For well-formed ranges the test holds iff the snippet and the diff share a line |
| Swebench.DiffCovered | benchmark/swebench.py:231-240 | Covered iff some diff of the file overlaps the snippet |
| Swebench.Highlight | benchmark/swebench.py:225-247 | Dark green iff some diff of the file overlaps; light green iff not covered but the file is a patch file; plain otherwise |

## Left out

- Tree-sitter itself: the syntax tree is an input, and the base parser's `find_block_node` and `get_child_node_block_types` are parameters.
- UTF-8 decoding of byte slices: text is kept as bytes, and the `...` test is done on bytes.
- JavaRoundTrip.RoundTrip: it requires a well-formed tree (children ordered and nested inside their parent, siblings consistent), and every spliced node to have children and not be an error node. JavaFindings.ErrorWrapperRepeatsHeader and JavaFindings.SalvagedRoundTrip cover error nodes; JavaFindings.EmptySpliceLosesBytes shows that a spliced node without children can lose its bytes.
- Language-model completion calls, prompts, correction message texts, logging, analytics events and the tokenizer: side effects or external services. Replies and attempt outcomes are inputs.
- JSON decoding of the plan reply: a decoded reply is an input, and a reply that does not decode is the `Malformed` case.
- File reads and writes, `do_diff`, `write_code`, `extract_response_parts`, `print_by_spans` and the Python parser: their results are inputs.
- The prompt built for an `"add"` task (moatless/coder/base.py:294-307): prompt text only.
- The re-parse of the edited file at moatless/coder/base.py:473: the new tree is the parser's, which is not part of this model.
- `run()` and the rest of the coder class: outside the modelled fragments.
- Coder.StripLineSuffixSpec: `\d` is read as the ASCII digits 0-9. Python's `\d` also matches every other Unicode decimal digit, so an id such as `f_L٣_L٤` keeps its suffix here but loses it in the source.
- Coder.StripLineSuffix: the same restriction of `\d` to ASCII digits; Coder.BlockPath inherits it.
- Coder.PlanTask: a key whose JSON value is `null` is read as absent. For `action`, Python's `get("action", "update")` then gives `None`, not `"update"`; the model's task always has a string action.
- Coder.Readdress: planned tasks hold span values here. In the source they hold span objects that several tasks can share (line 200, and a task re-appended by a retried plan), and lines 461-471 then shift a shared object once per holder. Coder.ShiftShared models the loop on shared objects, and Coder.UnsharedShiftsOnce shows both agree when nothing is shared. See the findings.
- Coder.ShiftAll: shifts each planned task's span value once, the intended behaviour; the as-written shift of a shared object once per holder is Coder.ShiftShared.
- Coder.Finish: inherits the value semantics of Coder.Readdress for the re-addressing it reports.
- Coder.Span: line numbers are integers; a span with `None` line numbers is not modelled, and a start line of 0 is read as false, as Python does.
- Swebench.SortKey: Python's `int()` also accepts surrounding whitespace, digit-separating underscores and non-ASCII Unicode decimal digits (`x-٣` has the key `("x", 3)` in the source and none here); only an optional sign and the ASCII digits 0-9 are modelled.
- Swebench.SortRows: only the order and the permutation are stated; that Python's sort is stable is not.
- Dataset download, the `_reports` cache, `load_dataset`, `instance_report(s)`, the `git diff` subprocess and the IPython/pandas display, filtering and styling: I/O and foreign libraries.
- The placeholder row inserted between shown rows (benchmark/swebench.py:203-223): display only.

## Findings

| source | as written | input that shows it | evidently intended | confidence | as-written member | corrected member |
|---|---|---|---|---|---|---|
| codeblocks/parser/java.py:144-153 | A spliced ERROR child is wrapped in a block that is given the enclosing node's `pre_code` and header `content` again | The source `pb`: a package declaration `p` followed by an ERROR node around the identifier `b` comes back as `ppb` | The wrapper holds only its children, so that the block tree still spells the source | not executed | JavaFindings.ErrorWrapperRepeatsHeader | JavaFindings.SalvagedRoundTrip |
| moatless/coder/base.py:426-436 | Lines starting with `+++` or `---` are skipped wherever they occur, to drop the file header | A hunk that adds the line `++y` renders it as `+++y`, which is not counted: the delta is 0 instead of 1 | Only the two header lines are skipped, and inside the hunks the sign alone decides | not executed | Coder.DoubledSignMiscounted | Coder.HunksOnlyDelta |
| moatless/coder/base.py:461-471 | Tasks hold the file context's span objects, and the re-addressing loop shifts the object of every planned holder | Spans 10-12 (edited, delta +3) and 20-25, the second held by two planned tasks: it ends at 26-31 | Each planned span moves once, to 23-28 | not executed | Coder.SharedSpanShiftedTwice | Coder.Readdress |
