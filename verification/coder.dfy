/**
 * The pure fragments of the coding orchestrator (`Coder` in
 * moatless/coder/base.py), with the language model, prompts, analytics and
 * file I/O taken out:
 *  - planning: a span id becomes a block path, a span is looked up in the
 *    file context or else found by path (with the "add" fallback to the
 *    parent path), and every problem becomes a correction for a retry;
 *  - coding: the expected block is resolved, completion attempts are
 *    bounded, the diff's added and removed lines are counted, and the spans
 *    of still-planned tasks in the same file are shifted by the line delta.
 * The parsed trees and the lookups on them (`find_by_path`,
 * `find_block_with_span`) come in as parameters.
 */
module Coder {
  import opened Optional
  import opened Strings
  import opened CodeBlocks

  // ---------------------------------------------------------------------
  // Spans and tasks
  // ---------------------------------------------------------------------

  /**
   * An addressable region of a file: the id it has in the file context (if
   * any), its line range, and the structural path it names (empty when it
   * has none; Python's `None` and `[]` are both falsy there).
   */
  datatype Span = Span(spanId: Option<string>, startLine: int, endLine: int, blockPath: seq<string>)

  /** A file of the context together with the spans of interest in it. */
  datatype ContextFile = ContextFile(filePath: string, spans: seq<Span>)

  datatype TaskState = Planned | Completed

  /** `CodingTask`: what to change where; `action` is free text, `"add"` being special. */
  datatype CodingTask = CodingTask(
    filePath: string,
    instructions: Option<string>,
    action: string,
    state: TaskState,
    span: Option<Span>)

  // ---------------------------------------------------------------------
  // Span id -> block path
  // ---------------------------------------------------------------------

  /** Every character of `s` in `[lo, hi)` is a decimal digit. */
  predicate DigitsBetween(s: string, lo: int, hi: int)
    requires 0 <= lo <= hi <= |s|
  {
    forall x | lo <= x < hi :: IsDigit(s[x])
  }

  /** An `_L` ends just before index `a` of `s`. */
  predicate MarkerEndsAt(s: string, a: int)
  {
    2 <= a <= |s| && s[a - 2] == '_' && s[a - 1] == 'L'
  }

  /**
   * `s[i..j]` is a whole match of `_L\d+_L\d+`, with its second `_L` at
   * index `k`.
   */
  predicate LineSuffixSplit(s: string, i: int, j: int, k: int)
  {
    0 <= i && i + 3 <= k && k + 3 <= j <= |s|
    && MarkerEndsAt(s, i + 2) && DigitsBetween(s, i + 2, k)
    && MarkerEndsAt(s, k + 2) && DigitsBetween(s, k + 2, j)
  }

  /**
   * `s[i..j]` is a match of `_L\d+_L\d+$`: without MULTILINE, `$` matches
   * at the very end and also just before a newline that ends the string.
   */
  predicate MatchesAt(s: string, i: int, j: int)
  {
    (exists k | i + 3 <= k <= j - 3 :: LineSuffixSplit(s, i, j, k))
    && (j == |s| || (j == |s| - 1 && s[j] == '\n'))
  }

  /** How many digits come just before index `e` of `s`. */
  function DigitsBefore(s: string, e: nat): (n: nat)
    requires e <= |s|
    ensures n <= e && DigitsBetween(s, e - n, e)
    ensures n < e ==> !IsDigit(s[e - n - 1])
  {
    if e > 0 && IsDigit(s[e - 1]) then 1 + DigitsBefore(s, e - 1) else 0
  }

  /** A run of digits preceded by a non-digit (or nothing) is exactly the run before `e`. */
  lemma {:induction false} DigitsBeforeExact(s: string, e: nat, n: nat)
    requires n <= e <= |s| && DigitsBetween(s, e - n, e)
    requires n < e ==> !IsDigit(s[e - n - 1])
    ensures DigitsBefore(s, e) == n
  {
    if n > 0 {
      assert IsDigit(s[e - 1]);
      DigitsBeforeExact(s, e - 1, n - 1);
    }
  }

  /** Where the `_L<digits>_L<digits>` run that ends at index `e` starts, if there is one. */
  function SuffixStart(s: string, e: nat): (r: Option<nat>)
    requires e <= |s|
    ensures r.Some? ==> exists k | r.value + 3 <= k <= e - 3 :: LineSuffixSplit(s, r.value, e, k)
  {
    var a := e - DigitsBefore(s, e);
    if a == e || !MarkerEndsAt(s, a) then None
    else
      var b := a - 2 - DigitsBefore(s, a - 2);
      if b == a - 2 || !MarkerEndsAt(s, b) then None
      else
        assert LineSuffixSplit(s, b - 2, e, a - 2);
        Some(b - 2)
  }

  /** Any line suffix that ends at `e` is the one `SuffixStart` finds. */
  lemma SuffixStartFinds(s: string, i: nat, e: nat, k: int)
    requires LineSuffixSplit(s, i, e, k)
    ensures SuffixStart(s, e) == Some(i)
  {
    DigitsBeforeExact(s, e, e - (k + 2));
    DigitsBeforeExact(s, k, k - (i + 2));
  }

  /**
   * `re.sub(r"_L\d+_L\d+$", "", spanId)`. At most one match exists, so the
   * result is the id with that match cut out, or the id itself.
   */
  function StripLineSuffix(spanId: string): (r: string)
    ensures |r| <= |spanId|
  {
    var n := |spanId|;
    if n > 0 && spanId[n - 1] == '\n' && SuffixStart(spanId, n - 1).Some? then
      spanId[..SuffixStart(spanId, n - 1).value] + "\n"
    else
      match SuffixStart(spanId, n)
      case Some(i) => spanId[..i]
      case None => spanId
  }

  /** The substitution cuts out a match of the pattern. */
  lemma StripRemovesMatch(spanId: string, i: int, j: int)
    requires MatchesAt(spanId, i, j)
    ensures StripLineSuffix(spanId) == spanId[..i] + spanId[j..]
  {
    var n := |spanId|;
    var k :| i + 3 <= k <= j - 3 && LineSuffixSplit(spanId, i, j, k);
    assert IsDigit(spanId[j - 1]);
    if j == n {
      SuffixStartFinds(spanId, i, n, k);
    } else {
      SuffixStartFinds(spanId, i, n - 1, k);
      assert spanId[j..] == "\n";
    }
  }

  /** The substitution changes the id only where the pattern matches. */
  lemma StripNeedsMatch(spanId: string)
    ensures StripLineSuffix(spanId) == spanId || exists i, j :: MatchesAt(spanId, i, j)
  {
    var n := |spanId|;
    if n > 0 && spanId[n - 1] == '\n' && SuffixStart(spanId, n - 1).Some? {
      assert MatchesAt(spanId, SuffixStart(spanId, n - 1).value, n - 1);
    } else if SuffixStart(spanId, n).Some? {
      assert MatchesAt(spanId, SuffixStart(spanId, n).value, n);
    }
  }

  /** What the substitution does: it removes the one match of the pattern, if there is one. */
  lemma StripLineSuffixSpec(spanId: string)
    ensures forall i, j | MatchesAt(spanId, i, j) :: StripLineSuffix(spanId) == spanId[..i] + spanId[j..]
    ensures (forall i, j :: !MatchesAt(spanId, i, j)) ==> StripLineSuffix(spanId) == spanId
  {
    forall i, j | MatchesAt(spanId, i, j)
      ensures StripLineSuffix(spanId) == spanId[..i] + spanId[j..]
    {
      StripRemovesMatch(spanId, i, j);
    }
    StripNeedsMatch(spanId);
  }

  /** Lines 188-190: the structural path a span id names. */
  function BlockPath(spanId: string): (path: seq<string>)
    ensures |path| > 0
    ensures forall i :: 0 <= i < |path| ==> '.' !in path[i]
    ensures Join(path, '.') == StripLineSuffix(spanId)
  {
    Split(StripLineSuffix(spanId), '.')
  }

  /** The id a span gets from its block path and line range. */
  function SpanIdOf(path: seq<string>, startLine: nat, endLine: nat): string
    requires |path| > 0
  {
    Join(path, '.') + "_L" + ShowNat(startLine) + "_L" + ShowNat(endLine)
  }

  /** Round trip: the block path of a path's span id is that path again. */
  lemma BlockPathOfSpanId(path: seq<string>, startLine: nat, endLine: nat)
    requires |path| > 0
    requires forall i :: 0 <= i < |path| ==> '.' !in path[i]
    ensures BlockPath(SpanIdOf(path, startLine, endLine)) == path
  {
    var joined := Join(path, '.');
    var a, b := ShowNat(startLine), ShowNat(endLine);
    var id := SpanIdOf(path, startLine, endLine);
    assert id == joined + "_L" + a + "_L" + b;
    LineSuffixOfNumbers(joined, a, b);
    StripLineSuffixSpec(id);
    assert id[..|joined|] == joined;
    SplitJoin(path, '.');
  }

  /** `<prefix>_L<a>_L<b>` for digit strings `a`, `b` ends in a match at `|prefix|`. */
  lemma LineSuffixOfNumbers(prefix: string, a: string, b: string)
    requires |a| > 0 && AllDigits(a) && |b| > 0 && AllDigits(b)
    ensures MatchesAt(prefix + "_L" + a + "_L" + b, |prefix|, |prefix + "_L" + a + "_L" + b|)
  {
    var id := prefix + "_L" + a + "_L" + b;
    var i, k := |prefix|, |prefix| + 2 + |a|;
    assert id[i] == '_' && id[i + 1] == 'L' && id[k] == '_' && id[k + 1] == 'L';
    assert DigitsBetween(id, i + 2, k) by {
      assert forall x | i + 2 <= x < k :: id[x] == a[x - i - 2];
    }
    assert DigitsBetween(id, k + 2, |id|) by {
      assert forall x | k + 2 <= x < |id| :: id[x] == b[x - k - 2];
    }
    assert LineSuffixSplit(id, i, |id|, k);
  }

  /** `$` also matches before a final newline, which then stays behind. */
  lemma SuffixBeforeFinalNewline()
    ensures BlockPath("run_L3_L9\n") == ["run\n"]
  {
    var id := "run_L3_L9\n";
    assert LineSuffixSplit(id, 3, 9, 6);
    assert MatchesAt(id, 3, 9);
    StripLineSuffixSpec(id);
    assert StripLineSuffix(id) == "run\n";
    SplitNoSeparator("run\n", '.');
  }

  // ---------------------------------------------------------------------
  // Planning one task (lines 172-232)
  // ---------------------------------------------------------------------

  /** Python truthiness of an optional string: present and non-empty. */
  predicate Truthy(s: Option<string>)
  {
    s.Some? && s.value != ""
  }

  /** The file has a span with this id and is filed under this path. */
  predicate HasSpan(f: ContextFile, filePath: string, spanId: string)
  {
    f.filePath == filePath && exists s | s in f.spans :: s.spanId == Some(spanId)
  }

  /** Index of the first span with this id. */
  function FirstSpan(spans: seq<Span>, spanId: string): (r: Option<nat>)
    ensures r.Some? ==> r.value < |spans| && spans[r.value].spanId == Some(spanId)
    ensures r.Some? ==> forall x | 0 <= x < r.value :: spans[x].spanId != Some(spanId)
    ensures r.None? <==> forall s | s in spans :: s.spanId != Some(spanId)
  {
    if spans == [] then None
    else if spans[0].spanId == Some(spanId) then Some(0)
    else
      match FirstSpan(spans[1..], spanId)
      case Some(x) => Some(x + 1)
      case None => None
  }

  /**
   * The last file with this path that has a span with this id: the loop
   * over the file context lets a later file overwrite an earlier choice.
   */
  function LastWithSpan(files: seq<ContextFile>, filePath: string, spanId: string): (r: Option<nat>)
    ensures r.None? <==> forall n | 0 <= n < |files| :: !HasSpan(files[n], filePath, spanId)
    ensures r.Some? ==> r.value < |files| && HasSpan(files[r.value], filePath, spanId)
    ensures r.Some? ==> forall m | r.value < m < |files| :: !HasSpan(files[m], filePath, spanId)
  {
    if files == [] then None
    else if HasSpan(files[|files| - 1], filePath, spanId) then Some(|files| - 1)
    else LastWithSpan(files[..|files| - 1], filePath, spanId)
  }

  /**
   * The span the file context gives for an id: the first span with that id
   * (the `break` leaves only the loop over one file's spans) in the last
   * file that has one.
   */
  function ContextSpan(files: seq<ContextFile>, filePath: string, spanId: string): Option<Span>
  {
    match LastWithSpan(files, filePath, spanId)
    case None => None
    case Some(n) => Some(files[n].spans[FirstSpan(files[n].spans, spanId).value])
  }

  /** Lines 192-201 as written: the two nested loops compute `ContextSpan`. */
  method FindContextSpan(files: seq<ContextFile>, filePath: string, spanId: string) returns (found: Option<Span>)
    ensures found == ContextSpan(files, filePath, spanId)
  {
    found := None;
    var n := 0;
    while n < |files|
      invariant 0 <= n <= |files|
      invariant found == ContextSpan(files[..n], filePath, spanId)
    {
      var file := files[n];
      if file.filePath == filePath {
        var x := 0;
        while x < |file.spans|
          invariant 0 <= x <= |file.spans|
          invariant forall y | 0 <= y < x :: file.spans[y].spanId != Some(spanId)
        {
          if file.spans[x].spanId == Some(spanId) {
            found := Some(file.spans[x]);
            break;
          }
          x := x + 1;
        }
      }
      assert files[..n + 1][..n] == files[..n];
      n := n + 1;
    }
    assert files[..n] == files;
  }

  /** `CodeBlock.find_by_path` on a parsed file, whose code is not part of this model. */
  type PathFinder = (CodeBlock, seq<string>) -> Option<CodeBlock>

  /** A block found by path, together with the path that found it. */
  datatype Found = Found(path: seq<string>, block: CodeBlock)

  /** Python's `path[:-1]`. */
  function DropLast<T>(path: seq<T>): (r: seq<T>)
    ensures |path| > 0 ==> r == path[..|path| - 1]
    ensures |path| == 0 ==> r == []
  {
    if |path| == 0 then [] else path[..|path| - 1]
  }

  /**
   * Lines 207-216: look the path up; only for an `"add"` task is a failed
   * lookup retried once with the parent path.
   */
  function FindWithFallback(tree: CodeBlock, find: PathFinder, path: seq<string>, action: string): (r: Option<Found>)
    ensures r.Some? ==> find(tree, r.value.path) == Some(r.value.block)
    ensures r.Some? ==> r.value.path == path || (action == "add" && r.value.path == DropLast(path))
    ensures find(tree, path).Some? ==> r.Some? && r.value.path == path
    ensures action != "add" ==> (r.Some? <==> find(tree, path).Some?)
    ensures action == "add" ==> (r.Some? <==> find(tree, path).Some? || find(tree, DropLast(path)).Some?)
  {
    match find(tree, path)
    case Some(b) => Some(Found(path, b))
    case None =>
      if action == "add" then
        match find(tree, DropLast(path))
        case Some(b) => Some(Found(DropLast(path), b))
        case None => None
      else None
  }

  /** Problems planning reports back to the model for a retry. */
  datatype Correction =
    | MissingFilePath                              // "No file path found in response."
    | BlockNotFound(spanId: string, filePath: string)
    | SpanNotFound(spanId: string, filePath: string)
    | MissingTasks                                 // "No tasks found in response."
    | Unparsable                                   // "Error parsing message: ..."

  /** One entry of the plan's `tasks` list; absent keys are `None`. */
  datatype TaskRequest = TaskRequest(
    spanId: Option<string>,
    filePath: Option<string>,
    instructions: Option<string>,
    action: Option<string>)

  /**
   * What planning makes of one entry: a task appended with the corrections
   * it caused, an entry skipped for want of a file path, or a `KeyError`
   * (a file path with no parsed tree) that aborts the whole reply.
   */
  datatype TaskOutcome =
    | Appended(task: CodingTask, corrections: seq<Correction>)
    | Skipped(correction: Correction)
    | Raised

  /** Lines 172-232 for one entry. */
  function PlanTask(files: seq<ContextFile>, trees: map<string, CodeBlock>, find: PathFinder, req: TaskRequest): (r: TaskOutcome)
    ensures r.Skipped? <==> !Truthy(req.filePath)
    ensures r.Skipped? ==> r.correction == MissingFilePath
    ensures r.Raised? <==>
              Truthy(req.filePath) && Truthy(req.spanId)
              && ContextSpan(files, req.filePath.value, req.spanId.value).None?
              && req.filePath.value !in trees
    ensures r.Appended? ==>
              && r.task.filePath == req.filePath.value
              && r.task.instructions == req.instructions
              && r.task.action == req.action.GetOr("update")
              && r.task.state == Planned
    ensures Truthy(req.filePath) && !Truthy(req.spanId) ==> r.Appended? && r.task.span.None? && r.corrections == []
    ensures Truthy(req.filePath) && Truthy(req.spanId) && ContextSpan(files, req.filePath.value, req.spanId.value).Some? ==>
              r.Appended? && r.task.span == ContextSpan(files, req.filePath.value, req.spanId.value) && r.corrections == []
    ensures r.Appended? && r.task.span.Some? && ContextSpan(files, r.task.filePath, req.spanId.GetOr("")).None? ==>
              && r.task.filePath in trees
              && find(trees[r.task.filePath], r.task.span.value.blockPath).Some?
              && var b := find(trees[r.task.filePath], r.task.span.value.blockPath).value;
                 r.task.span.value.startLine == b.startLine && r.task.span.value.endLine == b.endLine
    ensures Truthy(req.filePath) && Truthy(req.spanId) && ContextSpan(files, req.filePath.value, req.spanId.value).None?
            && req.filePath.value in trees ==>
              var found := FindWithFallback(trees[req.filePath.value], find, BlockPath(req.spanId.value), req.action.GetOr("update"));
              && r.Appended?
              && (r.task.span.Some? <==> found.Some?)
              && (found.Some? ==> r.task.span == Some(Span(None, found.value.block.startLine, found.value.block.endLine, found.value.path)))
              && (found.Some? <==> r.corrections == [])
              && (found.None? ==> r.corrections == [BlockNotFound(req.spanId.value, req.filePath.value), SpanNotFound(req.spanId.value, req.filePath.value)])
    ensures r.Appended? && r.corrections != [] ==>
              r.task.span.None? && r.corrections == [BlockNotFound(req.spanId.value, r.task.filePath), SpanNotFound(req.spanId.value, r.task.filePath)]
  {
    if !Truthy(req.filePath) then Skipped(MissingFilePath)
    else
      var filePath := req.filePath.value;
      var task := CodingTask(filePath, req.instructions, req.action.GetOr("update"), Planned, None);
      if !Truthy(req.spanId) then Appended(task, [])
      else
        var spanId := req.spanId.value;
        match ContextSpan(files, filePath, spanId)
        case Some(span) => Appended(task.(span := Some(span)), [])
        case None =>
          if filePath !in trees then Raised
          else
            match FindWithFallback(trees[filePath], find, BlockPath(spanId), task.action)
            case Some(found) =>
              Appended(task.(span := Some(Span(None, found.block.startLine, found.block.endLine, found.path))), [])
            case None =>
              Appended(task, [BlockNotFound(spanId, filePath), SpanNotFound(spanId, filePath)])
  }

  /** Each entry planned on its own. */
  function Outcomes(files: seq<ContextFile>, trees: map<string, CodeBlock>, find: PathFinder, reqs: seq<TaskRequest>): (os: seq<TaskOutcome>)
    ensures |os| == |reqs|
    ensures forall i | 0 <= i < |reqs| :: os[i] == PlanTask(files, trees, find, reqs[i])
  {
    seq(|reqs|, i requires 0 <= i < |reqs| => PlanTask(files, trees, find, reqs[i]))
  }

  /** The tasks of the appended outcomes, in order, up to the first that raised. */
  function TasksUntilRaise(os: seq<TaskOutcome>): seq<CodingTask>
  {
    if os == [] then []
    else
      match os[0]
      case Raised => []
      case Skipped(_) => TasksUntilRaise(os[1..])
      case Appended(task, _) => [task] + TasksUntilRaise(os[1..])
  }

  /** The corrections of all outcomes, in order. */
  function AllCorrections(os: seq<TaskOutcome>): seq<Correction>
  {
    if os == [] then []
    else
      (match os[0] case Raised => [] case Skipped(c) => [c] case Appended(_, cs) => cs) + AllCorrections(os[1..])
  }

  /**
   * What one reply leaves behind: the tasks appended to the plan, the
   * corrections collected, and whether an exception cut the reply short.
   */
  datatype Attempt = Attempt(appended: seq<CodingTask>, corrections: seq<Correction>, aborted: bool)

  /**
   * Lines 172-232 for the whole `tasks` list, in order. A `KeyError` stops
   * the loop; the handler at line 244 then replaces every correction
   * gathered so far by the parse-error one, but the tasks already appended
   * stay.
   */
  function PlanTasks(files: seq<ContextFile>, trees: map<string, CodeBlock>, find: PathFinder, reqs: seq<TaskRequest>): (r: Attempt)
    ensures r.appended == TasksUntilRaise(Outcomes(files, trees, find, reqs))
    ensures !r.aborted ==> r.corrections == AllCorrections(Outcomes(files, trees, find, reqs))
    ensures |r.appended| <= |reqs|
    ensures r.aborted <==> exists i | 0 <= i < |reqs| :: PlanTask(files, trees, find, reqs[i]).Raised?
    ensures r.aborted ==> r.corrections == [Unparsable]
    ensures r.corrections == [] ==> |r.appended| == |reqs|
    ensures forall x | 0 <= x < |r.appended| :: r.appended[x].state == Planned && r.appended[x].filePath != ""
  {
    if reqs == [] then Attempt([], [], false)
    else
      var rest := PlanTasks(files, trees, find, reqs[1..]);
      assert forall i | 1 <= i < |reqs| :: reqs[i] == reqs[1..][i - 1];
      assert Outcomes(files, trees, find, reqs)[1..] == Outcomes(files, trees, find, reqs[1..]);
      match PlanTask(files, trees, find, reqs[0])
      case Raised => Attempt([], [Unparsable], true)
      case Skipped(c) =>
        if rest.aborted then rest else Attempt(rest.appended, [c] + rest.corrections, false)
      case Appended(task, cs) =>
        if rest.aborted then Attempt([task] + rest.appended, rest.corrections, true)
        else Attempt([task] + rest.appended, cs + rest.corrections, false)
  }

  /** A completion reply: no message at all, text that is not JSON, or the decoded plan. */
  datatype Reply = NoMessage | Malformed | Decoded(tasks: Option<seq<TaskRequest>>)

  /** Lines 151-238 for one reply other than `NoMessage`. */
  function Answer(files: seq<ContextFile>, trees: map<string, CodeBlock>, find: PathFinder, reply: Reply): Attempt
  {
    match reply
    case Decoded(Some(reqs)) => PlanTasks(files, trees, find, reqs)
    case Decoded(None) => Attempt([], [MissingTasks], false)
    case _ => Attempt([], [Unparsable], true)
  }

  /** The tasks the first `n` replies append, a rejected reply's included. */
  function Collected(files: seq<ContextFile>, trees: map<string, CodeBlock>, find: PathFinder, reply: nat -> Reply, n: nat): seq<CodingTask>
  {
    if n == 0 then []
    else
      var before := Collected(files, trees, find, reply, n - 1);
      if reply(n - 1).NoMessage? then before else before + Answer(files, trees, find, reply(n - 1)).appended
  }

  /** `plan()`'s result: `True`, `False`, or the `ValueError` raised on an empty reply. */
  datatype PlanResult = Accepted | Rejected | NoMessageRaised

  /**
   * Lines 129-271: at most two completion attempts, `reply(a)` answering
   * attempt `a`. A reply without corrections ends planning successfully;
   * an empty reply raises; otherwise the corrections go back for a retry.
   */
  method Plan(files: seq<ContextFile>, trees: map<string, CodeBlock>, find: PathFinder, reply: nat -> Reply)
    returns (result: PlanResult, tasks: seq<CodingTask>, attempts: nat)
    ensures 1 <= attempts <= 2
    ensures forall a | 0 <= a < attempts - 1 ::
              !reply(a).NoMessage? && Answer(files, trees, find, reply(a)).corrections != []
    ensures result.NoMessageRaised? <==> reply(attempts - 1).NoMessage?
    ensures result.Accepted? <==>
              !reply(attempts - 1).NoMessage? && Answer(files, trees, find, reply(attempts - 1)).corrections == []
    ensures result.Rejected? ==> attempts == 2
    ensures tasks == Collected(files, trees, find, reply, attempts)
  {
    tasks := [];
    attempts := 0;
    while attempts < 2
      invariant 0 <= attempts <= 2
      invariant forall a | 0 <= a < attempts ::
                  !reply(a).NoMessage? && Answer(files, trees, find, reply(a)).corrections != []
      invariant tasks == Collected(files, trees, find, reply, attempts)
    {
      var r := reply(attempts);
      if r.NoMessage? {
        result := NoMessageRaised;
        attempts := attempts + 1;
        return;
      }
      var answer := Answer(files, trees, find, r);
      tasks := tasks + answer.appended;
      attempts := attempts + 1;
      if answer.corrections == [] {
        result := Accepted;
        return;
      }
    }
    result := Rejected;
  }

  /** A rejected reply's tasks stay in the plan, so a corrected resend duplicates them. */
  lemma RetryDuplicatesTasks(files: seq<ContextFile>, trees: map<string, CodeBlock>, find: PathFinder, reply: nat -> Reply)
    requires reply(0) == Decoded(Some([TaskRequest(None, Some("a.py"), None, None), TaskRequest(None, None, None, None)]))
    requires reply(1) == Decoded(Some([TaskRequest(None, Some("a.py"), None, None)]))
    ensures Answer(files, trees, find, reply(0)).corrections == [MissingFilePath]
    ensures Answer(files, trees, find, reply(1)).corrections == []
    ensures var task := CodingTask("a.py", None, "update", Planned, None);
            Collected(files, trees, find, reply, 2) == [task, task]
  {
    var good := TaskRequest(None, Some("a.py"), None, None);
    var bad := TaskRequest(None, None, None, None);
    var task := CodingTask("a.py", None, "update", Planned, None);
    assert PlanTask(files, trees, find, good) == Appended(task, []);
    assert PlanTask(files, trees, find, bad) == Skipped(MissingFilePath);
    assert [good, bad][1..] == [bad] && [bad][1..] == [] && [good][1..] == [];
    assert PlanTasks(files, trees, find, [good]) == Attempt([task], [], false);
    assert PlanTasks(files, trees, find, [good, bad]) == Attempt([task], [MissingFilePath], false);
    assert Collected(files, trees, find, reply, 1) == [task];
  }

  // ---------------------------------------------------------------------
  // Counting the diff's lines (lines 426-436)
  // ---------------------------------------------------------------------

  datatype LineKind = Added | Removed

  /** The character a unified diff puts before a line of this kind. */
  function Sign(kind: LineKind): char
  {
    if kind == Added then '+' else '-'
  }

  /**
   * How diff lines are counted: as written at lines 430 and 435, or only
   * inside the hunks, which is what skipping `+++`/`---` evidently aims at.
   */
  datatype Counting = AsWritten | HunksOnly

  /**
   * Whether a line counts as `kind`. As written, it starts with the sign
   * but not with three of them (to skip the `+++`/`---` file header), which
   * also drops an added line whose own text starts with `++`. Inside hunks
   * the sign alone decides.
   */
  predicate CountsAs(line: string, kind: LineKind, counting: Counting)
  {
    var c := Sign(kind);
    StartsWith(line, [c]) && (counting == HunksOnly || !StartsWith(line, [c, c, c]))
  }

  /** The lines that count as `kind`, in order: the list comprehension. */
  function Counted(lines: seq<string>, kind: LineKind, counting: Counting): (r: seq<string>)
    ensures |r| <= |lines|
  {
    if lines == [] then []
    else
      (if CountsAs(lines[0], kind, counting) then [lines[0]] else []) + Counted(lines[1..], kind, counting)
  }

  /**
   * Each counting line is kept as often as it occurs and no other line is,
   * so `len()` of the comprehension is the number of counting lines.
   */
  lemma {:induction false} CountedMultiplicity(lines: seq<string>, kind: LineKind, counting: Counting)
    ensures forall l :: multiset(Counted(lines, kind, counting))[l]
                          == if CountsAs(l, kind, counting) then multiset(lines)[l] else 0
  {
    if lines != [] {
      CountedMultiplicity(lines[1..], kind, counting);
      assert lines == [lines[0]] + lines[1..];
    }
  }

  /** Counting distributes over concatenation. */
  lemma {:induction false} CountedConcat(a: seq<string>, b: seq<string>, kind: LineKind, counting: Counting)
    ensures Counted(a + b, kind, counting) == Counted(a, kind, counting) + Counted(b, kind, counting)
  {
    if a == [] {
      assert a + b == b;
    } else {
      CountedConcat(a[1..], b, kind, counting);
      CountedCons(a[0], a[1..] + b, kind, counting);
      CountedCons(a[0], a[1..], kind, counting);
      assert [a[0]] + (a[1..] + b) == a + b;
      assert [a[0]] + a[1..] == a;
    }
  }

  /** Unfolding `Counted` at a first line. */
  lemma CountedCons(x: string, rest: seq<string>, kind: LineKind, counting: Counting)
    ensures Counted([x] + rest, kind, counting)
              == (if CountsAs(x, kind, counting) then [x] else []) + Counted(rest, kind, counting)
  {
    assert ([x] + rest)[0] == x && ([x] + rest)[1..] == rest;
  }


  /** No line counts as both added and removed, so the two counts share the lines. */
  lemma {:induction false} CountsDisjoint(lines: seq<string>, counting: Counting)
    ensures |Counted(lines, Added, counting)| + |Counted(lines, Removed, counting)| <= |lines|
  {
    if lines != [] {
      CountsDisjoint(lines[1..], counting);
    }
  }

  /**
   * Where the hunks start: just past the first `@@` line at or after
   * `from`, or the end when there is none. The file header comes before.
   */
  function HunkStart(lines: seq<string>, from: nat): (i: nat)
    requires from <= |lines|
    ensures from <= i <= |lines|
    ensures forall x | from <= x < i - 1 :: !StartsWith(lines[x], "@@")
    ensures from < i ==> i == |lines| || StartsWith(lines[i - 1], "@@")
    ensures i == from ==> from == |lines|
    decreases |lines| - from
  {
    if from == |lines| then from
    else if StartsWith(lines[from], "@@") then from + 1
    else HunkStart(lines, from + 1)
  }

  /** The lines whose signs are counted. */
  function CountedPart(lines: seq<string>, counting: Counting): seq<string>
  {
    if counting == AsWritten then lines else lines[HunkStart(lines, 0)..]
  }

  /** Line 459: added minus removed lines of the diff's lines. */
  function LinesDelta(lines: seq<string>, counting: Counting): (d: int)
    ensures -|lines| <= d <= |lines|
  {
    var part := CountedPart(lines, counting);
    CountsDisjoint(part, counting);
    |Counted(part, Added, counting)| - |Counted(part, Removed, counting)|
  }

  /** Lines 426-436 and 459: the line delta of a diff split on newlines. */
  function LineDelta(diff: string, counting: Counting): int
  {
    LinesDelta(Split(diff, '\n'), counting)
  }

  /** A line of a hunk: unchanged, added or removed text. */
  datatype DiffLine = Context(text: string) | Add(text: string) | Remove(text: string)

  function Render(line: DiffLine): string
  {
    match line
    case Context(t) => [' '] + t
    case Add(t) => ['+'] + t
    case Remove(t) => ['-'] + t
  }

  function RenderAll(body: seq<DiffLine>): (r: seq<string>)
    ensures |r| == |body|
    ensures forall x | 0 <= x < |body| :: r[x] == Render(body[x])
  {
    if body == [] then [] else [Render(body[0])] + RenderAll(body[1..])
  }

  /** Lines added minus lines removed by a hunk body. */
  function BodyDelta(body: seq<DiffLine>): int
  {
    if body == [] then 0
    else (match body[0] case Add(_) => 1 case Remove(_) => -1 case Context(_) => 0) + BodyDelta(body[1..])
  }

  /** A one-hunk unified diff: the two file header lines, the `@@` line, the body. */
  function UnifiedDiff(oldName: string, newName: string, hunk: string, body: seq<DiffLine>): seq<string>
  {
    ["--- " + oldName, "+++ " + newName, hunk] + RenderAll(body)
  }

  /** No added text starts with `++` and no removed text with `--`. */
  predicate NoDoubledSigns(body: seq<DiffLine>)
  {
    forall x | 0 <= x < |body| ::
      (body[x].Add? ==> !StartsWith(body[x].text, "++")) && (body[x].Remove? ==> !StartsWith(body[x].text, "--"))
  }

  /** How one rendered line counts. */
  lemma RenderCounts(line: DiffLine, counting: Counting)
    requires counting == HunksOnly || NoDoubledSigns([line])
    ensures CountsAs(Render(line), Added, counting) <==> line.Add?
    ensures CountsAs(Render(line), Removed, counting) <==> line.Remove?
  {
    assert [line][0] == line;
    var c := match line case Context(_) => ' ' case Add(_) => '+' case Remove(_) => '-';
    SignedStartsWith(c, line.text);
  }

  /** A line with a sign in front starts with the sign, and with three of them iff its text starts with two. */
  lemma SignedStartsWith(c: char, t: string)
    ensures StartsWith([c] + t, ['+']) <==> c == '+'
    ensures StartsWith([c] + t, ['-']) <==> c == '-'
    ensures StartsWith([c] + t, [c, c, c]) <==> StartsWith(t, [c, c])
  {
    assert ([c] + t)[..1] == [c];
    assert |t| >= 2 ==> ([c] + t)[..3] == [c] + t[..2];
  }

  /** Counting a rendered hunk body gives its line delta. */
  lemma {:induction false} BodyCounts(body: seq<DiffLine>, counting: Counting)
    requires counting == HunksOnly || NoDoubledSigns(body)
    ensures |Counted(RenderAll(body), Added, counting)| - |Counted(RenderAll(body), Removed, counting)| == BodyDelta(body)
  {
    if body != [] {
      var head, rest := Render(body[0]), RenderAll(body[1..]);
      assert RenderAll(body) == [head] + rest;
      CountedConcat([head], rest, Added, counting);
      CountedConcat([head], rest, Removed, counting);
      assert NoDoubledSigns(body) ==> NoDoubledSigns([body[0]]) && NoDoubledSigns(body[1..]) by {
        if NoDoubledSigns(body) {
          assert forall x | 0 <= x < |body| - 1 :: body[1..][x] == body[x + 1];
        }
      }
      RenderCounts(body[0], counting);
      BodyCounts(body[1..], counting);
    }
  }

  /** As written, the three header lines of a one-hunk diff add nothing to either count. */
  lemma HeaderCounts(oldName: string, newName: string, hunk: string)
    requires StartsWith(hunk, "@@")
    ensures Counted(["--- " + oldName, "+++ " + newName, hunk], Added, AsWritten) == []
    ensures Counted(["--- " + oldName, "+++ " + newName, hunk], Removed, AsWritten) == []
  {
    var h := ["--- " + oldName, "+++ " + newName, hunk];
    assert h[0][..1] == "-" && h[0][..3] == "---";
    assert h[1][..1] == "+" && h[1][..3] == "+++";
    assert hunk[..2] == "@@" && h[2][..1] == "@";
    assert h[1..] == ["+++ " + newName, hunk] && h[2..] == [hunk] && h[3..] == [];
    assert Counted(h[2..], Added, AsWritten) == [] && Counted(h[2..], Removed, AsWritten) == [];
    assert Counted(h[1..], Added, AsWritten) == [] && Counted(h[1..], Removed, AsWritten) == [];
  }

  /** Skipping to the hunks skips exactly the three header lines. */
  lemma HeaderSkipped(oldName: string, newName: string, hunk: string, body: seq<DiffLine>)
    requires StartsWith(hunk, "@@")
    ensures CountedPart(UnifiedDiff(oldName, newName, hunk, body), HunksOnly) == RenderAll(body)
  {
    var lines := UnifiedDiff(oldName, newName, hunk, body);
    assert lines[0][0] == '-' && lines[1][0] == '+' && lines[2] == hunk;
    assert HunkStart(lines, 0) == 3;
    assert lines[3..] == RenderAll(body);
  }

  /**
   * Corrected counting: the line delta of a one-hunk diff is the hunk's
   * delta, whatever its lines say.
   */
  lemma HunksOnlyDelta(oldName: string, newName: string, hunk: string, body: seq<DiffLine>)
    requires StartsWith(hunk, "@@")
    ensures LinesDelta(UnifiedDiff(oldName, newName, hunk, body), HunksOnly) == BodyDelta(body)
  {
    HeaderSkipped(oldName, newName, hunk, body);
    BodyCounts(body, HunksOnly);
  }

  /** Without newlines in names, hunk header and texts, no diff line holds one. */
  lemma UnifiedDiffLines(oldName: string, newName: string, hunk: string, body: seq<DiffLine>)
    requires '\n' !in oldName && '\n' !in newName && '\n' !in hunk
    requires forall x | 0 <= x < |body| :: '\n' !in body[x].text
    ensures forall x | 0 <= x < |UnifiedDiff(oldName, newName, hunk, body)| :: '\n' !in UnifiedDiff(oldName, newName, hunk, body)[x]
  {
    var lines := UnifiedDiff(oldName, newName, hunk, body);
    forall x | 0 <= x < |lines|
      ensures '\n' !in lines[x]
    {
      if x >= 3 {
        assert lines[x] == Render(body[x - 3]);
      }
    }
  }

  /** The same for the diff as one string, as `do_diff` returns it. */
  lemma HunksOnlyDiffDelta(oldName: string, newName: string, hunk: string, body: seq<DiffLine>)
    requires StartsWith(hunk, "@@")
    requires '\n' !in oldName && '\n' !in newName && '\n' !in hunk
    requires forall x | 0 <= x < |body| :: '\n' !in body[x].text
    ensures LineDelta(Join(UnifiedDiff(oldName, newName, hunk, body), '\n'), HunksOnly) == BodyDelta(body)
  {
    var lines := UnifiedDiff(oldName, newName, hunk, body);
    UnifiedDiffLines(oldName, newName, hunk, body);
    SplitJoin(lines, '\n');
    HunksOnlyDelta(oldName, newName, hunk, body);
  }

  /**
   * As written, the delta is right as long as no added text starts with
   * `++` and no removed text with `--`.
   */
  lemma AsWrittenDelta(oldName: string, newName: string, hunk: string, body: seq<DiffLine>)
    requires StartsWith(hunk, "@@") && NoDoubledSigns(body)
    ensures LinesDelta(UnifiedDiff(oldName, newName, hunk, body), AsWritten) == BodyDelta(body)
  {
    var header := ["--- " + oldName, "+++ " + newName, hunk];
    HeaderCounts(oldName, newName, hunk);
    CountedConcat(header, RenderAll(body), Added, AsWritten);
    CountedConcat(header, RenderAll(body), Removed, AsWritten);
    BodyCounts(body, AsWritten);
  }

  /** The body `[" x", "+++y"]` has nothing counted as written. */
  lemma DoubledBodyCounts()
    ensures Counted(RenderAll([Context("x"), Add("++y")]), Added, AsWritten) == []
    ensures Counted(RenderAll([Context("x"), Add("++y")]), Removed, AsWritten) == []
  {
    DoubledBodyRendered();
    var lines := [" x", "+++y"];
    assert lines[1..] == ["+++y"] && lines[1..][1..] == [];
    assert lines[0][..1] == " " && lines[1][..1] == "+" && lines[1][..3] == "+++";
  }

  /** The body renders as the two lines ` x` and `+++y`. */
  lemma DoubledBodyRendered()
    ensures RenderAll([Context("x"), Add("++y")]) == [" x", "+++y"]
  {
    var body := [Context("x"), Add("++y")];
    assert body[1..] == [Add("++y")] && body[1..][1..] == [];
    assert Render(Add("++y")) == "+++y" && Render(Context("x")) == " x";
    assert RenderAll(body[1..]) == ["+++y"];
  }

  /** An added line reading `++y` is not counted as written, in any one-hunk diff. */
  lemma DoubledSignMiscounted(oldName: string, newName: string, hunk: string)
    requires StartsWith(hunk, "@@")
    ensures LinesDelta(UnifiedDiff(oldName, newName, hunk, [Context("x"), Add("++y")]), AsWritten) == 0
    ensures BodyDelta([Context("x"), Add("++y")]) == 1
  {
    var body := [Context("x"), Add("++y")];
    var header := ["--- " + oldName, "+++ " + newName, hunk];
    HeaderCounts(oldName, newName, hunk);
    DoubledBodyCounts();
    CountedConcat(header, RenderAll(body), Added, AsWritten);
    CountedConcat(header, RenderAll(body), Removed, AsWritten);
    assert body[1..] == [Add("++y")] && body[1..][1..] == [];
  }

  // ---------------------------------------------------------------------
  // Coding one task (lines 273-517)
  // ---------------------------------------------------------------------

  /** `CodeBlock.find_block_with_span`, whose code is not part of this model. */
  type SpanFinder = (CodeBlock, Span) -> Option<CodeBlock>

  /** What the instructions are written against: the whole file, one block, or nothing found. */
  datatype Target = WholeFile | Expected(block: CodeBlock) | Unresolved

  /** Lines 282-292: a span with a block path is resolved by path, any other span by its lines. */
  function ExpectedBlock(tree: CodeBlock, span: Option<Span>, byPath: PathFinder, bySpan: SpanFinder): (r: Target)
    ensures r.WholeFile? <==> span.None?
    ensures r.Expected? && span.value.blockPath != [] ==> byPath(tree, span.value.blockPath) == Some(r.block)
    ensures r.Expected? && span.value.blockPath == [] ==> bySpan(tree, span.value) == Some(r.block)
    ensures r.Unresolved? <==>
              span.Some? && (if span.value.blockPath != [] then byPath(tree, span.value.blockPath) else bySpan(tree, span.value)).None?
  {
    match span
    case None => WholeFile
    case Some(s) =>
      var found := if s.blockPath != [] then byPath(tree, s.blockPath) else bySpan(tree, s);
      if found.Some? then Expected(found.value) else Unresolved
  }

  /**
   * The span of a planned task in the edited file that lies at or after the
   * edited span's end is moved; line 465 reads a start line of 0 as false.
   */
  predicate Shifted(t: CodingTask, filePath: string, editedEnd: int)
  {
    t.filePath == filePath && t.state == Planned && t.span.Some?
    && t.span.value.startLine != 0 && t.span.value.startLine >= editedEnd
  }

  /** A planned task of the edited file without a span: line 465 raises on it. */
  predicate Spanless(t: CodingTask, filePath: string)
  {
    t.filePath == filePath && t.state == Planned && t.span.None?
  }

  /** Lines 468-471: the start moves by `d`, and the end too unless it is 0. */
  function ShiftSpan(s: Span, d: int): (r: Span)
    ensures r.spanId == s.spanId && r.blockPath == s.blockPath
    ensures r.startLine == s.startLine + d
    ensures s.endLine != 0 ==> r.endLine == s.endLine + d
    ensures s.endLine == 0 ==> r.endLine == 0
    ensures s.endLine != 0 ==> r.endLine - r.startLine == s.endLine - s.startLine
  {
    s.(startLine := s.startLine + d, endLine := if s.endLine != 0 then s.endLine + d else s.endLine)
  }

  /** The loop at lines 461-471 over the task list; `None` when it raises. */
  function ShiftAll(tasks: seq<CodingTask>, filePath: string, editedEnd: int, d: int): (r: Option<seq<CodingTask>>)
    ensures r.None? <==> exists i | 0 <= i < |tasks| :: Spanless(tasks[i], filePath)
    ensures r.Some? ==> |r.value| == |tasks|
    ensures r.Some? ==> forall i | 0 <= i < |tasks| ::
              r.value[i] == if Shifted(tasks[i], filePath, editedEnd)
                            then tasks[i].(span := Some(ShiftSpan(tasks[i].span.value, d)))
                            else tasks[i]
  {
    if tasks == [] then Some([])
    else
      var t := tasks[0];
      var rest := ShiftAll(tasks[1..], filePath, editedEnd, d);
      assert forall i | 1 <= i < |tasks| :: tasks[i] == tasks[1..][i - 1];
      if Spanless(t, filePath) || rest.None? then None
      else
        var head := if Shifted(t, filePath, editedEnd) then t.(span := Some(ShiftSpan(t.span.value, d))) else t;
        Some([head] + rest.value)
  }

  /**
   * Lines 459-471: re-address the still-planned spans after an edit that
   * ended at line `editedEnd` and changed the line count by `d`.
   */
  function Readdress(tasks: seq<CodingTask>, filePath: string, editedEnd: int, d: int): (r: Option<seq<CodingTask>>)
    ensures d == 0 ==> r == Some(tasks)
    ensures r.None? <==> d != 0 && exists i | 0 <= i < |tasks| :: Spanless(tasks[i], filePath)
    ensures r.Some? ==> |r.value| == |tasks|
    ensures r.Some? ==> forall i | 0 <= i < |tasks| && !Shifted(tasks[i], filePath, editedEnd) :: r.value[i] == tasks[i]
    ensures r.Some? && d != 0 ==> forall i | 0 <= i < |tasks| && Shifted(tasks[i], filePath, editedEnd) ::
              && r.value[i].span.Some?
              && r.value[i] == tasks[i].(span := r.value[i].span)
              && r.value[i].span.value.startLine == tasks[i].span.value.startLine + d
              && r.value[i].span.value.endLine == (if tasks[i].span.value.endLine != 0 then tasks[i].span.value.endLine + d else 0)
  {
    if d == 0 then Some(tasks) else ShiftAll(tasks, filePath, editedEnd, d)
  }

  /**
   * Shifting back undoes a shift, as long as every moved span stays movable:
   * its start stays non-zero and at or after the edit, and a non-zero end
   * stays non-zero.
   */
  lemma ReaddressUndo(tasks: seq<CodingTask>, filePath: string, editedEnd: int, d: int)
    requires forall i | 0 <= i < |tasks| :: !Spanless(tasks[i], filePath)
    requires forall i | 0 <= i < |tasks| && Shifted(tasks[i], filePath, editedEnd) ::
               var s := tasks[i].span.value;
               s.startLine + d != 0 && s.startLine + d >= editedEnd && (s.endLine != 0 ==> s.endLine + d != 0)
    ensures Readdress(tasks, filePath, editedEnd, d).Some?
    ensures Readdress(Readdress(tasks, filePath, editedEnd, d).value, filePath, editedEnd, -d) == Some(tasks)
  {
    var moved := Readdress(tasks, filePath, editedEnd, d).value;
    if d != 0 {
      forall i | 0 <= i < |moved|
        ensures !Spanless(moved[i], filePath)
        ensures Shifted(moved[i], filePath, editedEnd) <==> Shifted(tasks[i], filePath, editedEnd)
      {
      }
      var back := Readdress(moved, filePath, editedEnd, -d).value;
      forall i | 0 <= i < |tasks|
        ensures back[i] == tasks[i]
      {
        if Shifted(tasks[i], filePath, editedEnd) {
          var s := tasks[i].span.value;
          assert back[i].span.value.startLine == s.startLine;
          assert back[i].span.value.endLine == s.endLine;
          assert back[i].span.value == s;
        }
      }
      assert |back| == |tasks|;
      assert back == tasks;
    }
  }

  /**
   * The worked example: blocks at lines 10-12 and 20-25, the first edited
   * into five lines (delta +3): the second span becomes 23-28 and the
   * edited task, now completed, keeps its span.
   */
  lemma ReaddressExample()
    ensures
      var edited := CodingTask("a.py", None, "update", Completed, Some(Span(None, 10, 12, [])));
      var later := CodingTask("a.py", None, "update", Planned, Some(Span(None, 20, 25, [])));
      Readdress([edited, later], "a.py", 12, 3)
        == Some([edited, later.(span := Some(Span(None, 23, 28, [])))])
  {
    var edited := CodingTask("a.py", None, "update", Completed, Some(Span(None, 10, 12, [])));
    var later := CodingTask("a.py", None, "update", Planned, Some(Span(None, 20, 25, [])));
    var r := Readdress([edited, later], "a.py", 12, 3);
    assert !Shifted(edited, "a.py", 12) && Shifted(later, "a.py", 12);
    assert r.Some? && r.value[0] == edited;
    assert r.value[1].span.value == Span(None, 23, 28, []);
    assert r.value[1] == later.(span := Some(Span(None, 23, 28, [])));
    assert r.value == [edited, later.(span := Some(Span(None, 23, 28, [])))];
  }

  // ---------------------------------------------------------------------
  // Re-addressing shared span objects (lines 200, 461-471)
  // ---------------------------------------------------------------------

  /**
   * A task as Python holds it: its span is a reference to a span object,
   * and two tasks may hold the same one (line 200 hands every task the
   * file context's own `Span`, so two entries naming one id share it, and
   * so does a task re-appended by a retried plan).
   */
  datatype Holder = Holder(task: CodingTask, ref: Option<nat>)

  /** Every reference points into the store of span objects. */
  predicate RefsIn(holders: seq<Holder>, store: seq<Span>)
  {
    forall i | 0 <= i < |holders| :: holders[i].ref.Some? ==> holders[i].ref.value < |store|
  }

  /** The task a holder stands for, with its span read from the store. */
  function Deref(h: Holder, store: seq<Span>): (t: CodingTask)
    requires h.ref.Some? ==> h.ref.value < |store|
    ensures t.filePath == h.task.filePath && t.state == h.task.state
    ensures t.span.Some? <==> h.ref.Some?
  {
    h.task.(span := if h.ref.Some? then Some(store[h.ref.value]) else None)
  }

  function DerefAll(holders: seq<Holder>, store: seq<Span>): (r: seq<CodingTask>)
    requires RefsIn(holders, store)
    ensures |r| == |holders|
    ensures forall i | 0 <= i < |holders| :: r[i] == Deref(holders[i], store)
  {
    seq(|holders|, i requires 0 <= i < |holders| => Deref(holders[i], store))
  }

  /** Some holder refers to object `k`. */
  predicate Referenced(holders: seq<Holder>, k: nat)
  {
    exists i | 0 <= i < |holders| :: holders[i].ref == Some(k)
  }

  /** A planned holder of the edited file without a span: line 465 raises on it. */
  predicate SpanlessHolder(h: Holder, filePath: string)
  {
    h.task.filePath == filePath && h.task.state == Planned && h.ref.None?
  }

  /**
   * Lines 461-471 as they run on shared objects: every planned holder of
   * the file shifts the object it refers to, and both that object's start
   * and the edited task's end (`task.span.end_line`, object `edited`) are
   * read afresh at each step; `None` when the loop raises.
   */
  function ShiftShared(holders: seq<Holder>, store: seq<Span>, filePath: string, edited: nat, d: int): (r: Option<seq<Span>>)
    requires RefsIn(holders, store) && edited < |store|
    ensures r.None? <==> exists i | 0 <= i < |holders| :: SpanlessHolder(holders[i], filePath)
    ensures r.Some? ==> |r.value| == |store|
    ensures r.Some? ==> forall k | 0 <= k < |store| && !Referenced(holders, k) :: r.value[k] == store[k]
    decreases |holders|
  {
    if holders == [] then Some(store)
    else
      var h := holders[0];
      var rest := holders[1..];
      assert forall i | 1 <= i < |holders| :: holders[i] == rest[i - 1];
      if SpanlessHolder(h, filePath) then None
      else
        var next :=
          if h.task.filePath == filePath && h.task.state == Planned
             && store[h.ref.value].startLine != 0 && store[h.ref.value].startLine >= store[edited].endLine
          then store[h.ref.value := ShiftSpan(store[h.ref.value], d)]
          else store;
        ShiftShared(rest, next, filePath, edited, d)
  }

  /**
   * As written, a span object held by two planned tasks moves once per
   * holder: with blocks at 10-12 (edited, delta +3) and 20-25 (held twice),
   * the shared span ends at 26-31, where each task taken on its own moves
   * to 23-28.
   */
  lemma SharedSpanShiftedTwice()
    ensures
      var t := CodingTask("a.py", None, "update", Planned, None);
      var holders := [Holder(t.(state := Completed), Some(0)), Holder(t, Some(1)), Holder(t, Some(1))];
      var store := [Span(None, 10, 12, []), Span(None, 20, 25, [])];
      && ShiftShared(holders, store, "a.py", 0, 3) == Some([Span(None, 10, 12, []), Span(None, 26, 31, [])])
      && Readdress(DerefAll(holders, store), "a.py", 12, 3).value[1].span == Some(Span(None, 23, 28, []))
      && Readdress(DerefAll(holders, store), "a.py", 12, 3).value[2].span == Some(Span(None, 23, 28, []))
  {
    var t := CodingTask("a.py", None, "update", Planned, None);
    var holders := [Holder(t.(state := Completed), Some(0)), Holder(t, Some(1)), Holder(t, Some(1))];
    var store := [Span(None, 10, 12, []), Span(None, 20, 25, [])];
    var once := [Span(None, 10, 12, []), Span(None, 23, 28, [])];
    var twice := [Span(None, 10, 12, []), Span(None, 26, 31, [])];
    assert holders[1..] == [Holder(t, Some(1)), Holder(t, Some(1))];
    assert holders[1..][1..] == [Holder(t, Some(1))] && [Holder(t, Some(1))][1..] == [];
    assert ShiftSpan(once[1], 3) == twice[1] && once[1 := twice[1]] == twice;
    assert ShiftShared([Holder(t, Some(1))], once, "a.py", 0, 3) == Some(twice);
    assert ShiftSpan(store[1], 3) == once[1] && store[1 := once[1]] == once;
    assert ShiftShared(holders[1..], store, "a.py", 0, 3) == Some(twice);
    assert Shifted(DerefAll(holders, store)[1], "a.py", 12);
    assert Shifted(DerefAll(holders, store)[2], "a.py", 12);
  }

  /**
   * No span object is held by two tasks, and no planned task holds the
   * edited task's object.
   */
  predicate Unshared(holders: seq<Holder>, edited: nat)
  {
    && (forall i, j | 0 <= i < j < |holders| :: holders[i].ref.Some? ==> holders[i].ref != holders[j].ref)
    && (forall i | 0 <= i < |holders| :: holders[i].task.state == Planned ==> holders[i].ref != Some(edited))
  }

  /**
   * Without sharing, the loop on objects is the loop on values: each task
   * is shifted at most once, as `ShiftAll` states.
   */
  lemma {:induction false} UnsharedShiftsOnce(holders: seq<Holder>, store: seq<Span>, filePath: string, edited: nat, d: int)
    requires RefsIn(holders, store) && edited < |store|
    requires Unshared(holders, edited)
    ensures ShiftShared(holders, store, filePath, edited, d).Some? <==>
            ShiftAll(DerefAll(holders, store), filePath, store[edited].endLine, d).Some?
    ensures ShiftShared(holders, store, filePath, edited, d).Some? ==>
              ShiftAll(DerefAll(holders, store), filePath, store[edited].endLine, d).value
                == DerefAll(holders, ShiftShared(holders, store, filePath, edited, d).value)
    decreases |holders|
  {
    SpanlessAgree(holders, store, filePath);
    if holders != [] && ShiftShared(holders, store, filePath, edited, d).Some? {
      var h, rest := holders[0], holders[1..];
      var moves := h.task.filePath == filePath && h.task.state == Planned
                   && store[h.ref.value].startLine != 0 && store[h.ref.value].startLine >= store[edited].endLine;
      var next := if moves then store[h.ref.value := ShiftSpan(store[h.ref.value], d)] else store;
      UnsharedTail(holders, edited);
      OthersKeepView(rest, store, next, h.ref);
      assert ShiftShared(holders, store, filePath, edited, d) == ShiftShared(rest, next, filePath, edited, d);
      UnsharedShiftsOnce(rest, next, filePath, edited, d);
      HeadStep(holders, store, filePath, edited, d, next);
    }
  }

  /** A holder is spanless exactly when the task it stands for is. */
  lemma SpanlessAgree(holders: seq<Holder>, store: seq<Span>, filePath: string)
    requires RefsIn(holders, store)
    ensures (exists i | 0 <= i < |holders| :: SpanlessHolder(holders[i], filePath))
              <==> (exists i | 0 <= i < |holders| :: Spanless(DerefAll(holders, store)[i], filePath))
  {
    var tasks := DerefAll(holders, store);
    forall i | 0 <= i < |holders|
      ensures SpanlessHolder(holders[i], filePath) <==> Spanless(tasks[i], filePath)
    {
    }
  }

  /** The holders after the first are unshared too, and none holds the first one's object. */
  lemma UnsharedTail(holders: seq<Holder>, edited: nat)
    requires |holders| > 0 && Unshared(holders, edited)
    ensures Unshared(holders[1..], edited)
    ensures holders[0].ref.Some? ==> !Referenced(holders[1..], holders[0].ref.value)
  {
    var rest := holders[1..];
    assert forall i | 0 <= i < |rest| :: rest[i] == holders[i + 1];
  }

  /** Changing an object no holder refers to leaves every holder's view alone. */
  lemma OthersKeepView(holders: seq<Holder>, store: seq<Span>, next: seq<Span>, changed: Option<nat>)
    requires RefsIn(holders, store) && |next| == |store|
    requires forall k | 0 <= k < |store| && Some(k) != changed :: next[k] == store[k]
    requires changed.Some? ==> !Referenced(holders, changed.value)
    ensures RefsIn(holders, next)
    ensures DerefAll(holders, next) == DerefAll(holders, store)
  {
    forall i | 0 <= i < |holders| ensures Deref(holders[i], next) == Deref(holders[i], store) {
      assert holders[i].ref.Some? ==> holders[i].ref != changed;
    }
  }

  /** One step of the loop: the first holder's object after the whole loop is the one it shifted. */
  lemma HeadStep(holders: seq<Holder>, store: seq<Span>, filePath: string, edited: nat, d: int, next: seq<Span>)
    requires RefsIn(holders, store) && edited < |store| && |holders| > 0
    requires Unshared(holders, edited)
    requires !SpanlessHolder(holders[0], filePath)
    requires next == (if holders[0].task.filePath == filePath && holders[0].task.state == Planned
                        && store[holders[0].ref.value].startLine != 0
                        && store[holders[0].ref.value].startLine >= store[edited].endLine
                      then store[holders[0].ref.value := ShiftSpan(store[holders[0].ref.value], d)] else store)
    requires RefsIn(holders[1..], next)
    requires DerefAll(holders[1..], next) == DerefAll(holders[1..], store)
    requires ShiftShared(holders[1..], next, filePath, edited, d).Some?
    requires ShiftAll(DerefAll(holders[1..], store), filePath, next[edited].endLine, d).value
               == DerefAll(holders[1..], ShiftShared(holders[1..], next, filePath, edited, d).value)
    ensures ShiftAll(DerefAll(holders, store), filePath, store[edited].endLine, d).value
              == DerefAll(holders, ShiftShared(holders[1..], next, filePath, edited, d).value)
  {
    var h, rest := holders[0], holders[1..];
    var tasks := DerefAll(holders, store);
    var final := ShiftShared(rest, next, filePath, edited, d).value;
    var end := store[edited].endLine;
    UnsharedTail(holders, edited);
    assert next[edited] == store[edited];
    DerefAllCons(holders, store);
    DerefAllCons(holders, final);
    ShiftAllCons(tasks, filePath, end, d);
    assert h.ref.Some? ==> final[h.ref.value] == next[h.ref.value];
    assert Deref(h, final) == if Shifted(tasks[0], filePath, end) then tasks[0].(span := Some(ShiftSpan(tasks[0].span.value, d))) else tasks[0];
  }

  /** `DerefAll` on a non-empty list: the first holder's view, then the rest's. */
  lemma DerefAllCons(holders: seq<Holder>, store: seq<Span>)
    requires RefsIn(holders, store) && |holders| > 0
    ensures RefsIn(holders[1..], store)
    ensures DerefAll(holders, store) == [Deref(holders[0], store)] + DerefAll(holders[1..], store)
  {
    assert forall i | 1 <= i < |holders| :: holders[i] == holders[1..][i - 1];
  }

  /** `ShiftAll` on a non-empty list: the first task, shifted or not, then the rest shifted. */
  lemma ShiftAllCons(tasks: seq<CodingTask>, filePath: string, editedEnd: int, d: int)
    requires |tasks| > 0 && ShiftAll(tasks, filePath, editedEnd, d).Some?
    ensures ShiftAll(tasks[1..], filePath, editedEnd, d).Some?
    ensures ShiftAll(tasks, filePath, editedEnd, d).value
              == [if Shifted(tasks[0], filePath, editedEnd) then tasks[0].(span := Some(ShiftSpan(tasks[0].span.value, d))) else tasks[0]]
                 + ShiftAll(tasks[1..], filePath, editedEnd, d).value
  {
  }

  /**
   * What one completion attempt came to, after `extract_response_parts`,
   * the parser and `write_code` (none of them part of this model): no code
   * in the reply, code that does not parse, a write that failed or changed
   * nothing, or new content with its diff.
   */
  datatype CodeAttempt = NoChanges | SyntaxError | WriteFailed | Written(diff: string)

  /** The attempts that send a correction back and try again. */
  predicate Retried(a: CodeAttempt)
  {
    a.SyntaxError? || a.WriteFailed?
  }

  /**
   * `code()`'s outcome: `False` before any attempt (`Refused`), `False` for
   * a reply without code, the response with the diff, the error response
   * after three attempts, or an `AttributeError` (`Crashed`).
   */
  datatype CodeResult =
    | Refused
    | NoChangesReturned
    | Updated(diff: string, tasks: seq<CodingTask>)
    | GaveUp
    | Crashed

  /**
   * Lines 404-483 once a change is written: the task is completed and the
   * other planned tasks are re-addressed by the diff's line delta. A task
   * without a span raises at line 446, a spanless planned task in the same
   * file at line 465.
   */
  function Finish(tasks: seq<CodingTask>, t: nat, diff: string, counting: Counting): (r: CodeResult)
    requires t < |tasks|
    ensures r.Updated? || r.Crashed?
    ensures r.Crashed? <==>
              tasks[t].span.None?
              || Readdress(tasks[t := tasks[t].(state := Completed)], tasks[t].filePath,
                           tasks[t].span.value.endLine, LineDelta(diff, counting)).None?
    ensures r.Updated? ==>
              && r.diff == diff
              && |r.tasks| == |tasks|
              && r.tasks[t] == tasks[t].(state := Completed)
              && Readdress(tasks[t := tasks[t].(state := Completed)], tasks[t].filePath,
                           tasks[t].span.value.endLine, LineDelta(diff, counting)) == Some(r.tasks)
  {
    var task := tasks[t];
    if task.span.None? then Crashed
    else
      var done := tasks[t := task.(state := Completed)];
      match Readdress(done, task.filePath, task.span.value.endLine, LineDelta(diff, counting))
      case None => Crashed
      case Some(moved) =>
        assert !Shifted(done[t], task.filePath, task.span.value.endLine);
        Updated(diff, moved)
  }

  /**
   * Lines 273-517 for the task at index `t` of the plan: refuse early when
   * the file has no tree or the expected block is not found, then make at
   * most three attempts, `attempt(a)` being the outcome of attempt `a`.
   */
  method Code(trees: map<string, CodeBlock>, byPath: PathFinder, bySpan: SpanFinder, tasks: seq<CodingTask>, t: nat,
              counting: Counting, attempt: nat -> CodeAttempt)
    returns (result: CodeResult, attempts: nat)
    requires t < |tasks|
    ensures result.Refused? <==>
              tasks[t].filePath !in trees
              || ExpectedBlock(trees[tasks[t].filePath], tasks[t].span, byPath, bySpan).Unresolved?
    ensures result.Refused? ==> attempts == 0
    ensures !result.Refused? ==> 1 <= attempts <= 3 && forall a | 0 <= a < attempts - 1 :: Retried(attempt(a))
    ensures result.NoChangesReturned? <==> !result.Refused? && attempt(attempts - 1).NoChanges?
    ensures result.GaveUp? <==> !result.Refused? && Retried(attempt(attempts - 1))
    ensures result.GaveUp? ==> attempts == 3
    ensures result.Updated? || result.Crashed? <==> !result.Refused? && attempt(attempts - 1).Written?
    ensures result.Updated? || result.Crashed? ==> result == Finish(tasks, t, attempt(attempts - 1).diff, counting)
  {
    var task := tasks[t];
    if task.filePath !in trees || ExpectedBlock(trees[task.filePath], task.span, byPath, bySpan).Unresolved? {
      return Refused, 0;
    }
    attempts := 0;
    while attempts < 3
      invariant 0 <= attempts <= 3
      invariant forall a | 0 <= a < attempts :: Retried(attempt(a))
    {
      var outcome := attempt(attempts);
      attempts := attempts + 1;
      match outcome {
        case NoChanges =>
          return NoChangesReturned, attempts;
        case Written(diff) =>
          return Finish(tasks, t, diff, counting), attempts;
        case _ =>
      }
    }
    result := GaveUp;
  }
}
