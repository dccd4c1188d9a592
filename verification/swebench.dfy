/**
 * The pure helpers of the benchmark code (benchmark/swebench.py): the
 * instance-id sort key and the order it gives `get_instances`, the file and
 * index names, the first-match lookup of `get_instance`, the running
 * context length shown next to retrieved snippets, and the closed-interval
 * overlap test behind their highlighting. Dataset download, caching and the
 * notebook display are not modelled.
 */
module Swebench {
  import opened Optional
  import opened Strings

  /** A dataset row: the two fields these helpers read. */
  datatype Row = Row(instanceId: string, repo: string)

  // ---------------------------------------------------------------------
  // Sort key and order (lines 32-34, 93-100)
  // ---------------------------------------------------------------------

  /** `sort_key`'s result: the id up to its last `-`, and the integer after it. */
  datatype Key = Key(text: string, number: int)

  /**
   * `sort_key` on an instance id; `None` where it raises: unpacking
   * `rsplit("-", 1)` fails without a `-`, and `int()` fails on a suffix that
   * is not a decimal literal.
   */
  function SortKey(instanceId: string): (r: Option<Key>)
    ensures '-' !in instanceId ==> r.None?
    ensures r.Some? ==> exists i | 0 <= i < |instanceId| ::
              && instanceId[i] == '-' && '-' !in instanceId[i + 1..]
              && r.value.text == instanceId[..i]
              && ParseInt(instanceId[i + 1..]) == Some(r.value.number)
  {
    match LastIndexOf(instanceId, '-')
    case None => None
    case Some(i) =>
      match ParseInt(instanceId[i + 1..])
      case Some(n) => Some(Key(instanceId[..i], n))
      case None => None
  }

  /** For an id with a dash, the key is decided by the part after the last dash. */
  lemma SortKeyOfParts(text: string, suffix: string)
    requires '-' !in suffix
    ensures SortKey(text + "-" + suffix)
              == if ParseInt(suffix).Some? then Some(Key(text, ParseInt(suffix).value)) else None
  {
    var id := text + "-" + suffix;
    LastIndexOfSplit(text, '-', suffix);
    assert id[|text| + 1..] == suffix && id[..|text|] == text;
  }

  /** Round trip: the key of `<text>-<n>` is `(text, n)`. */
  lemma SortKeyOfNumberedId(text: string, n: nat)
    ensures SortKey(text + "-" + ShowNat(n)) == Some(Key(text, n))
  {
    ParseShowNat(n);
    var digits := ShowNat(n);
    assert forall x | 0 <= x < |digits| :: digits[x] != '-';
    SortKeyOfParts(text, digits);
  }

  /** Python's `<` on `(str, int)` tuples. */
  predicate KeyLess(a: Key, b: Key)
  {
    LexLess(a.text, b.text) || (a.text == b.text && a.number < b.number)
  }

  lemma KeyLessIrreflexive(a: Key)
    ensures !KeyLess(a, a)
  {
    LexLessIrreflexive(a.text);
  }

  lemma KeyLessTransitive(a: Key, b: Key, c: Key)
    requires KeyLess(a, b) && KeyLess(b, c)
    ensures KeyLess(a, c)
  {
    if LexLess(a.text, b.text) && LexLess(b.text, c.text) {
      LexLessTransitive(a.text, b.text, c.text);
    }
  }

  /** Two keys are ordered one way or the other, or equal. */
  lemma KeyLessTotal(a: Key, b: Key)
    ensures KeyLess(a, b) || KeyLess(b, a) || a == b
  {
    if a.text != b.text {
      LexLessTotal(a.text, b.text);
    }
  }

  lemma KeyLessAsymmetric(a: Key, b: Key)
    requires KeyLess(a, b)
    ensures !KeyLess(b, a)
  {
    if KeyLess(b, a) {
      KeyLessTransitive(a, b, a);
      KeyLessIrreflexive(a);
    }
  }

  /** As strings, `x-10` sorts before `x-9`. */
  lemma TenBeforeNineAsText()
    ensures LexLess("x-10", "x-9")
  {
    var a, b := "x-10", "x-9";
    assert a[0] == b[0] && a[1] == b[1];
    assert LexLess(a[2..], b[2..]);
  }

  /**
   * Why the key parses the number: the keys put instance 9 before
   * instance 10, which string order would not.
   */
  lemma NumericNotLexical()
    ensures SortKey("x-9") == Some(Key("x", 9)) && SortKey("x-10") == Some(Key("x", 10))
    ensures KeyLess(Key("x", 9), Key("x", 10)) && LexLess("x-10", "x-9")
  {
    KeyOfNine();
    KeyOfTen();
    TenBeforeNineAsText();
  }

  lemma KeyOfNine()
    ensures SortKey("x-9") == Some(Key("x", 9))
  {
    var nine := "9";
    assert ParseInt(nine) == Some(9) by {
      assert AllDigits(nine) && nine[..0] == [];
    }
    SortKeyOfParts("x", nine);
    assert "x" + "-" + nine == "x-9";
  }

  lemma KeyOfTen()
    ensures SortKey("x-10") == Some(Key("x", 10))
  {
    var ten := "10";
    assert ParseInt(ten) == Some(10) by {
      assert AllDigits(ten);
      assert ten[..1] == "1" && "1"[..0] == [];
    }
    SortKeyOfParts("x", ten);
    assert "x" + "-" + ten == "x-10";
  }

  /** A row whose id has a key; `sort_key` raises on any other. */
  predicate Keyed(r: Row)
  {
    SortKey(r.instanceId).Some?
  }

  /** The row's key, or a placeholder for rows `SortRows` rejects anyway. */
  function KeyOf(r: Row): Key
  {
    SortKey(r.instanceId).GetOr(Key("", 0))
  }

  /** No row is placed after a row with a smaller key under `key`. */
  predicate OrderedBy(rows: seq<Row>, key: Row -> Key)
  {
    forall i, j :: 0 <= i < j < |rows| ==> !KeyLess(key(rows[j]), key(rows[i]))
  }

  /** Places `x` before the first row whose key is not below its own. */
  function Insert(x: Row, rows: seq<Row>, key: Row -> Key): (r: seq<Row>)
    ensures multiset(r) == multiset(rows) + multiset{x}
  {
    if rows == [] || !KeyLess(key(rows[0]), key(x)) then [x] + rows
    else
      assert rows == [rows[0]] + rows[1..];
      [rows[0]] + Insert(x, rows[1..], key)
  }

  lemma {:induction false} InsertOrdered(x: Row, rows: seq<Row>, key: Row -> Key)
    requires OrderedBy(rows, key)
    ensures OrderedBy(Insert(x, rows, key), key)
  {
    var r := Insert(x, rows, key);
    if rows == [] || !KeyLess(key(rows[0]), key(x)) {
      forall j | 0 < j < |r| ensures !KeyLess(key(r[j]), key(x)) {
        if j > 1 {
          NotBelowChain(key(x), key(rows[0]), key(rows[j - 1]));
        }
      }
    } else {
      InsertOrdered(x, rows[1..], key);
      var tail := Insert(x, rows[1..], key);
      assert r == [rows[0]] + tail;
      forall j | 0 < j < |r| ensures !KeyLess(key(r[j]), key(rows[0])) {
        assert r[j] in multiset(tail);
        if r[j] == x {
          KeyLessAsymmetric(key(rows[0]), key(x));
        } else {
          assert r[j] in multiset(rows[1..]);
          var k :| 0 <= k < |rows[1..]| && rows[1..][k] == r[j];
          assert rows[k + 1] == r[j];
        }
      }
    }
  }

  /** `!(b < a)` and `!(c < b)` give `!(c < a)`. */
  lemma NotBelowChain(a: Key, b: Key, c: Key)
    requires !KeyLess(b, a) && !KeyLess(c, b)
    ensures !KeyLess(c, a)
  {
    KeyLessTotal(a, b);
    KeyLessTotal(b, c);
    if KeyLess(a, b) && KeyLess(b, c) {
      KeyLessTransitive(a, b, c);
      KeyLessAsymmetric(a, c);
    } else if KeyLess(a, b) {
      KeyLessAsymmetric(a, b);
    } else if KeyLess(b, c) {
      KeyLessAsymmetric(b, c);
    }
  }

  /** Stable insertion sort of `rows` by `key`. */
  function SortBy(rows: seq<Row>, key: Row -> Key): (r: seq<Row>)
    ensures OrderedBy(r, key)
    ensures multiset(r) == multiset(rows)
  {
    if rows == [] then []
    else
      var rest := SortBy(rows[1..], key);
      InsertOrdered(rows[0], rest, key);
      assert rows == [rows[0]] + rows[1..];
      Insert(rows[0], rest, key)
  }

  /** Every row has a key, and no row's key is below an earlier row's. */
  predicate InKeyOrder(rows: seq<Row>)
  {
    forall i, j :: 0 <= i < j < |rows| ==>
      && SortKey(rows[i].instanceId).Some? && SortKey(rows[j].instanceId).Some?
      && !KeyLess(SortKey(rows[j].instanceId).value, SortKey(rows[i].instanceId).value)
  }

  /**
   * `get_instances`: `dataset.sort(key=sort_key)`. `None` where computing
   * some row's key raises; otherwise the same rows in key order.
   */
  function SortRows(rows: seq<Row>): (r: Option<seq<Row>>)
    ensures r.Some? ==> multiset(r.value) == multiset(rows)
    ensures r.Some? ==> InKeyOrder(r.value)
    ensures (forall i :: 0 <= i < |rows| ==> SortKey(rows[i].instanceId).Some?) ==> r.Some?
    ensures r.Some? ==> forall i :: 0 <= i < |rows| ==> SortKey(rows[i].instanceId).Some?
  {
    if forall i :: 0 <= i < |rows| ==> Keyed(rows[i]) then
      var r := SortBy(rows, KeyOf);
      assert forall i :: 0 <= i < |r| ==> r[i] in multiset(rows);
      Some(r)
    else None
  }

  /**
   * In rows in key order, such as sorted ones, ids with the same text come
   * by number: with `NumericNotLexical`, `x-9` precedes `x-10`.
   */
  lemma NumberOrdersSameText(rows: seq<Row>, i: nat, j: nat, text: string, m: int, n: int)
    requires InKeyOrder(rows)
    requires i < |rows| && j < |rows|
    requires SortKey(rows[i].instanceId) == Some(Key(text, m))
    requires SortKey(rows[j].instanceId) == Some(Key(text, n))
    requires m < n
    ensures i < j
  {
    // The order rules out `j < i`; one row cannot have two numbers.
    if i == j {
      assert false;
    }
  }

  // ---------------------------------------------------------------------
  // File and index names (lines 37-38, 103-104)
  // ---------------------------------------------------------------------

  /** `get_filename`: the dataset name with `/` turned into `-`, a `-`, then the split. */
  function GetFilename(split: string, datasetName: string): (r: string)
    ensures |r| == |datasetName| + 1 + |split|
    ensures forall i :: 0 <= i < |datasetName| ==>
              r[i] == (if datasetName[i] == '/' then '-' else datasetName[i])
    ensures r[|datasetName|] == '-' && r[|datasetName| + 1..] == split
    ensures '/' !in split ==> '/' !in r
  {
    var name := ReplaceChar(datasetName, '/', '-');
    ReplaceCharRemoves(datasetName, '/', '-');
    name + "-" + split
  }

  /** A split without `-` is what follows the last `-` of the file name. */
  lemma FilenameSplitRecoverable(split: string, datasetName: string)
    requires '-' !in split
    ensures LastIndexOf(GetFilename(split, datasetName), '-') == Some(|datasetName|)
  {
    var name := ReplaceChar(datasetName, '/', '-');
    LastIndexOfSplit(name, '-', split);
    assert GetFilename(split, datasetName) == name + ['-'] + split;
  }

  /** The file name forgets which dashes were slashes: `a/b` and `a-b` share one name. */
  lemma FilenameCollision()
    ensures GetFilename("dev", "a/b") == GetFilename("dev", "a-b") == "a-b-dev"
  {
  }

  /** `get_index_name`: the repo with `/` turned into `_`, then `__`, then the instance id. */
  function GetIndexName(row: Row): (r: string)
    ensures |r| == |row.repo| + 2 + |row.instanceId|
    ensures forall i :: 0 <= i < |row.repo| ==>
              r[i] == (if row.repo[i] == '/' then '_' else row.repo[i])
    ensures r[|row.repo|..|row.repo| + 2] == "__"
    ensures r[|row.repo| + 2..] == row.instanceId
    ensures '/' !in row.instanceId ==> '/' !in r
  {
    var repo := ReplaceChar(row.repo, '/', '_');
    ReplaceCharRemoves(row.repo, '/', '_');
    repo + "__" + row.instanceId
  }

  /** Within one repo, distinct instances get distinct index names. */
  lemma IndexNameDistinct(a: Row, b: Row)
    requires a.repo == b.repo && a.instanceId != b.instanceId
    ensures GetIndexName(a) != GetIndexName(b)
  {
    var n := |a.repo| + 2;
    assert GetIndexName(a)[n..] == a.instanceId;
    assert GetIndexName(b)[n..] == b.instanceId;
  }

  // ---------------------------------------------------------------------
  // Instance lookup (lines 84-87)
  // ---------------------------------------------------------------------

  /** `get_instance`: the first row with the id; Python's implicit `None` when none has it. */
  function GetInstance(rows: seq<Row>, id: string): (r: Option<Row>)
    ensures r.None? <==> forall i :: 0 <= i < |rows| ==> rows[i].instanceId != id
    ensures r.Some? ==> exists i :: (0 <= i < |rows| && rows[i] == r.value
              && r.value.instanceId == id
              && forall k :: 0 <= k < i ==> rows[k].instanceId != id)
  {
    if rows == [] then None
    else if rows[0].instanceId == id then Some(rows[0])
    else
      var r := GetInstance(rows[1..], id);
      assert forall i :: 0 < i < |rows| ==> rows[i] == rows[1..][i - 1];
      r
  }

  /** Looking up in a concatenation: the front part wins. */
  lemma {:induction false} GetInstanceAppend(a: seq<Row>, b: seq<Row>, id: string)
    ensures GetInstance(a + b, id)
              == if GetInstance(a, id).Some? then GetInstance(a, id) else GetInstance(b, id)
  {
    if a == [] {
      assert a + b == b;
    } else {
      assert (a + b)[1..] == a[1..] + b;
      GetInstanceAppend(a[1..], b, id);
    }
  }

  // ---------------------------------------------------------------------
  // Running context length (lines 161-171)
  // ---------------------------------------------------------------------

  /** `snippet.tokens or 0`: a missing count adds nothing. */
  function TokenCount(tokens: Option<int>): int
  {
    tokens.GetOr(0)
  }

  /** Total token count of a list of snippets. */
  function Total(tokens: seq<Option<int>>): int
  {
    if tokens == [] then 0 else Total(tokens[..|tokens| - 1]) + TokenCount(tokens[|tokens| - 1])
  }

  predicate NoNegativeCounts(tokens: seq<Option<int>>)
  {
    forall i :: 0 <= i < |tokens| ==> TokenCount(tokens[i]) >= 0
  }

  /**
   * The "Context length" column: entry `i` is the total of snippets `0..i`,
   * so each entry is the one before plus the snippet's own count; with no
   * negative count the column never decreases.
   */
  method ContextLengths(tokens: seq<Option<int>>) returns (column: seq<int>)
    ensures |column| == |tokens|
    ensures |tokens| > 0 ==> column[0] == TokenCount(tokens[0])
    ensures forall i :: 0 < i < |column| ==> column[i] == column[i - 1] + TokenCount(tokens[i])
    ensures forall i :: 0 <= i < |column| ==> column[i] == Total(tokens[..i + 1])
    ensures NoNegativeCounts(tokens) ==>
              forall i, j :: 0 <= i <= j < |column| ==> column[i] <= column[j]
  {
    var contextLength := 0;
    column := [];
    for n := 0 to |tokens|
      invariant |column| == n
      invariant contextLength == Total(tokens[..n])
      invariant forall i :: 0 <= i < n ==> column[i] == Total(tokens[..i + 1])
    {
      assert tokens[..n + 1][..n] == tokens[..n];
      contextLength := contextLength + TokenCount(tokens[n]);
      column := column + [contextLength];
    }
    forall i | 0 < i < |column|
      ensures column[i] == column[i - 1] + TokenCount(tokens[i])
    {
      TotalStep(tokens, i);
    }
    if |column| > 0 {
      TotalStep(tokens, 0);
    }
    if NoNegativeCounts(tokens) {
      forall i, j | 0 <= i <= j < |column|
        ensures column[i] <= column[j]
      {
        TotalMonotone(tokens, i + 1, j + 1);
      }
    }
  }

  /** The total of a prefix one longer adds the next snippet's count. */
  lemma TotalStep(tokens: seq<Option<int>>, i: nat)
    requires i < |tokens|
    ensures Total(tokens[..i + 1]) == Total(tokens[..i]) + TokenCount(tokens[i])
  {
    assert tokens[..i + 1][..i] == tokens[..i];
  }

  /** With no negative count, a longer prefix never has a smaller total. */
  lemma {:induction false} TotalMonotone(tokens: seq<Option<int>>, i: nat, j: nat)
    requires i <= j <= |tokens|
    requires NoNegativeCounts(tokens)
    ensures Total(tokens[..i]) <= Total(tokens[..j])
    decreases j
  {
    if i < j {
      TotalMonotone(tokens, i, j - 1);
      TotalStep(tokens, j - 1);
    }
  }

  // ---------------------------------------------------------------------
  // Highlighting (lines 225-247)
  // ---------------------------------------------------------------------

  /** One hunk of the expected patch, in old-file line numbers. */
  datatype PatchDiff = PatchDiff(startLineOld: int, endLineOld: int)

  /** The test at lines 235-238: `start <= end_line_old and end >= start_line_old`. */
  predicate Overlaps(start: int, end: int, d: PatchDiff)
  {
    start <= d.endLineOld && end >= d.startLineOld
  }

  predicate InRange(line: int, lo: int, hi: int)
  {
    lo <= line <= hi
  }

  /** For well-formed ranges the test is closed-interval intersection. */
  lemma OverlapsMeansSharedLine(start: int, end: int, d: PatchDiff)
    requires start <= end && d.startLineOld <= d.endLineOld
    ensures Overlaps(start, end, d) <==>
              exists line :: InRange(line, start, end) && InRange(line, d.startLineOld, d.endLineOld)
  {
    if Overlaps(start, end, d) {
      var line := if start < d.startLineOld then d.startLineOld else start;
      assert InRange(line, start, end) && InRange(line, d.startLineOld, d.endLineOld);
    }
  }

  /** The loop at lines 234-240: does any diff of the file overlap the snippet? */
  method DiffCovered(start: int, end: int, fileDiffs: seq<PatchDiff>) returns (covered: bool)
    ensures covered <==> exists i :: 0 <= i < |fileDiffs| && Overlaps(start, end, fileDiffs[i])
  {
    covered := false;
    for i := 0 to |fileDiffs|
      invariant !covered
      invariant forall k :: 0 <= k < i ==> !Overlaps(start, end, fileDiffs[k])
    {
      if Overlaps(start, end, fileDiffs[i]) {
        covered := true;
        return;
      }
    }
  }

  /** The row colour: dark green when a diff is covered, light green on a file match. */
  datatype Style = Covered | FileMatched | Plain

  /** A retrieved snippet row of the table. */
  datatype Snippet = Snippet(file: string, startLine: int, endLine: int)

  /**
   * `apply_highlighting`. The guard `if match_diff:` tests a function object
   * and always holds, so the diff lookup always runs; a file missing from the
   * details has no diffs.
   */
  method Highlight(row: Snippet, patchFiles: seq<string>, details: map<string, seq<PatchDiff>>)
    returns (style: Style)
    ensures style == Covered <==>
              row.file in details && exists i :: (0 <= i < |details[row.file]|
                && Overlaps(row.startLine, row.endLine, details[row.file][i]))
    ensures style == FileMatched <==> style != Covered && row.file in patchFiles
    ensures style == Plain <==> style != Covered && row.file !in patchFiles
  {
    var fileMatch := row.file in patchFiles;
    var fileDiffs := if row.file in details then details[row.file] else [];
    var diffCovered := DiffCovered(row.startLine, row.endLine, fileDiffs);
    if diffCovered {
      style := Covered;
    } else if fileMatch {
      style := FileMatched;
    } else {
      style := Plain;
    }
  }
}
