/**
 * read_collection_logs and the report table of save_to_csv. The filesystem is
 * given as data: each collection folder is its path and the lines of each of
 * its `.log` files, in the order the listing returns them.
 */
module PlexReport {
  import opened Outcomes
  import opened PyText
  import opened PosixPath
  import opened LogScan
  import opened SeqLemmas

  /** The lines of one `.log` file, as `readlines()` returns them. */
  type LogFile = seq<string>

  datatype Folder = Folder(path: string, logs: seq<LogFile>)

  /** One report row: `(collection_name, processed_count, missing_count)`. */
  datatype Row = Row(collection: string, processed: int, missing: int)

  /** All lines of a folder's log files, file after file. */
  function FolderLines(logs: seq<LogFile>): seq<string>
    decreases |logs|
  {
    if logs == [] then [] else FolderLines(logs[..|logs| - 1]) + logs[|logs| - 1]
  }

  /** The two counters after a folder's files: one scan over all their lines. */
  function FolderTotals(logs: seq<LogFile>): Result<Totals, ScanError> {
    ScanLines(FolderLines(logs))
  }

  predicate IsSelected(folder: Folder, selected: seq<string>) {
    CollectionName(folder.path) in selected
  }

  /** The row a selected folder contributes once its scan succeeds. */
  function RowOf(folder: Folder): Row
    requires FolderTotals(folder.logs).Ok?
  {
    var t := FolderTotals(folder.logs).value;
    Row(CollectionName(folder.path), t.processed, t.missing)
  }

  /** The whole routine: one row per selected folder, in folder order; the first bad marker line aborts it. */
  function ReadLogs(folders: seq<Folder>, selected: seq<string>): Result<seq<Row>, ScanError>
    decreases |folders|
  {
    if folders == [] then Ok([])
    else
      var folder := folders[|folders| - 1];
      match ReadLogs(folders[..|folders| - 1], selected)
      case Err(e) => Err(e)
      case Ok(rows) =>
        if !IsSelected(folder, selected) then Ok(rows)
        else match FolderTotals(folder.logs)
          case Err(e) => Err(e)
          case Ok(_) => Ok(rows + [RowOf(folder)])
  }

  /** read_collection_logs(collection_folders, selected_collections). */
  method ReadCollectionLogs(folders: seq<Folder>, selected: seq<string>)
    returns (r: Result<seq<Row>, ScanError>)
    ensures r == ReadLogs(folders, selected)
  {
    var data: seq<Row> := [];
    for i := 0 to |folders|
      invariant ReadLogs(folders[..i], selected).Ok?
      invariant ReadLogs(folders[..i], selected).value == data
    {
      var folder := folders[i];
      ReadLogsStep(folders, i, selected);
      var name := CollectionName(folder.path);
      if name in selected {
        var totals := CountFolder(folder.logs);
        if totals.Err? {
          ReadLogsFolderFails(folders, i, selected);
          return Err(totals.error);
        }
        data := data + [Row(name, totals.value.processed, totals.value.missing)];
      }
    }
    assert folders[..|folders|] == folders;
    return Ok(data);
  }

  /** The loop over one selected folder's log files and their lines, from zero counts. */
  method CountFolder(logs: seq<LogFile>) returns (r: Result<Totals, ScanError>)
    ensures r == FolderTotals(logs)
  {
    var processed, missing := 0, 0;
    for f := 0 to |logs|
      invariant ScanLines(FolderLines(logs[..f])).Ok?
      invariant ScanLines(FolderLines(logs[..f])).value == Totals(processed, missing)
    {
      var lines := logs[f];
      ghost var done := FolderLines(logs[..f]);
      assert done + lines[..0] == done;
      for j := 0 to |lines|
        invariant ScanLines(done + lines[..j]).Ok?
        invariant ScanLines(done + lines[..j]).value == Totals(processed, missing)
      {
        var line := lines[j];
        ScanLinesSnoc(done + lines[..j], line);
        ExtendPrefix(done, lines, j);
        var c := CountLine(line);
        if c.Err? {
          AbortInFile(logs, f, j);
          return Err(c.error);
        }
        match c.value
        case ProcessedLine(n) => processed := processed + n;
        case MissingLine(n) => missing := missing + n;
        case NoMarker =>
      }
      FolderLinesStep(logs, f);
      assert lines[..|lines|] == lines;
    }
    assert logs[..|logs|] == logs;
    return Ok(Totals(processed, missing));
  }

  /** The body of the line loop: the `if ... elif ...` on the two markers. */
  method CountLine(line: string) returns (c: Result<LineCount, ScanError>)
    ensures c == ClassifyLine(line)
  {
    if Contains(line, ProcessedMarker) {
      var count := CountBefore(line, ProcessedMarker);
      if count.Err? {
        return Err(count.error);
      }
      return Ok(ProcessedLine(count.value));
    } else if Contains(line, MissingMarker) {
      var count := CountBefore(line, MissingMarker);
      if count.Err? {
        return Err(count.error);
      }
      return Ok(MissingLine(count.value));
    }
    return Ok(NoMarker);
  }

  // ----- Steps of the three loops -----

  lemma ReadLogsStep(folders: seq<Folder>, i: nat, selected: seq<string>)
    requires i < |folders| && ReadLogs(folders[..i], selected).Ok?
    ensures !IsSelected(folders[i], selected) ==>
      ReadLogs(folders[..i + 1], selected) == ReadLogs(folders[..i], selected)
    ensures IsSelected(folders[i], selected) && FolderTotals(folders[i].logs).Ok? ==>
      ReadLogs(folders[..i + 1], selected) == Ok(ReadLogs(folders[..i], selected).value + [RowOf(folders[i])])
  {
    PrefixSnoc(folders, i);
  }

  lemma FolderLinesStep(logs: seq<LogFile>, f: nat)
    requires f < |logs|
    ensures FolderLines(logs[..f + 1]) == FolderLines(logs[..f]) + logs[f]
  {
    PrefixSnoc(logs, f);
  }

  // ----- Lemmas the method's early return rests on -----

  lemma {:induction false} FolderLinesAppend(a: seq<LogFile>, b: seq<LogFile>)
    ensures FolderLines(a + b) == FolderLines(a) + FolderLines(b)
    decreases |b|
  {
    if b == [] {
      AppendEmpty(a);
      AppendEmpty(FolderLines(a));
    } else {
      FolderLinesAppend(a, b[..|b| - 1]);
      DropLastAppend(a, b);
      AppendAssoc(FolderLines(a), FolderLines(b[..|b| - 1]), b[|b| - 1]);
    }
  }

  /** Once the folders before the last one fail, the routine fails with the same error. */
  lemma {:induction false} ReadLogsAbort(a: seq<Folder>, b: seq<Folder>, selected: seq<string>)
    requires ReadLogs(a, selected).Err?
    ensures ReadLogs(a + b, selected) == ReadLogs(a, selected)
    decreases |b|
  {
    if b == [] {
      AppendEmpty(a);
    } else {
      ReadLogsAbort(a, b[..|b| - 1], selected);
      DropLastAppend(a, b);
    }
  }

  /** A folder whose scan fails makes every longer run of folders fail the same way. */
  lemma ReadLogsFolderFails(folders: seq<Folder>, i: nat, selected: seq<string>)
    requires i < |folders| && IsSelected(folders[i], selected)
    requires ReadLogs(folders[..i], selected).Ok?
    requires FolderTotals(folders[i].logs).Err?
    ensures ReadLogs(folders, selected) == Err(FolderTotals(folders[i].logs).error)
  {
    var upto := folders[..i + 1];
    PrefixSnoc(folders, i);
    assert ReadLogs(upto, selected).Err?;
    ReadLogsAbort(upto, folders[i + 1..], selected);
    TakeDrop(folders, i + 1);
  }

  lemma FolderLinesSingle(lines: LogFile)
    ensures FolderLines([lines]) == lines
  {
    assert [lines][..0] == [];
  }

  /** The lines of a folder are those of the files before `f`, then file `f`, then the rest. */
  lemma FolderLinesAt(logs: seq<LogFile>, f: nat)
    requires f < |logs|
    ensures FolderLines(logs) == FolderLines(logs[..f]) + (logs[f] + FolderLines(logs[f + 1..]))
  {
    var head, tail := logs[..f], logs[f + 1..];
    SplitAt(logs, f);
    FolderLinesAppend(head, [logs[f]] + tail);
    FolderLinesAppend([logs[f]], tail);
    FolderLinesSingle(logs[f]);
  }

  /** A failing line `j` of file `f` makes the scan of the whole folder fail with its error. */
  lemma AbortInFile(logs: seq<LogFile>, f: nat, j: nat)
    requires f < |logs| && j < |logs[f]|
    requires ScanLines(FolderLines(logs[..f]) + logs[f][..j]).Ok?
    requires ClassifyLine(logs[f][j]).Err?
    ensures FolderTotals(logs) == Err(ClassifyLine(logs[f][j]).error)
  {
    var lines := logs[f];
    var before := FolderLines(logs[..f]);
    var rest := FolderLines(logs[f + 1..]);
    FolderLinesAt(logs, f);
    Regroup(before, lines, rest, j);
    ScanLinesFailsAt(before + lines[..j], lines[j], lines[j + 1..] + rest);
  }

  // ----- Which folders give rows, and in what order -----

  /** The positions of the selected folders, in folder order. */
  function SelectedIndices(folders: seq<Folder>, selected: seq<string>): (idx: seq<nat>)
    ensures forall k :: 0 <= k < |idx| ==> idx[k] < |folders|
    decreases |folders|
  {
    if folders == [] then []
    else
      var before := SelectedIndices(folders[..|folders| - 1], selected);
      if IsSelected(folders[|folders| - 1], selected) then before + [|folders| - 1] else before
  }

  /** The selected positions are increasing, so each folder gives at most one row and their order is kept. */
  lemma {:induction false} SelectedIndicesOrdered(folders: seq<Folder>, selected: seq<string>)
    ensures |SelectedIndices(folders, selected)| <= |folders|
    ensures forall k, l :: 0 <= k < l < |SelectedIndices(folders, selected)| ==>
      SelectedIndices(folders, selected)[k] < SelectedIndices(folders, selected)[l]
    decreases |folders|
  {
    if folders != [] {
      SelectedIndicesOrdered(folders[..|folders| - 1], selected);
    }
  }

  /** The selected positions are exactly those of the folders whose name is selected. */
  lemma {:induction false} SelectedIndicesExact(folders: seq<Folder>, selected: seq<string>)
    ensures forall i :: i in SelectedIndices(folders, selected) <==>
      0 <= i < |folders| && IsSelected(folders[i], selected)
    decreases |folders|
  {
    if folders != [] {
      var n := |folders|;
      var init := folders[..n - 1];
      SelectedIndicesExact(init, selected);
      forall i | 0 <= i < n - 1 ensures folders[i] == init[i] {
      }
    }
  }

  /** The routine succeeds exactly when every selected folder's scan succeeds. */
  lemma {:induction false} ReadLogsOkIff(folders: seq<Folder>, selected: seq<string>)
    ensures ReadLogs(folders, selected).Ok? <==>
      forall i :: 0 <= i < |folders| && IsSelected(folders[i], selected) ==> FolderTotals(folders[i].logs).Ok?
    decreases |folders|
  {
    if folders != [] {
      var n := |folders|;
      var init := folders[..n - 1];
      ReadLogsOkIff(init, selected);
      forall i | 0 <= i < n - 1 ensures folders[i] == init[i] {
      }
      if ReadLogs(init, selected).Err? {
        var i :| 0 <= i < n - 1 && IsSelected(init[i], selected) && FolderTotals(init[i].logs).Err?;
        assert IsSelected(folders[i], selected) && FolderTotals(folders[i].logs).Err?;
      }
    }
  }

  /** When the routine succeeds, row `k` is the name and the totals of the `k`-th selected folder. */
  lemma {:induction false} ReadLogsRows(folders: seq<Folder>, selected: seq<string>)
    requires ReadLogs(folders, selected).Ok?
    ensures |ReadLogs(folders, selected).value| == |SelectedIndices(folders, selected)|
    ensures forall k :: 0 <= k < |SelectedIndices(folders, selected)| ==>
      var folder := folders[SelectedIndices(folders, selected)[k]];
      var row := ReadLogs(folders, selected).value[k];
      row.collection == CollectionName(folder.path) &&
      FolderTotals(folder.logs) == Ok(Totals(row.processed, row.missing))
    decreases |folders|
  {
    if folders != [] {
      var n := |folders|;
      var init := folders[..n - 1];
      ReadLogsRows(init, selected);
      var rows, idx := ReadLogs(init, selected).value, SelectedIndices(init, selected);
      forall k | 0 <= k < |idx| ensures folders[idx[k]] == init[idx[k]] {
      }
    }
  }

  /** A failed routine reports the error of the first selected folder whose scan fails. */
  lemma {:induction false} ReadLogsFirstError(folders: seq<Folder>, selected: seq<string>)
    requires ReadLogs(folders, selected).Err?
    ensures exists i :: (0 <= i < |folders| && IsSelected(folders[i], selected) &&
      ReadLogs(folders[..i], selected).Ok? &&
      FolderTotals(folders[i].logs) == Err(ReadLogs(folders, selected).error))
    decreases |folders|
  {
    var n := |folders|;
    var init, last := folders[..n - 1], folders[n - 1];
    if ReadLogs(init, selected).Err? {
      ReadLogsFirstError(init, selected);
      var i :| 0 <= i < |init| && IsSelected(init[i], selected) && ReadLogs(init[..i], selected).Ok? &&
        FolderTotals(init[i].logs) == Err(ReadLogs(init, selected).error);
      PrefixOfPrefix(folders, i, n - 1);
      ReadLogsAbort(init, folders[n - 1..], selected);
      TakeDrop(folders, n - 1);
      assert folders[i] == init[i];
    } else {
      assert IsSelected(folders[n - 1], selected) && ReadLogs(folders[..n - 1], selected).Ok? &&
        FolderTotals(folders[n - 1].logs) == Err(ReadLogs(folders, selected).error);
    }
  }

  /** At most one row per folder, each named after a selected collection. */
  lemma RowsAreSelected(folders: seq<Folder>, selected: seq<string>)
    requires ReadLogs(folders, selected).Ok?
    ensures |ReadLogs(folders, selected).value| <= |folders|
    ensures forall row :: row in ReadLogs(folders, selected).value ==> row.collection in selected
  {
    ReadLogsRows(folders, selected);
    SelectedIndicesOrdered(folders, selected);
    SelectedIndicesExact(folders, selected);
    var rows := ReadLogs(folders, selected).value;
    var idx := SelectedIndices(folders, selected);
    forall row | row in rows ensures row.collection in selected {
      var k :| 0 <= k < |rows| && rows[k] == row;
      assert idx[k] in idx;
    }
  }

  /** Only the selected folders' logs are read: the others can hold anything. */
  lemma {:induction false} OnlySelectedRead(a: seq<Folder>, b: seq<Folder>, selected: seq<string>)
    requires |a| == |b|
    requires forall i :: 0 <= i < |a| ==> a[i].path == b[i].path
    requires forall i :: 0 <= i < |a| && IsSelected(a[i], selected) ==> a[i].logs == b[i].logs
    ensures ReadLogs(a, selected) == ReadLogs(b, selected)
    decreases |a|
  {
    if a != [] {
      var n := |a|;
      OnlySelectedRead(a[..n - 1], b[..n - 1], selected);
      assert a[n - 1].path == b[n - 1].path;
    }
  }

  // ----- Folders without counts -----

  /** A folder whose lines hold neither marker (or that has no log files) counts zero and zero. */
  lemma {:induction false} QuietFolder(logs: seq<LogFile>)
    requires forall f, j :: 0 <= f < |logs| && 0 <= j < |logs[f]| ==>
      !Contains(logs[f][j], ProcessedMarker) && !Contains(logs[f][j], MissingMarker)
    ensures FolderTotals(logs) == Ok(Totals(0, 0))
    decreases |logs|
  {
    if logs != [] {
      var n := |logs|;
      var init, last := logs[..n - 1], logs[n - 1];
      QuietFolder(init);
      forall j | 0 <= j < |last| ensures !Contains(last[j], ProcessedMarker) && !Contains(last[j], MissingMarker) {
        assert last[j] == logs[n - 1][j];
      }
      NoMarkerLinesCountZero(last);
      ScanLinesAppend(FolderLines(init), last);
    }
  }

  /** A selected folder without counts still gets its row, with both counts zero. */
  lemma QuietFolderRow(folder: Folder)
    requires forall f, j :: 0 <= f < |folder.logs| && 0 <= j < |folder.logs[f]| ==>
      !Contains(folder.logs[f][j], ProcessedMarker) && !Contains(folder.logs[f][j], MissingMarker)
    ensures FolderTotals(folder.logs).Ok? && RowOf(folder) == Row(CollectionName(folder.path), 0, 0)
  {
    QuietFolder(folder.logs);
  }

  // ----- Worked examples -----

  /** One log file with a processed and a missing line. */
  lemma OneFileExample()
    ensures FolderTotals([["12 " + ProcessedMarker, "-4 " + MissingMarker]]) == Ok(Totals(12, -4))
  {
    var l1, l2 := "12 " + ProcessedMarker, "-4 " + MissingMarker;
    ProcessedExample();
    NegativeMissingExample();
    FolderLinesSingle([l1, l2]);
    ScanLinesSnoc([], l1);
    ScanLinesSnoc([l1], l2);
    assert [] + [l1] == [l1] && [l1] + [l2] == [l1, l2];
  }

  /** The counts of a folder's log files add up. */
  lemma TwoFilesExample()
    ensures FolderTotals([["12 " + ProcessedMarker], ["12 " + ProcessedMarker]]) == Ok(Totals(24, 0))
  {
    var l1 := "12 " + ProcessedMarker;
    ProcessedExample();
    FolderLinesAppend([[l1]], [[l1]]);
    FolderLinesSingle([l1]);
    assert [[l1]] + [[l1]] == [[l1], [l1]];
    ScanLinesSnoc([], l1);
    ScanLinesSnoc([l1], l1);
    assert [] + [l1] == [l1] && [l1] + [l1] == [l1, l1];
  }

  /** A log file whose count is no number makes its folder fail. */
  lemma BadFileExample()
    ensures FolderTotals([["x " + ProcessedMarker]]) == Err(InvalidCount("x"))
  {
    var line := "x " + ProcessedMarker;
    InvalidCountExample();
    FolderLinesSingle([line]);
    ScanLinesSnoc([], line);
    assert [] + [line] == [line];
  }

  /**
   * Of a folder "Foo" with a good log and a folder "Bar" with a bad one, selecting
   * "Foo" gives its row and never reads "Bar"; selecting both fails with Bar's error.
   */
  lemma SelectionExample(foo: Folder, bar: Folder)
    requires CollectionName(foo.path) == "Foo" && CollectionName(bar.path) == "Bar"
    requires foo.logs == [["12 " + ProcessedMarker, "-4 " + MissingMarker]]
    requires bar.logs == [["x " + ProcessedMarker]]
    ensures ReadLogs([foo, bar], ["Foo"]) == Ok([Row("Foo", 12, -4)])
    ensures ReadLogs([foo, bar], ["Foo", "Bar"]) == Err(InvalidCount("x"))
  {
    var folders := [foo, bar];
    OneFileExample();
    BadFileExample();
    assert folders[..0] == [] && folders[..2] == folders;
    ReadLogsStep(folders, 0, ["Foo"]);
    AppendEmpty([RowOf(foo)]);
    ReadLogsStep(folders, 1, ["Foo"]);
    ReadLogsStep(folders, 0, ["Foo", "Bar"]);
    ReadLogsFolderFails(folders, 1, ["Foo", "Bar"]);
  }
}
