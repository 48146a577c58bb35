/**
 * The per-line rule of read_collection_logs and the running totals it keeps
 * over a sequence of log lines.
 */
module LogScan {
  import opened Outcomes
  import opened PyText
  import opened SeqLemmas

  const ProcessedMarker: string := "Movies Processed"
  const MissingMarker: string := "Movies Missing"

  /** The exceptions a marker line can raise; either one aborts the whole report. */
  datatype ScanError =
    | NoCountBeforeMarker          // `split()[-1]` on an empty list: IndexError
    | InvalidCount(token: string)  // `int(token)` rejects the token: ValueError

  /** What one line adds to a collection's totals. */
  datatype LineCount = NoMarker | ProcessedLine(count: int) | MissingLine(count: int)

  datatype Totals = Totals(processed: int, missing: int)

  /** The text before the first occurrence of `marker`: `line.split(marker)[0]`. */
  function Before(line: string, marker: string): string
    requires Contains(line, marker)
  {
    line[..IndexOf(line, marker).value]
  }

  /** The text before the marker is a prefix of the line that the marker follows and holds no marker itself. */
  lemma BeforeSpec(line: string, marker: string)
    requires Contains(line, marker)
    ensures Before(line, marker) <= line
    ensures OccursAt(line, marker, |Before(line, marker)|)
    ensures forall k :: 0 <= k < |Before(line, marker)| ==> !OccursAt(line, marker, k)
  {
    IndexFromSpec(line, marker, 0);
  }

  /** `int(token)` for the word just before a marker. */
  function TokenCount(token: string): Result<int, ScanError> {
    match ParseInt(token)
    case None => Err(InvalidCount(token))
    case Some(n) => Ok(n)
  }

  /** `int(words[-1])`, where indexing an empty list raises IndexError. */
  function LastWordCount(words: seq<string>): Result<int, ScanError> {
    if words == [] then Err(NoCountBeforeMarker) else TokenCount(words[|words| - 1])
  }

  /**
   * `int(line.split(marker)[0].split()[-1])`, with the last word before the marker
   * located and parsed in place.
   */
  function CountBefore(line: string, marker: string): Result<int, ScanError>
    requires Contains(line, marker)
  {
    var e := WordEnd(line, IndexOf(line, marker).value);
    if e == 0 then Err(NoCountBeforeMarker)
    else
      var k := WordStart(line, e);
      match ParseSpan(line, k, e)
      case None => Err(InvalidCount(line[k..e]))
      case Some(n) => Ok(n)
  }

  /** CountBefore is the split-based reading of the source: the last whitespace-separated word before the marker. */
  lemma CountBeforeIsSplit(line: string, marker: string)
    requires Contains(line, marker)
    ensures CountBefore(line, marker) == LastWordCount(Words(Before(line, marker)))
  {
    var i := IndexOf(line, marker).value;
    LastWord(line, i);
    var e := WordEnd(line, i);
    if e > 0 {
      ParseSpanSlice(line, WordStart(line, e), e);
    }
  }

  /** The IndexError case: a marker with nothing but whitespace before it. */
  lemma NoCountIffBlank(line: string, marker: string)
    requires Contains(line, marker)
    ensures CountBefore(line, marker) == Err(NoCountBeforeMarker) <==> AllSpace(Before(line, marker))
  {
    CountBeforeIsSplit(line, marker);
    var words := Words(Before(line, marker));
    WordsSpec(Before(line, marker));
    if words != [] {
      assert TokenCount(words[|words| - 1]) != Err(NoCountBeforeMarker);
    }
  }

  /** The `if ... elif ...` of the line loop. */
  function ClassifyLine(line: string): Result<LineCount, ScanError> {
    if Contains(line, ProcessedMarker) then
      match CountBefore(line, ProcessedMarker)
      case Err(e) => Err(e)
      case Ok(n) => Ok(ProcessedLine(n))
    else if Contains(line, MissingMarker) then
      match CountBefore(line, MissingMarker)
      case Err(e) => Err(e)
      case Ok(n) => Ok(MissingLine(n))
    else Ok(NoMarker)
  }

  /**
   * A processed marker wins over a missing one, a missing count comes only from a
   * line without a processed marker, and a line holding neither marker counts nothing.
   */
  lemma MarkerPrecedence(line: string)
    ensures ClassifyLine(line) == Ok(NoMarker) <==>
      !Contains(line, ProcessedMarker) && !Contains(line, MissingMarker)
    ensures ClassifyLine(line).Ok? && ClassifyLine(line).value.MissingLine? ==>
      !Contains(line, ProcessedMarker) && Contains(line, MissingMarker)
    ensures ClassifyLine(line).Ok? && ClassifyLine(line).value.ProcessedLine? ==>
      Contains(line, ProcessedMarker)
  {
  }

  /** `processed_count += n` or `missing_count += n`. */
  function Tally(t: Totals, c: LineCount): Totals {
    match c
    case NoMarker => t
    case ProcessedLine(n) => t.(processed := t.processed + n)
    case MissingLine(n) => t.(missing := t.missing + n)
  }

  /** The two counters after scanning `lines` in order from zero; the first failing line aborts. */
  function ScanLines(lines: seq<string>): Result<Totals, ScanError>
    decreases |lines|
  {
    if lines == [] then Ok(Totals(0, 0))
    else match ScanLines(lines[..|lines| - 1])
      case Err(e) => Err(e)
      case Ok(t) =>
        match ClassifyLine(lines[|lines| - 1])
        case Err(e) => Err(e)
        case Ok(c) => Ok(Tally(t, c))
  }

  /** Scanning one more line after a successful prefix. */
  lemma ScanLinesSnoc(seen: seq<string>, line: string)
    requires ScanLines(seen).Ok?
    ensures ClassifyLine(line).Err? ==> ScanLines(seen + [line]) == Err(ClassifyLine(line).error)
    ensures ClassifyLine(line).Ok? ==> ScanLines(seen + [line]) == Ok(Tally(ScanLines(seen).value, ClassifyLine(line).value))
  {
    DropLastAppend(seen, [line]);
  }

  // ----- An independent statement of the totals: sums over the lines -----

  function ProcessedIn(line: string): int {
    match ClassifyLine(line)
    case Ok(ProcessedLine(n)) => n
    case _ => 0
  }

  function MissingIn(line: string): int {
    match ClassifyLine(line)
    case Ok(MissingLine(n)) => n
    case _ => 0
  }

  function SumProcessed(lines: seq<string>): int {
    if lines == [] then 0 else ProcessedIn(lines[0]) + SumProcessed(lines[1..])
  }

  function SumMissing(lines: seq<string>): int {
    if lines == [] then 0 else MissingIn(lines[0]) + SumMissing(lines[1..])
  }

  predicate AllLinesParse(lines: seq<string>) {
    forall i :: 0 <= i < |lines| ==> ClassifyLine(lines[i]).Ok?
  }

  lemma {:induction false} SumsAppend(a: seq<string>, b: seq<string>)
    ensures SumProcessed(a + b) == SumProcessed(a) + SumProcessed(b)
    ensures SumMissing(a + b) == SumMissing(a) + SumMissing(b)
  {
    if a == [] {
      AppendEmpty(b);
    } else {
      SumsAppend(a[1..], b);
      DropFirstAppend(a, b);
    }
  }

  /**
   * The scan succeeds exactly when every line parses; its totals are then the sums
   * of the processed and of the missing counts over all lines; and a failed scan
   * reports the error of the first line that does not parse.
   */
  lemma {:induction false} ScanLinesIsSum(lines: seq<string>)
    ensures ScanLines(lines).Ok? <==> AllLinesParse(lines)
    ensures ScanLines(lines).Ok? ==> ScanLines(lines).value == Totals(SumProcessed(lines), SumMissing(lines))
    ensures ScanLines(lines).Err? ==>
      exists i :: 0 <= i < |lines| && ClassifyLine(lines[i]) == Err(ScanLines(lines).error) &&
        AllLinesParse(lines[..i])
    decreases |lines|
  {
    if lines != [] {
      var init := lines[..|lines| - 1];
      var last := lines[|lines| - 1];
      assert lines == init + [last];
      ScanLinesIsSum(init);
      SumsAppend(init, [last]);
      assert [last][1..] == [];
      if ScanLines(init).Err? {
        var i :| 0 <= i < |init| && ClassifyLine(init[i]) == Err(ScanLines(init).error) && AllLinesParse(init[..i]);
        assert lines[..i] == init[..i];
        assert lines[i] == init[i];
      } else if ClassifyLine(last).Err? {
        assert lines[..|lines| - 1] == init;
      }
    }
  }

  /** Once a prefix of the lines fails, nothing after it is scanned. */
  lemma {:induction false} ScanLinesAbort(a: seq<string>, b: seq<string>)
    requires ScanLines(a).Err?
    ensures ScanLines(a + b) == ScanLines(a)
    decreases |b|
  {
    if b == [] {
      AppendEmpty(a);
    } else {
      ScanLinesAbort(a, b[..|b| - 1]);
      DropLastAppend(a, b);
    }
  }

  /** A line that does not parse, after lines that do, is the error of the whole scan. */
  lemma ScanLinesFailsAt(pre: seq<string>, line: string, post: seq<string>)
    requires ScanLines(pre).Ok? && ClassifyLine(line).Err?
    ensures ScanLines(pre + ([line] + post)) == Err(ClassifyLine(line).error)
  {
    ScanLinesSnoc(pre, line);
    ScanLinesAbort(pre + [line], post);
    AppendAssoc(pre, [line], post);
  }

  /** Scanning two runs of lines one after the other adds up their totals. */
  lemma {:induction false} ScanLinesAppend(a: seq<string>, b: seq<string>)
    requires ScanLines(a).Ok? && ScanLines(b).Ok?
    ensures ScanLines(a + b).Ok?
    ensures ScanLines(a + b).value.processed == ScanLines(a).value.processed + ScanLines(b).value.processed
    ensures ScanLines(a + b).value.missing == ScanLines(a).value.missing + ScanLines(b).value.missing
    decreases |b|
  {
    if b == [] {
      AppendEmpty(a);
    } else {
      var init, last := b[..|b| - 1], b[|b| - 1];
      var c := ClassifyLine(last).value;
      ScanLinesAppend(a, init);
      DropLastAppend(a, b);
      TallyShift(ScanLines(a).value, ScanLines(init).value, c);
    }
  }

  lemma TallyShift(base: Totals, t: Totals, c: LineCount)
    ensures Tally(Totals(base.processed + t.processed, base.missing + t.missing), c)
         == Totals(base.processed + Tally(t, c).processed, base.missing + Tally(t, c).missing)
  {
  }

  /** Lines that hold neither marker leave both totals at zero. */
  lemma {:induction false} NoMarkerLinesCountZero(lines: seq<string>)
    requires forall i :: 0 <= i < |lines| ==>
      !Contains(lines[i], ProcessedMarker) && !Contains(lines[i], MissingMarker)
    ensures ScanLines(lines) == Ok(Totals(0, 0))
    decreases |lines|
  {
    if lines != [] {
      NoMarkerLinesCountZero(lines[..|lines| - 1]);
    }
  }

  // ----- Marker lines built from a count -----

  /** The conditions under which `token` is the last word before a marker written after it. */
  predicate IsCountField(lead: string, token: string) {
    'M' !in lead && (lead == [] || IsSpace(lead[|lead| - 1])) &&
    token != [] && NoSpace(token) && 'M' !in token
  }

  /** A marker written after `lead + token + " "` is the first one on the line, and `token` is its count. */
  lemma CountField(lead: string, token: string, marker: string, rest: string)
    requires IsCountField(lead, token)
    requires marker != [] && marker[0] == 'M'
    ensures Contains(lead + token + " " + marker + rest, marker)
    ensures CountBefore(lead + token + " " + marker + rest, marker) == TokenCount(token)
  {
    var line := lead + token + " " + marker + rest;
    var q := |lead| + |token| + 1;
    assert line[q..q + |marker|] == marker;
    forall j | 0 <= j < q ensures line[j] != marker[0] {
      if j < |lead| {
        assert line[j] == lead[j];
      } else if j < |lead| + |token| {
        assert line[j] == token[j - |lead|];
      }
    }
    FirstOccurrence(line, marker, q);
    assert Before(line, marker) == (lead + token) + [' '];
    WordsTrailingSpace(lead + token, ' ');
    WordsAppendWord(lead, token);
    CountBeforeIsSplit(line, marker);
  }

  /** "<lead><token> Movies Processed<rest>": the token's value is a processed count. */
  lemma ProcessedLineToken(lead: string, token: string, rest: string)
    requires IsCountField(lead, token)
    ensures ClassifyLine(lead + token + " " + ProcessedMarker + rest) ==
      match TokenCount(token)
      case Err(e) => Err(e)
      case Ok(n) => Ok(ProcessedLine(n))
  {
    CountField(lead, token, ProcessedMarker, rest);
  }

  /**
   * "<lead><token> Movies Missing<rest>": the token's value is a missing count,
   * provided the rest of the line holds no processed marker.
   */
  lemma MissingLineToken(lead: string, token: string, rest: string)
    requires IsCountField(lead, token)
    requires !Contains(rest, ProcessedMarker)
    ensures ClassifyLine(lead + token + " " + MissingMarker + rest) ==
      match TokenCount(token)
      case Err(e) => Err(e)
      case Ok(n) => Ok(MissingLine(n))
  {
    var line := lead + token + " " + MissingMarker + rest;
    var q := |lead| + |token| + 1;
    var tail := q + |MissingMarker|;
    IndexFromSpec(rest, ProcessedMarker, 0);
    forall p: nat ensures !OccursAt(line, ProcessedMarker, p) {
      if p + |ProcessedMarker| <= |line| {
        var w := line[p..p + |ProcessedMarker|];
        if p < |lead| {
          assert w[0] == lead[p];
        } else if p < |lead| + |token| {
          assert w[0] == token[p - |lead|];
        } else if p == q - 1 {
          assert w[0] == ' ';
        } else if p == q {
          assert w[7] == line[q + 7] == MissingMarker[7];
        } else if p < tail {
          assert w[0] == MissingMarker[p - q];
          assert w[1] == line[p + 1];
          if p - q == 7 {
            assert line[p + 1] == MissingMarker[8];
          }
        } else {
          assert w == rest[p - tail..p - tail + |ProcessedMarker|];
          assert !OccursAt(rest, ProcessedMarker, p - tail);
        }
      }
    }
    IndexFromSpec(line, ProcessedMarker, 0);
    CountField(lead, token, MissingMarker, rest);
  }

  /** A count written as str(n) reads back as n. */
  lemma CountedLines(lead: string, n: int, rest: string)
    requires 'M' !in lead && (lead == [] || IsSpace(lead[|lead| - 1]))
    ensures ClassifyLine(lead + ShowInt(n) + " " + ProcessedMarker + rest) == Ok(ProcessedLine(n))
    ensures !Contains(rest, ProcessedMarker) ==>
      ClassifyLine(lead + ShowInt(n) + " " + MissingMarker + rest) == Ok(MissingLine(n))
  {
    ParseShowInt(n);
    ProcessedLineToken(lead, ShowInt(n), rest);
    if !Contains(rest, ProcessedMarker) {
      MissingLineToken(lead, ShowInt(n), rest);
    }
  }

  /** A marker with only whitespace before it has no count: IndexError. */
  lemma BlankBeforeMarker(blank: string, rest: string)
    requires AllSpace(blank)
    ensures ClassifyLine(blank + ProcessedMarker + rest) == Err(NoCountBeforeMarker)
  {
    var line := blank + ProcessedMarker + rest;
    assert line[|blank|..|blank| + |ProcessedMarker|] == ProcessedMarker;
    forall j | 0 <= j < |blank| ensures line[j] != ProcessedMarker[0] {
      assert line[j] == blank[j];
    }
    FirstOccurrence(line, ProcessedMarker, |blank|);
    assert Before(line, ProcessedMarker) == blank;
    NoCountIffBlank(line, ProcessedMarker);
  }

  // ----- The line shapes the collection logs hold, and what each one counts -----

  lemma ProcessedExample()
    ensures ClassifyLine("12 " + ProcessedMarker) == Ok(ProcessedLine(12))
  {
    var line := "12 " + ProcessedMarker;
    assert line[3..] == ProcessedMarker;
    FirstOccurrence(line, ProcessedMarker, 3);
  }

  /** A negative count is read as it stands. */
  lemma NegativeMissingExample()
    ensures ClassifyLine("-4 " + MissingMarker) == Ok(MissingLine(-4))
  {
    var line := "-4 " + MissingMarker;
    assert line[15] == 'n' && line[16] == 'g';
    assert IndexFrom(line, ProcessedMarker, 1) == None;
    assert line[3..] == MissingMarker;
    FirstOccurrence(line, MissingMarker, 3);
  }

  /** Only the processed count of a line holding both markers is read. */
  lemma BothMarkersExample()
    ensures ClassifyLine("1 " + ProcessedMarker + ", 2 " + MissingMarker) == Ok(ProcessedLine(1))
  {
    var line := "1 " + ProcessedMarker + ", 2 " + MissingMarker;
    assert line[2..18] == ProcessedMarker;
    FirstOccurrence(line, ProcessedMarker, 2);
  }

  lemma InvalidCountExample()
    ensures ClassifyLine("x " + ProcessedMarker) == Err(InvalidCount("x"))
  {
    var line := "x " + ProcessedMarker;
    assert line[2..] == ProcessedMarker;
    FirstOccurrence(line, ProcessedMarker, 2);
    assert line[0..1] == "x";
  }

  lemma NoCountExample()
    ensures ClassifyLine(" " + ProcessedMarker) == Err(NoCountBeforeMarker)
  {
    var line := " " + ProcessedMarker;
    assert line[1..] == ProcessedMarker;
    FirstOccurrence(line, ProcessedMarker, 1);
  }

  lemma NoMarkerExample()
    ensures ClassifyLine("no counts here") == Ok(NoMarker)
  {
  }
}
