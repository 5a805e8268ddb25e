/**
 * The file walk of Script_Multi_Warn_imports.py (lines 100-160): for each
 * input file, in sorted path order, choose an encoding, then classify each
 * stripped line and append its record, if any, to `rows`.
 */
module MultiWarn {
  import opened Wrappers
  import opened Text
  import opened Encoding
  import opened Patterns
  import opened Seqs

  /** One input file as the script sees it: its path, what the detector
      reports on its first 4096 bytes, which codecs open it, and the lines
      it yields once opened with a given encoding name. */
  datatype LogFile = LogFile(
    path: string,
    detection: DetectorOutcome,
    opens: string -> bool,
    readLines: string -> seq<string>)

  /** `sorted(glob(...))` hands the files over in ascending path order. It
      records the order `ProcessFiles` is called with; no contract or proof
      depends on it. */
  ghost predicate SortedByPath(files: seq<LogFile>)
  {
    forall i, j :: 0 <= i < j < |files| ==> LexLessEq(files[i].path, files[j].path)
  }

  function RowSeq(r: Option<Row>): seq<Row>
  {
    if r.Some? then [r.value] else []
  }

  /** The records of the lines of one file, in line order; lines are numbered
      from 1. */
  function LinesRows(m: Matchers, fichier: string, lines: seq<string>): seq<Row>
    requires ValidMatchers(m)
  {
    if lines == [] then []
    else
      var n := |lines|;
      LinesRows(m, fichier, lines[..n - 1]) + RowSeq(ClassifyLine(m, fichier, n, Strip(lines[n - 1])))
  }

  /** Each record names `fichier` and a line among the first `n`, in strictly
      increasing line order. */
  ghost predicate InLineOrder(rows: seq<Row>, fichier: string, n: nat)
  {
    && (forall i :: 0 <= i < |rows| ==> 1 <= rows[i].ligneFichier <= n && rows[i].fichier == fichier)
    && (forall i, j :: 0 <= i < j < |rows| ==> rows[i].ligneFichier < rows[j].ligneFichier)
  }

  /** A record of line `n` may follow the records of the lines before it. */
  lemma InLineOrderSnoc(prev: seq<Row>, last: seq<Row>, fichier: string, n: nat)
    requires n > 0 && InLineOrder(prev, fichier, n - 1)
    requires forall i :: 0 <= i < |last| ==> last[i].ligneFichier == n && last[i].fichier == fichier
    requires |last| <= 1
    ensures InLineOrder(prev + last, fichier, n)
  {
    var rows := prev + last;
    assert forall i :: 0 <= i < |prev| ==> rows[i] == prev[i];
    assert forall i :: |prev| <= i < |rows| ==> rows[i] == last[i - |prev|];
  }

  /** At most one record per line, each naming its file and a line that
      exists, in strictly increasing line order. */
  lemma {:induction false} LinesRowsOrdered(m: Matchers, fichier: string, lines: seq<string>)
    requires ValidMatchers(m)
    ensures |LinesRows(m, fichier, lines)| <= |lines|
    ensures InLineOrder(LinesRows(m, fichier, lines), fichier, |lines|)
  {
    if lines != [] {
      var n := |lines|;
      LinesRowsOrdered(m, fichier, lines[..n - 1]);
      var prev := LinesRows(m, fichier, lines[..n - 1]);
      var last := RowSeq(ClassifyLine(m, fichier, n, Strip(lines[n - 1])));
      InLineOrderSnoc(prev, last, fichier, n);
    }
  }

  /** A record belongs to a file's records exactly when it is what its own
      line, stripped, classifies to. */
  lemma {:induction false} LinesRowsMembers(m: Matchers, fichier: string, lines: seq<string>, r: Row)
    requires ValidMatchers(m)
    ensures r in LinesRows(m, fichier, lines) <==>
              && 1 <= r.ligneFichier <= |lines|
              && ClassifyLine(m, fichier, r.ligneFichier, Strip(lines[r.ligneFichier - 1])) == Some(r)
  {
    if lines != [] {
      var n := |lines|;
      var prefix := lines[..n - 1];
      LinesRowsMembers(m, fichier, prefix, r);
      if 1 <= r.ligneFichier < n {
        assert prefix[r.ligneFichier - 1] == lines[r.ligneFichier - 1];
      }
    }
  }

  /** The records of one file, read with the encoding `open_with_fallback` chose. */
  function FileRows(haveDetector: bool, m: Matchers, f: LogFile): seq<Row>
    requires ValidMatchers(m)
  {
    var encoding := Resolve(DetectEncoding(haveDetector, f.detection), f.opens).encoding;
    LinesRows(m, Basename(f.path), f.readLines(encoding))
  }

  /** The rows of a whole run: each file's records, file after file. */
  function MultiRows(haveDetector: bool, m: Matchers, files: seq<LogFile>): seq<Row>
    requires ValidMatchers(m)
  {
    if files == [] then []
    else MultiRows(haveDetector, m, files[..|files| - 1]) + FileRows(haveDetector, m, files[|files| - 1])
  }

  /** Taking one more file appends exactly that file's records. */
  lemma {:induction false} MultiRowsStep(haveDetector: bool, m: Matchers, files: seq<LogFile>, i: nat)
    requires ValidMatchers(m)
    requires i < |files|
    ensures MultiRows(haveDetector, m, files[..i + 1]) == MultiRows(haveDetector, m, files[..i]) + FileRows(haveDetector, m, files[i])
  {
    TakeTake(files, i + 1, i);
  }

  /** Unfolds `MultiRows` once on a non-empty run. */
  lemma {:induction false} MultiRowsLast(haveDetector: bool, m: Matchers, files: seq<LogFile>)
    requires ValidMatchers(m)
    requires files != []
    ensures MultiRows(haveDetector, m, files) == MultiRows(haveDetector, m, files[..|files| - 1]) + FileRows(haveDetector, m, files[|files| - 1])
  {
  }

  /** The rows of two runs back to back are the rows of the first run
      followed by those of the second. */
  lemma {:induction false} MultiRowsAppend(haveDetector: bool, m: Matchers, a: seq<LogFile>, b: seq<LogFile>)
    requires ValidMatchers(m)
    ensures MultiRows(haveDetector, m, a + b) == MultiRows(haveDetector, m, a) + MultiRows(haveDetector, m, b)
    decreases |b|
  {
    if b == [] {
      AppendEmpty(a);
      AppendEmpty(MultiRows(haveDetector, m, a));
    } else {
      MultiRowsAppend(haveDetector, m, a, b[..|b| - 1]);
      MultiRowsAppendLast(haveDetector, m, a, b);
    }
  }

  /** The step of `MultiRowsAppend`: from `b` without its last file to `b`. */
  lemma {:induction false} MultiRowsAppendLast(haveDetector: bool, m: Matchers, a: seq<LogFile>, b: seq<LogFile>)
    requires ValidMatchers(m)
    requires b != []
    requires MultiRows(haveDetector, m, a + b[..|b| - 1]) == MultiRows(haveDetector, m, a) + MultiRows(haveDetector, m, b[..|b| - 1])
    ensures MultiRows(haveDetector, m, a + b) == MultiRows(haveDetector, m, a) + MultiRows(haveDetector, m, b)
  {
    var ab := a + b;
    AppendInit(a, b);
    var ra := MultiRows(haveDetector, m, a);
    var ri := MultiRows(haveDetector, m, b[..|b| - 1]);
    var rl := FileRows(haveDetector, m, b[|b| - 1]);
    MultiRowsLast(haveDetector, m, b);
    MultiRowsLast(haveDetector, m, ab);
    AppendAssoc(ra, ri, rl);
  }

  /** The rows of a run split at any file: the records of the files before
      come first, then those of the files from there on. */
  lemma {:induction false} MultiRowsSplit(haveDetector: bool, m: Matchers, files: seq<LogFile>, k: nat)
    requires ValidMatchers(m)
    requires k <= |files|
    ensures MultiRows(haveDetector, m, files) == MultiRows(haveDetector, m, files[..k]) + MultiRows(haveDetector, m, files[k..])
  {
    TakeDrop(files, k);
    MultiRowsAppend(haveDetector, m, files[..k], files[k..]);
  }

  /** The inner loop over `WARN_PATTERNS` for one stripped line: the first
      pattern that matches builds the record, and the loop stops there. */
  method ScanPatterns(m: Matchers, fichier: string, num: nat, line: string) returns (found: Option<Row>)
    requires ValidMatchers(m)
    ensures found == ClassifyLine(m, fichier, num, line)
  {
    var patterns := Registry(m);
    found := None;
    var k := 0;
    while k < |patterns|
      invariant 0 <= k <= |patterns|
      invariant found == None
      invariant forall j :: 0 <= j < k ==> patterns[j].regex(line).None?
    {
      var warn := patterns[k];
      var match_ := warn.regex(line);
      if match_.None? {
        k := k + 1;
        continue;
      }
      var g := match_.value;

      var titre: string;
      if warn.extractTitle {
        var mTitre := m.titre(line);
        titre := if mTitre.Some? then mTitre.value else "";
      } else {
        titre := if |g| > 0 then g[0] else "";
      }

      var codeBarres, noticeLiee, similaire, cause := "", "", "", "";
      if warn.name == CodeBarresDejaPresent {
        codeBarres := g[1];
      } else if warn.name == SimilaireDIA107 {
        noticeLiee, similaire, cause := g[0], g[1], g[2];
      }

      found := Some(Row(warn.name, fichier, titre, codeBarres, noticeLiee, similaire, cause, num, line));
      assert FirstMatch(patterns, line) == Some((k, g));
      break;
    }
  }

  /** The loop over the lines of one opened file: each line is stripped and
      scanned, and its record, if any, is appended. */
  method ScanLines(m: Matchers, fichier: string, lines: seq<string>) returns (fileRows: seq<Row>)
    requires ValidMatchers(m)
    ensures fileRows == LinesRows(m, fichier, lines)
  {
    fileRows := [];
    for numLigne := 1 to |lines| + 1
      invariant fileRows == LinesRows(m, fichier, lines[..numLigne - 1])
    {
      var line := Strip(lines[numLigne - 1]);
      var found := ScanPatterns(m, fichier, numLigne, line);
      if found.Some? {
        fileRows := fileRows + [found.value];
      }
      TakeTake(lines, numLigne, numLigne - 1);
    }
    TakeAll(lines);
  }

  /** The main loop: every file in the order given, every line in order. */
  method ProcessFiles(haveDetector: bool, m: Matchers, files: seq<LogFile>) returns (rows: seq<Row>)
    requires ValidMatchers(m)
    requires SortedByPath(files)
    ensures rows == MultiRows(haveDetector, m, files)
  {
    rows := [];
    for i := 0 to |files|
      invariant rows == MultiRows(haveDetector, m, files[..i])
    {
      var inputFile := files[i];
      var usedEnc, tried := OpenWithFallback(haveDetector, inputFile.detection, inputFile.opens);
      var fileRows := ScanLines(m, Basename(inputFile.path), inputFile.readLines(usedEnc));
      rows := rows + fileRows;
      MultiRowsStep(haveDetector, m, files, i);
    }
    TakeAll(files);
  }
}
