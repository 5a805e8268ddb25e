/**
 * parser_imports_sudoc_2025.py: every input file, in the order given, is
 * read as UTF-8; each stripped line that the barcode pattern finds gives one
 * record. The pattern is the first one of the multi-warning script, so the
 * two scripts agree on those lines; the lemmas at the end state how.
 */
module SudocParser {
  import opened Wrappers
  import opened Text
  import opened Patterns
  import opened MultiWarn
  import opened Seqs

  /** One output row; the columns of codebarres_deja_present.csv. */
  datatype ParserRow = ParserRow(
    fichier: string,
    titre: string,
    codeBarres: string,
    ligneFichier: nat,
    messageComplet: string)

  /** One input file: its path and the lines it yields once opened as UTF-8. */
  datatype TextFile = TextFile(path: string, lines: seq<string>)

  /** The record one stripped line gives, if the pattern finds it. */
  function ParseLine(regexCb: string -> Option<Captures>, fichier: string, num: nat, line: string): (r: Option<ParserRow>)
    requires CodeBarresMatcher(regexCb)
    ensures r.Some? <==> regexCb(line).Some?
    ensures r.Some? ==>
              && regexCb(line) == Some([r.value.titre, r.value.codeBarres])
              && IsToken(r.value.titre) && IsDigits(r.value.codeBarres)
              && IsInfix(r.value.titre, line) && IsInfix(r.value.codeBarres, line)
              && r.value.fichier == fichier && r.value.ligneFichier == num && r.value.messageComplet == line
  {
    match regexCb(line)
    case None => None
    case Some(g) =>
      assert g == [g[0], g[1]];
      Some(ParserRow(fichier, g[0], g[1], num, line))
  }

  function ParserRowSeq(r: Option<ParserRow>): seq<ParserRow>
  {
    if r.Some? then [r.value] else []
  }

  /** The records of the lines of one file, in line order, numbered from 1. */
  function ParserLinesRows(regexCb: string -> Option<Captures>, fichier: string, lines: seq<string>): seq<ParserRow>
    requires CodeBarresMatcher(regexCb)
  {
    if lines == [] then []
    else
      var n := |lines|;
      ParserLinesRows(regexCb, fichier, lines[..n - 1]) + ParserRowSeq(ParseLine(regexCb, fichier, n, Strip(lines[n - 1])))
  }

  /** A record belongs to a file's records exactly when its own line, stripped,
      gives it. */
  lemma {:induction false} ParserLinesRowsMembers(regexCb: string -> Option<Captures>, fichier: string, lines: seq<string>, r: ParserRow)
    requires CodeBarresMatcher(regexCb)
    ensures r in ParserLinesRows(regexCb, fichier, lines) <==>
              && 1 <= r.ligneFichier <= |lines|
              && ParseLine(regexCb, fichier, r.ligneFichier, Strip(lines[r.ligneFichier - 1])) == Some(r)
  {
    if lines != [] {
      var n := |lines|;
      var prefix := lines[..n - 1];
      ParserLinesRowsMembers(regexCb, fichier, prefix, r);
      if 1 <= r.ligneFichier < n {
        assert prefix[r.ligneFichier - 1] == lines[r.ligneFichier - 1];
      }
    }
  }

  /** Each record names `fichier` and a line among the first `n`, in strictly
      increasing line order. */
  ghost predicate InLineOrder(rows: seq<ParserRow>, fichier: string, n: nat)
  {
    && (forall i :: 0 <= i < |rows| ==> 1 <= rows[i].ligneFichier <= n && rows[i].fichier == fichier)
    && (forall i, j :: 0 <= i < j < |rows| ==> rows[i].ligneFichier < rows[j].ligneFichier)
  }

  /** A record of line `n` may follow the records of the lines before it. */
  lemma InLineOrderSnoc(prev: seq<ParserRow>, last: seq<ParserRow>, fichier: string, n: nat)
    requires n > 0 && InLineOrder(prev, fichier, n - 1)
    requires forall i :: 0 <= i < |last| ==> last[i].ligneFichier == n && last[i].fichier == fichier
    requires |last| <= 1
    ensures InLineOrder(prev + last, fichier, n)
  {
    var rows := prev + last;
    assert forall i :: 0 <= i < |prev| ==> rows[i] == prev[i];
    assert forall i :: |prev| <= i < |rows| ==> rows[i] == last[i - |prev|];
  }

  /** At most one record per line, each naming its file and a line that
      exists, in strictly increasing line order. */
  lemma {:induction false} ParserLinesRowsOrdered(regexCb: string -> Option<Captures>, fichier: string, lines: seq<string>)
    requires CodeBarresMatcher(regexCb)
    ensures |ParserLinesRows(regexCb, fichier, lines)| <= |lines|
    ensures InLineOrder(ParserLinesRows(regexCb, fichier, lines), fichier, |lines|)
  {
    if lines != [] {
      var n := |lines|;
      ParserLinesRowsOrdered(regexCb, fichier, lines[..n - 1]);
      var prev := ParserLinesRows(regexCb, fichier, lines[..n - 1]);
      var last := ParserRowSeq(ParseLine(regexCb, fichier, n, Strip(lines[n - 1])));
      InLineOrderSnoc(prev, last, fichier, n);
    }
  }

  /** The number of lines the pattern finds once stripped, counted from the
      front. */
  function MatchCount(regexCb: string -> Option<Captures>, lines: seq<string>): nat
  {
    if lines == [] then 0
    else (if regexCb(Strip(lines[0])).Some? then 1 else 0) + MatchCount(regexCb, lines[1..])
  }

  /** Counting from the front agrees with adding the last line on its own. */
  lemma {:induction false} MatchCountLast(regexCb: string -> Option<Captures>, lines: seq<string>)
    requires lines != []
    ensures MatchCount(regexCb, lines) ==
              MatchCount(regexCb, lines[..|lines| - 1]) + (if regexCb(Strip(lines[|lines| - 1])).Some? then 1 else 0)
    decreases |lines|
  {
    if |lines| > 1 {
      var tail := lines[1..];
      MatchCountLast(regexCb, tail);
      DropTake(lines);
      assert tail[|tail| - 1] == lines[|lines| - 1];
    } else {
      assert lines[..0] == [];
    }
  }

  /** A file gives as many records as it has matching lines. */
  lemma {:induction false} ParserLinesRowsCount(regexCb: string -> Option<Captures>, fichier: string, lines: seq<string>)
    requires CodeBarresMatcher(regexCb)
    ensures |ParserLinesRows(regexCb, fichier, lines)| == MatchCount(regexCb, lines)
  {
    if lines != [] {
      ParserLinesRowsCount(regexCb, fichier, lines[..|lines| - 1]);
      MatchCountLast(regexCb, lines);
    }
  }

  /** The records of one file. */
  function FileParserRows(regexCb: string -> Option<Captures>, f: TextFile): seq<ParserRow>
    requires CodeBarresMatcher(regexCb)
  {
    ParserLinesRows(regexCb, Basename(f.path), f.lines)
  }

  /** The rows of a whole run: each file's records, file after file. */
  function ParserRows(regexCb: string -> Option<Captures>, files: seq<TextFile>): seq<ParserRow>
    requires CodeBarresMatcher(regexCb)
  {
    if files == [] then []
    else ParserRows(regexCb, files[..|files| - 1]) + FileParserRows(regexCb, files[|files| - 1])
  }

  /** Taking one more file appends exactly that file's records. */
  lemma {:induction false} ParserRowsStep(regexCb: string -> Option<Captures>, files: seq<TextFile>, i: nat)
    requires CodeBarresMatcher(regexCb)
    requires i < |files|
    ensures ParserRows(regexCb, files[..i + 1]) == ParserRows(regexCb, files[..i]) + FileParserRows(regexCb, files[i])
  {
    TakeTake(files, i + 1, i);
  }

  /** The number of matching lines over all files, counted from the front. */
  function TotalMatches(regexCb: string -> Option<Captures>, files: seq<TextFile>): nat
  {
    if files == [] then 0
    else MatchCount(regexCb, files[0].lines) + TotalMatches(regexCb, files[1..])
  }

  lemma {:induction false} TotalMatchesLast(regexCb: string -> Option<Captures>, files: seq<TextFile>)
    requires files != []
    ensures TotalMatches(regexCb, files) ==
              TotalMatches(regexCb, files[..|files| - 1]) + MatchCount(regexCb, files[|files| - 1].lines)
    decreases |files|
  {
    if |files| > 1 {
      var tail := files[1..];
      TotalMatchesLast(regexCb, tail);
      DropTake(files);
      assert tail[|tail| - 1] == files[|files| - 1];
    } else {
      assert files[..0] == [];
    }
  }

  /** The run writes one row per matching line, summed over all files. */
  lemma {:induction false} ParserRowsCount(regexCb: string -> Option<Captures>, files: seq<TextFile>)
    requires CodeBarresMatcher(regexCb)
    ensures |ParserRows(regexCb, files)| == TotalMatches(regexCb, files)
  {
    if files != [] {
      var n := |files|;
      ParserRowsCount(regexCb, files[..n - 1]);
      ParserLinesRowsCount(regexCb, Basename(files[n - 1].path), files[n - 1].lines);
      TotalMatchesLast(regexCb, files);
    }
  }

  /** The loop over the lines of one opened file: each line is stripped and
      searched, and a record is appended when the pattern finds it. */
  method ParseLines(regexCb: string -> Option<Captures>, fichier: string, lines: seq<string>) returns (fileRows: seq<ParserRow>)
    requires CodeBarresMatcher(regexCb)
    ensures fileRows == ParserLinesRows(regexCb, fichier, lines)
  {
    fileRows := [];
    for numLigne := 1 to |lines| + 1
      invariant fileRows == ParserLinesRows(regexCb, fichier, lines[..numLigne - 1])
    {
      var line := Strip(lines[numLigne - 1]);
      var m := regexCb(line);
      if m.Some? {
        var titre := m.value[0];
        var codeBarres := m.value[1];
        fileRows := fileRows + [ParserRow(fichier, titre, codeBarres, numLigne, line)];
      }
      ParserLinesStep(regexCb, fichier, lines, numLigne, fileRows);
    }
    TakeAll(lines);
  }

  /** The main loop: every file in the order given, every line in order. */
  method ParseFiles(regexCb: string -> Option<Captures>, files: seq<TextFile>) returns (rows: seq<ParserRow>)
    requires CodeBarresMatcher(regexCb)
    ensures rows == ParserRows(regexCb, files)
  {
    rows := [];
    for i := 0 to |files|
      invariant rows == ParserRows(regexCb, files[..i])
    {
      var inputFile := files[i];
      var fileRows := ParseLines(regexCb, Basename(inputFile.path), inputFile.lines);
      rows := rows + fileRows;
      ParserRowsStep(regexCb, files, i);
    }
    TakeAll(files);
  }

  /** One turn of the line loop of `ParseLines`. */
  lemma ParserLinesStep(regexCb: string -> Option<Captures>, fichier: string, lines: seq<string>, num: nat,
                        rows: seq<ParserRow>)
    requires CodeBarresMatcher(regexCb)
    requires 1 <= num <= |lines|
    requires rows == ParserLinesRows(regexCb, fichier, lines[..num - 1])
                     + ParserRowSeq(ParseLine(regexCb, fichier, num, Strip(lines[num - 1])))
    ensures rows == ParserLinesRows(regexCb, fichier, lines[..num])
  {
    TakeTake(lines, num, num - 1);
  }

  // ---------------------------------------------------------------------
  // Agreement with the multi-warning script
  // ---------------------------------------------------------------------

  /** The parser's columns of a multi-warning record. */
  function AsParserRow(r: Row): ParserRow
  {
    ParserRow(r.fichier, r.titre, r.codeBarres, r.ligneFichier, r.messageComplet)
  }

  /** The barcode records of a multi-warning run, in their order, as parser rows. */
  function BarcodeRows(rows: seq<Row>): seq<ParserRow>
  {
    if rows == [] then []
    else
      var last := rows[|rows| - 1];
      BarcodeRows(rows[..|rows| - 1]) + (if last.typeWarn == CodeBarresDejaPresent then [AsParserRow(last)] else [])
  }

  /** On any stripped line, the parser gives a record exactly when the
      multi-warning script gives a barcode record, with the same columns. */
  lemma ParseLineAgrees(m: Matchers, fichier: string, num: nat, line: string)
    requires ValidMatchers(m)
    ensures var p := ParseLine(m.codeBarres, fichier, num, line);
            var c := ClassifyLine(m, fichier, num, line);
      && (p.Some? <==> c.Some? && c.value.typeWarn == CodeBarresDejaPresent)
      && (p.Some? ==> p.value == AsParserRow(c.value))
  {
    assert SimilaireDIA107 != CodeBarresDejaPresent by {
      assert SimilaireDIA107[0] != CodeBarresDejaPresent[0];
    }
  }

  /** For any file's lines, the parser's records are the multi-warning
      script's barcode records of the same lines, in the same order. */
  lemma {:induction false} FileAgreement(m: Matchers, fichier: string, lines: seq<string>)
    requires ValidMatchers(m)
    ensures ParserLinesRows(m.codeBarres, fichier, lines) == BarcodeRows(LinesRows(m, fichier, lines))
  {
    if lines != [] {
      var n := |lines|;
      FileAgreement(m, fichier, lines[..n - 1]);
      var prev := LinesRows(m, fichier, lines[..n - 1]);
      var c := ClassifyLine(m, fichier, n, Strip(lines[n - 1]));
      ParseLineAgrees(m, fichier, n, Strip(lines[n - 1]));
      if c.Some? {
        var all := prev + [c.value];
        InitOfSnoc(prev, c.value);
        assert LinesRows(m, fichier, lines) == all;
      } else {
        assert prev + [] == prev;
        assert LinesRows(m, fichier, lines) == prev;
        assert BarcodeRows(prev) + [] == BarcodeRows(prev);
      }
    }
  }
}
