# Sudoc import-log warning extraction, modelled in Dafny

Two batch scripts read the import reports of the Sudoc union catalogue and
turn some warning lines into CSV rows.

- `Script_Multi_Warn_imports.py` chooses an encoding for each report. It
  takes a charset-detector guess accepted at confidence 0.5 or more, then
  tries `utf-8`, `utf-8-sig`, `cp1252` and `iso-8859-1`, and as a last resort
  reads permissive UTF-8, reported as `utf-8 (replace)`. It then strips
  every line and tries two named warning patterns in priority order. The
  first pattern that matches builds the line's one record:
  - "Code-barres déjà présent" gives a title and a barcode.
  - "Trouvée similaire à … cause: DIA107" gives the linked record, the
    similar record and the cause. Its title comes from a separate
    `Titre : …` search.
- `parser_imports_sudoc_2025.py` reads every report as UTF-8 and keeps only
  the barcode warning, with the same regular expression.

The model is organised as follows:

- `Wrappers`: the `Option` type.
- `Text`:
  - `str.strip`, using Python's full `str.isspace` set;
  - `os.path.basename`, with `/` as the separator;
  - the shapes of `\S+` and `\d+`;
  - ASCII case folding for `DIA107`.
- `Encoding`: `detect_encoding_bytes` and `open_with_fallback`.
  - `Resolve` defines the fallback chain as a function.
  - `OpenWithFallback` is the imperative loop of the source, with its
    `tried` list, `continue` and early returns. It is proved equal to
    `Resolve`.
- `Patterns`: the `WARN_PATTERNS` registry, first-match-wins, and how a
  record is built.
  - Each regular expression is a function from a line to its capture
    groups.
  - `ValidMatchers` states what the groups of a match look like: tokens,
    digits, and a cause equal to `DIA107` ignoring case, all taken from the
    line.
- `MultiWarn`: the per-file, per-line loop of the multi-warning script.
  Its methods are proved equal to the functions `LinesRows`
  and `MultiRows`.
- `SudocParser`: the single-pattern script. It also holds the lemmas on how
  the two scripts agree on any line and any file.

The charset detector, "opening with this codec succeeds" and "the lines a
file yields under this codec" are inputs of the model:

- `DetectorOutcome` is what the detector did.
- `opens` says whether opening succeeds.
- `readLines` gives a file's lines under a codec.

Some behaviour of the code that the model keeps:

- Each candidate encoding is tried by opening the file with that codec, not
  by decoding it. Opening fails only for an unknown codec name or an OS
  error. Decoding errors appear later, while the lines are read, and nothing
  catches them. So the model promises only what the `opens` input says, not
  that the chosen encoding decodes the file.
- A detector result counts as no guess when its confidence is below 0.5,
  when its encoding name is empty or missing, and when the detector raises.
- The parser script reads its files in `glob` order, which is not sorted,
  and always as UTF-8. Its model takes the files in the order given.

## Model

| member | source | states |
|---|---|---|
| Text.StripTrims | Script_Multi_Warn_imports.py:114 | the stripped line has no whitespace at either end, and it is a slice of the line with only whitespace cut from both sides |
| Text.StripIdempotent | parser_imports_sudoc_2025.py:24 | stripping an already stripped line changes nothing |
| Text.Basename | Script_Multi_Warn_imports.py:150 | the file column holds no `/`, is a suffix of the path, and is preceded in the path by `/` unless it is the whole path |
| Encoding.DetectEncoding | Script_Multi_Warn_imports.py:18-29 | a guess is returned exactly when the detector is installed, did not raise, named a non-empty encoding and reported confidence at least 0.5; the guess is then that name |
| Encoding.Unseen | Script_Multi_Warn_imports.py:49-51 | a name is kept for trying exactly when it is one of the listed names and was not tried before |
| Encoding.UnseenDistinct | Script_Multi_Warn_imports.py:49-51 | skipping names already tried never lets a name through twice |
| Encoding.UnseenKeepsFresh | Script_Multi_Warn_imports.py:49-51 | names that are distinct and not tried yet are all tried, in their listed order |
| Encoding.Candidates | Script_Multi_Warn_imports.py:37-51 | the candidates are at most five names, each the guess or a fallback, and the guess, if there is one, comes first |
| Encoding.FirstOpening | Script_Multi_Warn_imports.py:42-56 | the chosen position is the first whose name opens; every name before it fails to open |
| Encoding.Resolve | Script_Multi_Warn_imports.py:31-60 | `tried` is non-empty, is a prefix of the candidates followed by `utf-8 (replace)`, and ends with the returned name; every name before it failed to open; the returned name opens, or it is `utf-8 (replace)` after every candidate failed |
| Encoding.MarkerNotCandidate | Script_Multi_Warn_imports.py:58-60 | the last-resort marker is never one of the fallbacks, nor the guess unless the detector reported it |
| Encoding.ResolveTriesGuessFirst | Script_Multi_Warn_imports.py:40-44 | the detector's guess is the first name tried, and at most six names are tried: the guess, four fallbacks and the marker |
| Encoding.ResolveNoDuplicates | Script_Multi_Warn_imports.py:36-60 | no name appears twice in `tried` |
| Encoding.ResolveFallsThrough | Script_Multi_Warn_imports.py:58-60 | the permissive read is used if and only if no candidate opens |
| Encoding.OpenWithFallback | Script_Multi_Warn_imports.py:31-60 | the loop with its skip, early returns and last resort returns exactly the encoding and `tried` list that `Resolve` specifies |
| Encoding.FallbacksDistinct | Script_Multi_Warn_imports.py:16 | the four fallback names are distinct |
| Encoding.CandidatesWithoutGuess | Script_Multi_Warn_imports.py:49-56 | with no guess, the fallbacks are tried in their listed order |
| Encoding.CandidatesWithNewGuess | Script_Multi_Warn_imports.py:40-56 | a guess that is not a fallback is tried first, then all four fallbacks |
| Encoding.UnseenOfDistinct | Script_Multi_Warn_imports.py:49-51 | on distinct names, skipping the names already tried keeps exactly the untried names in their listed order |
| Encoding.CandidatesWithFallbackGuess | Script_Multi_Warn_imports.py:40-51 | a guess that is one of the fallbacks is tried once, first, and the other fallbacks follow in their listed order |
| Encoding.CandidatesWithCp1252Guess | Script_Multi_Warn_imports.py:40-51 | a `cp1252` guess gives the order `cp1252`, `utf-8`, `utf-8-sig`, `iso-8859-1` |
| Encoding.UndetectedFileOpensAsUtf8 | Script_Multi_Warn_imports.py:49-56 | when the file opens under every known codec, as any readable file does since opening does not decode, a run without a guess picks `utf-8` on its first attempt, whatever the bytes are |
| Encoding.GuessThatOpensIsUsed | Script_Multi_Warn_imports.py:40-44 | a guess whose codec opens the file is returned at once, with only the guess tried |
| Text.Strip | Script_Multi_Warn_imports.py:114 | `str.strip`; its properties are the lemmas `Text.StripTrims` and `Text.StripIdempotent` |
| Patterns.Registry | Script_Multi_Warn_imports.py:67-88 | the registry tries the barcode pattern first and the DIA107 pattern second, and only the DIA107 entry takes its title from the title search |
| Patterns.TitreOrEmpty | Script_Multi_Warn_imports.py:126-127 | the title is what the title search found, or "" when it found nothing |
| Patterns.BuildRow | Script_Multi_Warn_imports.py:122-158 | the record carries the warning name, the file, the line number and the line; a title-searching warning takes the search's title; fields that belong to the other warning are "" |
| Patterns.FirstMatch | Script_Multi_Warn_imports.py:117-120 | the pattern found is the first one in registry order that matches; no pattern matches when none is found |
| Patterns.ClassifyLine | Script_Multi_Warn_imports.py:116-160 | a line gives a record exactly when one of the two patterns matches; a barcode match wins even when the DIA107 pattern also matches. The barcode record is: title from group 1, barcode from group 2, the other fields empty. The DIA107 record is: linked record, similar record and cause from groups 1-3, title from the title search or empty, barcode empty. Every record carries the file, the line number and the stripped line |
| Patterns.ClassifiedFields | Script_Multi_Warn_imports.py:125-145 | a record's type is one of the two names. A barcode record has a token title and a digit barcode. A DIA107 record has token ids and a cause equal to `DIA107` ignoring case, as it occurs in the line; its title is empty exactly when the title search finds nothing, and is a token otherwise |
| MultiWarn.LinesRows | Script_Multi_Warn_imports.py:112-158 | one file's records; the lemmas `MultiWarn.LinesRowsMembers` and `MultiWarn.LinesRowsOrdered` state what they are and their order |
| MultiWarn.FileRows | Script_Multi_Warn_imports.py:106-158 | a file's records, read with the encoding `Resolve` chose and named by the path's basename; `MultiWarn.ProcessFiles` is proved to produce them |
| MultiWarn.MultiRows | Script_Multi_Warn_imports.py:106-158 | a run's rows, file after file; the lemmas `MultiWarn.MultiRowsAppend` and `MultiWarn.MultiRowsSplit` state how runs compose |
| MultiWarn.LinesRowsMembers | Script_Multi_Warn_imports.py:112-158 | a record is among a file's rows exactly when its line number is a line of the file and that stripped line classifies to it |
| MultiWarn.LinesRowsOrdered | Script_Multi_Warn_imports.py:113-158 | a file gives at most one record per line, each naming the file and an existing line, in strictly increasing line order |
| MultiWarn.MultiRowsAppend | Script_Multi_Warn_imports.py:106-158 | the rows of two runs of files back to back are the first run's rows followed by the second's |
| MultiWarn.MultiRowsSplit | Script_Multi_Warn_imports.py:106-158 | the records of earlier files all come before those of later files |
| MultiWarn.ScanPatterns | Script_Multi_Warn_imports.py:117-160 | the loop over the patterns with `continue` and `break` yields exactly the line's classification |
| MultiWarn.ScanLines | Script_Multi_Warn_imports.py:112-160 | the loop over a file's lines appends exactly the file's records, in line order |
| MultiWarn.ProcessFiles | Script_Multi_Warn_imports.py:100-160 | the file loop produces exactly the rows of every file in the order given, each file read with the encoding that `open_with_fallback` chose |
| SudocParser.ParseLine | parser_imports_sudoc_2025.py:24-37 | a line gives a record exactly when the barcode pattern matches it. The title and barcode are groups 1 and 2, a token and digits found in the line, and the record carries the file, the line number and the stripped line |
| SudocParser.ParserLinesRows | parser_imports_sudoc_2025.py:22-37 | one file's records; the lemmas `SudocParser.ParserLinesRowsMembers`, `SudocParser.ParserLinesRowsOrdered` and `SudocParser.ParserLinesRowsCount` state what they are |
| SudocParser.FileParserRows | parser_imports_sudoc_2025.py:19-37 | one file's records, named by the path's basename, from its lines read as UTF-8; `SudocParser.ParserLinesRowsMembers` and `SudocParser.ParserLinesRowsOrdered` state what they are |
| SudocParser.ParserRows | parser_imports_sudoc_2025.py:17-37 | a run's rows, file after file; `SudocParser.ParserRowsCount` counts them and `SudocParser.ParseFiles` is proved to produce them |
| SudocParser.ParserLinesRowsMembers | parser_imports_sudoc_2025.py:23-37 | a record is among a file's rows exactly when its line number is a line of the file and that stripped line gives it |
| SudocParser.ParserLinesRowsOrdered | parser_imports_sudoc_2025.py:23-37 | a file gives at most one record per line, each naming the file and an existing line, in strictly increasing line order |
| SudocParser.ParserLinesRowsCount | parser_imports_sudoc_2025.py:23-37 | a file gives as many records as it has lines that match once stripped |
| SudocParser.ParserRowsCount | parser_imports_sudoc_2025.py:19-37 | the run writes as many rows as there are matching lines, summed over all files |
| SudocParser.ParseLines | parser_imports_sudoc_2025.py:22-37 | the loop over a file's lines appends exactly the file's records, in line order |
| SudocParser.ParseFiles | parser_imports_sudoc_2025.py:17-37 | the file loop produces exactly the rows of every file in the order given |
| SudocParser.ParseLineAgrees | parser_imports_sudoc_2025.py:12-15 | on any stripped line, the parser gives a record exactly when the multi-warning script gives a barcode record, and the file, title, barcode, line number and message then agree |
| SudocParser.FileAgreement | parser_imports_sudoc_2025.py:23-37 | for any file's lines, the parser's rows are the multi-warning script's barcode records of those lines, in the same order |

## Left out

- File enumeration is not modelled: `glob`, `sorted` and the "no file found" notice. The multi-warning run takes its files as a sequence and requires them sorted by path (`SortedByPath`), though no proof depends on that order; the parser run takes them in the order given.
- The sample read (`read(4096)`) and the charset detector's statistics are not modelled. The detector's result is the `DetectorOutcome` input, and a missing confidence is the confidence 0.
- The detector's confidence is a real number here, not a binary floating-point value. The script compares it with 0.5 and does nothing else with it.
- A confidence of `None` is not modelled. The script would then raise a `TypeError` inside the `try` and treat it as no guess; the model has no such value.
- Codecs and decoding are inputs. `opens` says which codec names open the file, and `readLines` gives the lines a file yields under a codec. Unknown codec names and OS errors are what make `opens` false.
- Decoding errors raised while the lines are read are not modelled. They are uncaught in both scripts (Script_Multi_Warn_imports.py:113, parser_imports_sudoc_2025.py:22), so the model does not state that the chosen encoding decodes the whole file.
- The `re` engine is not modelled, so backtracking is left out: which `Titre`/`Code-barres` occurrence a greedy `.*` captures. Each pattern is a function from the line to its groups, constrained by `ValidMatchers` and `CodeBarresMatcher`. Whitespace for `\s` and `\S` is Python's full `str.isspace` set (`Text.IsWs`). Two things are narrowed to ASCII: `\d` is taken as ASCII digits, and the case folding of `DIA107` under `IGNORECASE` as ASCII folding.
- The last-resort read with `errors="replace"` (Script_Multi_Warn_imports.py:59) is outside every `try`. The model takes it to succeed. Its codec is known, so under the model's reading of `opens` it would fail only on the OS error that made every other attempt fail.
- A file that is not valid UTF-8, such as a Windows-1252 report, and gets no guess is opened as `utf-8` (see `Encoding.UndetectedFileOpensAsUtf8`), and reading its lines then raises. That exception is not modelled, as said above.
- Encoding.ResolveNoDuplicates: holds only when the detector did not itself report the name `utf-8 (replace)`. If it did, and nothing opens, that name is tried twice.
- `os.path.basename` is modelled with `/` as the only separator; the Windows `\` rules are not modelled.
- CSV writing (`csv.DictWriter`, the header row, quoting) and every `print` are not modelled. The model ends with the list of rows in output order.
- The file objects and their closing by `with` are not modelled.

