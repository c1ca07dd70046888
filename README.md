# COBIDAS guideline checks, modelled in Dafny

This project models the core of a tool that checks a BIDS neuroimaging dataset
against the COBIDAS reporting guidelines. It covers two parts.

- **The check engine** (`guidelines.dfy`, module `Guidelines`) covers three things.
  - **Grading** maps a `(tally, total)` pair to one of four statuses and to a percentage string.
  - **Key derivation** turns a rule's method name into its catalog key: every `_` becomes `.`.
  - **The two rules.** `D01_05_02_00_00_01` counts the NIfTI files of every task and those whose metadata holds `Instructions`. `D02_02_01_00_00_01` counts all NIfTI files and those whose metadata holds the manufacturer, the model name and the field strength.

  The rules are methods of the class `Cobidas`. It holds the dataset layout and the guideline catalog.
- **The catalog conversion** (`convert_cobidas.dfy`, module `ConvertCobidas`) is the one-off script that turns the COBIDAS appendix table into the YAML catalog. For each row it does the following:
  - escapes the detail text's double quotes;
  - applies an ordered table of 18 literal character substitutions;
  - collapses hyphens;
  - builds the row's label from the table name and its aspects;
  - writes one entry with three `f.write` calls.

Two support modules sit beside them. `text.dfy` (module `Text`) holds Python's `str.replace` as `ReplaceAll`, decimal printing, `join`, and the "every quote is escaped" predicate. `wrappers.dfy` holds `Option` and `Result`.

The rule loops, the substitution loop, the row loop and the writer loop are
methods with loop invariants. Each is proved against a specification function
(`CountWithKeys`, `TaskFiles`, `ApplyTable`, `NormalisedDetail`, `EntryOf`,
`EntriesLines`). The lemmas state what the source promises about those functions.

A rule returns its percentage as the string `_measure_success` builds
(`"50 %"`). `guidelines/guidelines.py` never aggregates rule results, so no
aggregation is modelled.

## Model

The constant `ConvertCobidas.Substitutions` holds `re_replacements`
(guidelines/convert_cobidas.py:22-41) entry for entry, in insertion order. The
lemmas `TablePatternsKeyed`, `TableReplacementsPlain` and `TableQuoteSafe` state
its properties.

| member | source | states |
|---|---|---|
| Guidelines.Status.Label | guidelines/guidelines.py:26-33 | the exact string `_grade_success` returns for each grade; it has no `ensures` of its own, and `LabelsDistinct` shows different grades give different strings |
| Guidelines.LabelsDistinct | guidelines/guidelines.py:26-33 | the four status strings are pairwise different, so the grade can be read back from the string |
| Guidelines.GradeSuccess | guidelines/guidelines.py:20-33 | not applicable iff both counts are 0; complete failure iff tally is 0 and total is not; complete success iff tally equals a non-zero total; partial success iff tally is non-zero and differs from total (including tally above total) |
| Guidelines.RoundHalfEvenIsNearest | guidelines/guidelines.py:44 | the rounded percentage is within one half of the exact `num / den`, and on a tie it is even (Python's `round`) |
| Guidelines.RoundingIsUnique | guidelines/guidelines.py:44 | any integer within one half of `num / den`, even on a tie, is the rounded value, so the rounding is the unique round-half-even |
| Guidelines.RoundHalfEven | guidelines/guidelines.py:44 | Python's `round` of the exact quotient `num / den`; it has no `ensures` of its own, and `RoundHalfEvenIsNearest` and `RoundingIsUnique` characterise it as the unique nearest integer, even on a tie |
| Guidelines.MeasureSuccess | guidelines/guidelines.py:35-44 | `_measure_success`; it has no `ensures` of its own, and its properties are stated by `MeasureSuccessReadsBack`, `PercentInRange`, `MeasureComplete`, `MeasureNone`, `MeasureHalf` and `MeasureExactTie` |
| Guidelines.MeasureSuccessReadsBack | guidelines/guidelines.py:41-44 | the percentage string is decimal digits without a leading zero followed by `" %"`: `"0 %"` when total is 0, otherwise digits whose value is the rounded `100 * tally / total` |
| Guidelines.PercentInRange | guidelines/guidelines.py:44 | for `0 <= tally <= total` and total non-zero, the rounded percentage lies in 0..100 |
| Guidelines.MeasureComplete | guidelines/guidelines.py:41-44 | `(n, n)` with n non-zero gives `"100 %"` |
| Guidelines.MeasureNone | guidelines/guidelines.py:41-44 | `(0, n)` gives `"0 %"`, for any n including 0 |
| Guidelines.MeasureHalf | guidelines/guidelines.py:44 | `(1, 2)` gives `"50 %"` |
| Guidelines.PartialAtTheExtremes | guidelines/guidelines.py:30-44 | a partial success can still show `"0 %"` (1 of 201) or `"100 %"` (200 of 201) |
| Guidelines.TallyAboveTotal | guidelines/guidelines.py:30-44 | nothing guards tally above total: `(2, 1)` is partial success at `"200 %"` |
| Guidelines.MeasureExactTie | guidelines/guidelines.py:44 | `(23, 40)` is an exact tie at 57.5 and the model gives the even `"58 %"`; the source's floating-point arithmetic gives `"57 %"` here (see "## Left out") |
| Guidelines.Get | guidelines/guidelines.py:62 | `layout.get(...)` returns no more files than the layout holds |
| Guidelines.GetSelects | guidelines/guidelines.py:62 | a file is returned iff it is in the layout, has extension `.nii.gz`, and, when a task is given, has that task |
| Guidelines.TaskFiles | guidelines/guidelines.py:61-62 | the files the task loop visits, task by task; it has no `ensures` of its own, and `TaskFilesMembership` and `TaskFilesCount` state which files these are and how many |
| Guidelines.TaskFilesMembership | guidelines/guidelines.py:61-62 | a file is among the task files iff it is a `.nii.gz` file of the layout whose task is one of the listed tasks |
| Guidelines.TaskFilesCount | guidelines/guidelines.py:61-65 | each further task adds exactly the number of `.nii.gz` files of that task to the total |
| Guidelines.CountWithKeys | guidelines/guidelines.py:64-68 | the number of files holding all keys never exceeds the number of files |
| Guidelines.CountExtremes | guidelines/guidelines.py:64-68 | the count is 0 iff no file holds all keys, and equals the number of files iff every file does |
| Guidelines.CountSnoc | guidelines/guidelines.py:64-68 | one more file adds 1 to the count exactly when it holds all keys |
| Guidelines.CountAppend | guidelines/guidelines.py:61-68 | counting over two lists of files in turn adds their counts |
| Guidelines.GradeOfFiles | guidelines/guidelines.py:26-33 | on counted files: not applicable iff there are none, complete failure iff there are some and none has the keys, complete success iff there are some and all do, partial success otherwise |
| Guidelines.CatalogKey | guidelines/guidelines.py:55 | the catalog key of a method name; it has no `ensures` of its own, and `CatalogKeyIsReplace` and `RuleKeys` state that it is `name.replace('_', '.')` and give the two rules' keys |
| Guidelines.CatalogKeyIsReplace | guidelines/guidelines.py:55 | the catalog key is the method name with every `_` replaced by `.` (Python's `replace`), and it holds no `_` |
| Guidelines.RuleKeys | guidelines/guidelines.py:55 | the two rules look up `D01.05.02.00.00.01` and `D02.02.01.00.00.01` |
| Guidelines.ScannerKeysPresent | guidelines/guidelines.py:91-93 | a file counts for the scanner rule iff its metadata holds all three of `Manufacturer`, `ManufacturersModelName` and `MagneticFieldStrength` |
| Guidelines.Cobidas.constructor | guidelines/guidelines.py:10-18 | the checker holds the given layout and catalog |
| Guidelines.Cobidas.D01_05_02_00_00_01 | guidelines/guidelines.py:46-75 | fails with a key error on its catalog key iff that key is missing. Otherwise total is the number of `.nii.gz` files over all tasks, tally the number of those with `Instructions`, and `tally <= total`. The status and percentage are those of grading `(tally, total)` |
| Guidelines.Cobidas.D02_02_01_00_00_01 | guidelines/guidelines.py:77-101 | fails with a key error on its catalog key iff that key is missing. Otherwise total is the number of `.nii.gz` files, tally the number holding all three scanner keys (one check per file), and `tally <= total`. The status and percentage are those of grading `(tally, total)` |
| Guidelines.InstructionsScenario | guidelines/guidelines.py:57-75 | a layout with two NIfTI files of one task, one with `Instructions`, and a `.json` sidecar with `Instructions` that is not counted, gives 1 of 2, partial success, `"50 %"` |
| Text.ReplaceAll | guidelines/convert_cobidas.py:45-49 | a replace pass introduces only characters of the text or of the replacement; a replacement no longer than its pattern never lengthens the text; a one-character pattern absent from its replacement is gone afterwards |
| Text.ReplaceAllMissing | guidelines/convert_cobidas.py:47 | a pattern with a character absent from the text leaves the text unchanged |
| Text.EscapingQuotesEscapes | guidelines/convert_cobidas.py:45 | after `replace('"', '\\"')` every double quote is preceded by a backslash |
| Text.ReplaceAllKeepsQuotesEscaped | guidelines/convert_cobidas.py:47-49 | a replace pass whose pattern contains no quote or backslash, and whose replacement has its quotes escaped, keeps every quote escaped |
| Text.ReplaceCharPointwise | guidelines/guidelines.py:55 | replacing one character by another keeps the length and changes exactly the positions holding it |
| Text.NatToString | guidelines/guidelines.py:44 | `str` of a natural is a non-empty decimal numeral without leading zeros whose value is the natural |
| Text.Join | guidelines/convert_cobidas.py:60 | `sep.join(parts)`; it has no `ensures` of its own, and `JoinSnoc` states how one more part extends it |
| Text.JoinSnoc | guidelines/convert_cobidas.py:60 | joining one more part appends the separator and the part |
| ConvertCobidas.ApplyTableAppend | guidelines/convert_cobidas.py:46-47 | applying two tables in sequence is applying their concatenation |
| ConvertCobidas.ApplyTable | guidelines/convert_cobidas.py:46-47 | the table applied entry by entry in order; it has no `ensures` of its own, and `ApplyTableAppend`, `ApplyTableMissing`, `ApplyTableRemoves` and `ApplyTableKeepsQuotesEscaped` state its properties, while `ApplySubstitutions` is the loop that computes it |
| ConvertCobidas.ApplyTableMissing | guidelines/convert_cobidas.py:46-47 | a table none of whose patterns can occur leaves the text unchanged |
| ConvertCobidas.ApplyTableRemoves | guidelines/convert_cobidas.py:46-47 | a character replaced on its own by some entry, and introduced by no replacement, is gone after the table |
| ConvertCobidas.ApplyTableKeepsQuotesEscaped | guidelines/convert_cobidas.py:45-47 | a table whose patterns avoid quotes and backslashes and whose replacements are escaped keeps every quote escaped |
| ConvertCobidas.TablePatternsKeyed | guidelines/convert_cobidas.py:22-41 | every pattern of the table starts or ends with a replaced character |
| ConvertCobidas.TableReplacementsPlain | guidelines/convert_cobidas.py:22-41 | every replacement consists only of `-`, `x`, `;`, `'`, backslash and `"`, none of them replaced |
| ConvertCobidas.TableQuoteSafe | guidelines/convert_cobidas.py:22-41 | no pattern holds a quote or backslash, and the curly double quotes become an escaped `\"` |
| ConvertCobidas.KeyedTableIdentity | guidelines/convert_cobidas.py:46-47 | a table of keyed patterns leaves text without replaced characters unchanged |
| ConvertCobidas.BelowSoftHyphen | guidelines/convert_cobidas.py:22-41 | every replaced character lies at or above U+00AD |
| ConvertCobidas.SubstituteIdentity | guidelines/convert_cobidas.py:22-47 | the substitution table leaves text without replaced characters unchanged |
| ConvertCobidas.SubstituteRemovesAll | guidelines/convert_cobidas.py:22-47 | after the table none of U+00AD, U+00D7, U+037E, U+2013, U+2014, U+2018, U+2019, U+201C, U+201D, U+2212 is left |
| ConvertCobidas.LeadingEntriesMiss | guidelines/convert_cobidas.py:23-27 | the soft hyphen, multiplication sign and Greek question mark entries do not touch `a – b` |
| ConvertCobidas.SpacedDashStep | guidelines/convert_cobidas.py:28 | the space-prefixed en dash entry turns `a – b` into `a- b` |
| ConvertCobidas.TrailingEntriesKeep | guidelines/convert_cobidas.py:29-40 | the entries after it leave `a- b` unchanged |
| ConvertCobidas.SubstituteOrder | guidelines/convert_cobidas.py:28-30 | in insertion order the table turns `a – b` into `a- b`: the space before the dash is consumed, the one after it kept |
| ConvertCobidas.ApplySubstitutions | guidelines/convert_cobidas.py:46-47 | the substitution loop computes the table applied in order, and leaves no replaced character |
| ConvertCobidas.EscapeQuotes | guidelines/convert_cobidas.py:45 | `replace('"', '\\"')`; it has no `ensures` of its own, and `Text.EscapingQuotesEscapes` states that every quote is escaped afterwards |
| ConvertCobidas.Collapse | guidelines/convert_cobidas.py:48-49 | the two hyphen passes never lengthen the text |
| ConvertCobidas.CollapseIsSinglePass | guidelines/convert_cobidas.py:48 | each pass is a single left-to-right pass: `---` becomes `--` |
| ConvertCobidas.NormalisedDetail | guidelines/convert_cobidas.py:45-49 | the detail after quote escaping, the table and the hyphen passes; it has no `ensures` of its own, and `NormalisedDetailClean` states its properties, while `NormaliseDetail` computes it step by step |
| ConvertCobidas.NormalisedDetailClean | guidelines/convert_cobidas.py:45-49 | the normalised detail holds no replaced character, and every quote in it is preceded by a backslash |
| ConvertCobidas.NormaliseDetail | guidelines/convert_cobidas.py:45-49 | the in-place passes on the detail cell compute the normalised detail, with no replaced character and every quote escaped |
| ConvertCobidas.OptionalAspect | guidelines/convert_cobidas.py:53-58 | `" \| "` and the aspect when present, nothing otherwise; it has no `ensures` of its own, and `AppendAspect` ties it to `info_list.append` |
| ConvertCobidas.InfoLabel | guidelines/convert_cobidas.py:51-60 | the joined label before substitution; it has no `ensures` of its own, and `BuildInfo` shows the list-and-join of the source builds it, while `InfoIsNotEscaped` shows it gets no quote escaping or hyphen collapsing |
| ConvertCobidas.AppendAspect | guidelines/convert_cobidas.py:53-58 | appending a present aspect extends the joined label by `" \| "` and the aspect; an absent one changes nothing |
| ConvertCobidas.BuildInfo | guidelines/convert_cobidas.py:51-62 | the label is table, `" \| "`, first aspect, then each present further aspect in order, all joined by `" \| "`, with the substitution table applied and no replaced character left |
| ConvertCobidas.InfoIsNotEscaped | guidelines/convert_cobidas.py:60-62 | the label gets neither quote escaping nor hyphen collapsing: `Design \| say "a -- b"` stays as it is |
| ConvertCobidas.EntryOf | guidelines/convert_cobidas.py:64-67 | the entry a complete row becomes; it has no `ensures` of its own, and `EntryProperties` states its text is quoted and escaped and free of replaced characters, while `ConvertRows` produces it for each row |
| ConvertCobidas.ErrorOf | guidelines/convert_cobidas.py:45-60 | the error of an incomplete row: a blank detail fails at the first `replace` before a blank table or first aspect fails at the `join`; it has no `ensures` of its own, and `ConvertRows` reports it for the first incomplete row |
| ConvertCobidas.EntryProperties | guidelines/convert_cobidas.py:64-67 | an entry's text is the normalised detail between one leading and one trailing `"`, with every inner quote escaped, and neither text nor label holds a replaced character |
| ConvertCobidas.ConvertRows | guidelines/convert_cobidas.py:43-69 | succeeds iff every row has its detail, table and first aspect, giving one entry per row in order; otherwise fails at the first incomplete row, reporting a missing detail before a missing label |
| ConvertCobidas.EntriesLines | guidelines/convert_cobidas.py:75-78 | each entry is written with three writes |
| ConvertCobidas.EntryLines | guidelines/convert_cobidas.py:76-78 | the three writes `"  index:"`, `"      info: ..."`, `"      text: ..."` of one entry, each ending in a newline; it has no `ensures` of its own, and `ReadEntryLines` reads them back to the entry, while `CatalogLinesAt` places them among the writes |
| ConvertCobidas.ReadEntryLines | guidelines/convert_cobidas.py:76-78 | an entry's three writes read back to the entry |
| ConvertCobidas.ReadEntriesStep | guidelines/convert_cobidas.py:75-78 | reading back one more entry's three writes appends that entry to what was read before |
| ConvertCobidas.ReadEntriesLines | guidelines/convert_cobidas.py:75-78 | the writes of all entries read back to the entries, in order |
| ConvertCobidas.EntriesLinesAt | guidelines/convert_cobidas.py:75-78 | writes `3k` to `3k + 2` of the entries' writes are those of entry `k` |
| ConvertCobidas.CatalogReadsBack | guidelines/convert_cobidas.py:74-78 | the sequence of writes, heading included, reads back to the entries |
| ConvertCobidas.CatalogLinesAt | guidelines/convert_cobidas.py:74-78 | writes `1 + 3k` to `3 + 3k` are `"  index:"`, `"      info: ..."` and `"      text: ..."` of entry `k` |
| ConvertCobidas.WritesAreLines | guidelines/convert_cobidas.py:74-78 | when no index, label or text holds a newline, every write ends in a newline and holds no other, so the file has exactly the heading line and three lines per entry |
| ConvertCobidas.WriteCatalog | guidelines/convert_cobidas.py:72-78 | the writer loop produces the heading and then three writes per entry, `1 + 3n` writes in all, and the writes read back to the entries |
| ConvertCobidas.ConvertCatalog | guidelines/convert_cobidas.py:43-78 | the catalog is written iff every row is complete; its writes are then exactly the heading followed by the three writes of each row's entry, in row order, and they read back to one entry per row; otherwise the first incomplete row's error is reported and nothing is written |

## Left out

- `run.py` is not part of this model. It holds command-line parsing, the version read, file-existence checks, `print` reporting, the discovery of rule methods by reflection, and the `try`/`except` around each check. All of that is I/O and exception plumbing.
- The pybids `BIDSLayout` is abstracted as `Layout(files, tasks)`. Each file carries its extension, its `task` entity and the set of its metadata keys. `get` is a filter, `get_tasks` the task list, `get_metadata` the key set. Indexing a directory tree is not modelled.
- Loading the YAML catalog in the constructor is left out: the catalog is passed in as a map from key to entry.
- `inspect.currentframe()` is left out: each rule's method name is a string constant.
- Guidelines.MeasureSuccess: the percentage is the exact round-half-even of `100 * tally / total`. Python computes `(tally / total) * 100` in binary floating point, so near a tie it can round differently. For `(23, 40)`, Python computes `0.575 * 100` as `57.49999999999999` and returns `"57 %"`, while the model gives `"58 %"` (`MeasureExactTie`). Floating-point rounding is not modelled.
- Guidelines.MeasureSuccessReadsBack: states the value of the exact rounding, not of Python's floating-point rounding, for the reason given for `MeasureSuccess`.
- Guidelines.GradeSuccess: `tally` and `total` are naturals. The source only ever passes non-negative counters, so negative arguments are not modelled.
- The statuses are a datatype, `Status`. `Status.Label()` gives the exact strings the source returns, and `LabelsDistinct` shows the two views agree.
- The spreadsheet read with pandas (`read_excel`, column selection, `to_dict`, `isna`) is left out. Rows are records whose cells may be blank (`Option`). A blank detail, table or first aspect stops the conversion with an error: in the source these raise (`replace` on a NaN float, `join` over a NaN) and the file is never written.
- The `Reference` cell and present aspect cells are taken to be text. A numeric cell is not modelled: it would be written as Python's `str` of it, or make `join` raise.
- The regular-expression engine is left out. Every pattern is a literal character, possibly next to a space, so `re.sub` is modelled as literal replace-all. The replacement `\"` stays two characters because Python's `re.sub` leaves an unknown escape of a non-letter as it is.
- Writing the file and the final `print` are left out. The output is the sequence of strings passed to `f.write`. A reference, label or detail cell holding a newline is written as it is, so that write spans several lines of the file. `WritesAreLines` shows each write is exactly one line when no cell holds a newline. In the other case the file is not three lines per entry, and a newline in the unquoted label also breaks the YAML mapping.
- ConvertCobidas.ReadCatalog reads the sequence of writes back by their fixed prefixes, not the lines of the file. It is not a YAML parser: the model does not claim that a YAML reader accepts the file. A detail text holding a backslash is written unescaped inside a double-quoted scalar.
