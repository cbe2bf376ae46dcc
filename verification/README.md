# folha-evolutiva — a verified model of the converter's business rules

`main.py` turns an attendance document (tables of date, time and procedure)
into an "evolution" document. It fills a template with a title and a table
per specialty. Each attendance becomes one row of its specialty's table,
with the date, the start time and the end time. This project models that
layer in Dafny, with the document library abstracted away: a table is a
sequence of rows of cell texts, and a paragraph is a sequence of runs. It
proves the properties the converter relies on.

Modules, one per file:

- `outcomes.dfy` (`Outcomes`): `Option` and `Result`.
- `text.dfy` (`Text`): the Python string operations the converter uses:
  `isspace`, `strip`, `split`, `' '.join`, `upper`, `in`, `replace`,
  slicing, and `<` on strings.
- `clock.dfy` (`Clock`): `strptime`/`strftime` with `%H:%M`, and the end
  time of an appointment.
- `settings.dfy` (`Settings`): `CONFIG_PADRAO`, the merge with a user's
  `config.json`, and the typed settings the rest reads.
- `header.dfy` (`Header`): the clean-up of the patient data captured from
  the input's page header: the name, initials, birth date, month and
  diagnosis.
- `attendance.dfy` (`Attendance`): `identificar_e_extrair_tabelas`. It
  covers:
  - table acceptance by the header row;
  - the column lookup;
  - the date carried down a table;
  - records, time-format errors and undated-row warnings.
- `paragraphs.dfy` (`Paragraphs`):
  - placeholder substitution in a paragraph, with the new text spread back
    over its runs (`substituir_variaveis_em_paragrafo`);
  - the header variables (`substituir_variaveis_cabecalho`);
  - cell filling (`preencher_linha_tabela`).
- `evolution.dfy` (`Evolution`): `gerar_word_evolucao`. It covers:
  - the refusals;
  - the sorted, distinct specialties and the grouping;
  - the title copies;
  - the tables trimmed to their header row;
  - the five-cell rows and the end times.

Uncaught exceptions become `Failure` values instead of crashing the model:
an `IndexError` on an empty table or a short row, and a `ValueError` from
`list.index` when the configured columns let through a table without `DATA`,
`HORÁRIO` or `PROCEDIMENTO`.

## Model

| member | source | states |
|---|---|---|
| Settings.Load | main.py:29-45 | No file or an unreadable one gives exactly the defaults. A parsed file keeps every default key, adds its own keys, and wins on every key it names. |
| Settings.LoadHasEveryKey | main.py:36 | Whatever the file holds, every default key is still present after the merge. |
| Settings.Decode | main.py:20-27 | The typed settings exist exactly when every key has the expected type and the time format is `%H:%M`, and they then hold the map's values. |
| Settings.DefaultsDecode | main.py:20-45 | Without a usable file, the settings are 40-minute appointments, the columns DATA, HORÁRIO and PROCEDIMENTO, undated rows reported, the default template path, and header extraction on. |
| Settings.DurationOverride | main.py:36 | A file that sets only the duration changes only the duration. |
| Text.StripCutsSpace | main.py:166 | `strip` removes only whitespace, from the two ends. |
| Text.StripBlank | main.py:186 | A cell strips to the empty text exactly when it is all whitespace. |
| Text.SplitJoin | main.py:118 | Words joined with single spaces split back into the same words. |
| Text.SplitKeepsVisible | main.py:98 | `split` loses exactly the whitespace: the words glued together are the text's visible characters. |
| Text.Collapse | main.py:118 | `' '.join(s.split())` has single spaces between words and none at the ends. It has the same words as `s`, so the same visible characters. |
| Text.CollapseIdempotent | main.py:118 | Collapsing twice equals collapsing once. |
| Text.UpperIsUpper | main.py:183 | Upper-casing gives an upper-case text, and upper-casing again changes nothing. |
| Text.UpperKeepsSpace | main.py:166 | Upper-casing keeps whitespace exactly where it was. |
| Text.UpperStrip | main.py:166 | `s.strip().upper()` equals `s.upper().strip()`. |
| Text.ReplaceAbsent | main.py:393-394 | `replace` leaves a text without the pattern unchanged. |
| Text.SliceFrom | main.py:446-449 | A slice `[lo:mid]` followed by the open slice `[mid:]` rebuilds `[lo:]`. |
| Text.BelowTransitive | main.py:587 | String order is transitive. |
| Text.BelowTotal | main.py:587 | Any two different strings are ordered one way or the other. |
| Clock.ParseTimeMatches | main.py:200 | The `%H:%M` parse succeeds exactly on texts that are an hour field (`2[0-3]`, `[01]` and a digit, or one digit), a colon, and a minute field (`[0-5]` and a digit, or one digit). It reads the two fields. |
| Clock.ParseFormat | main.py:630-631 | Formatting a valid time with `%H:%M` and parsing it again gives the time back. |
| Clock.EndTime | main.py:630-631 | There is an end time exactly when the start parses. It is five characters with a colon in the middle. |
| Clock.EndTimeMinutes | main.py:630-631 | The end time reads back as (start minutes + duration) mod 1440. |
| Clock.EndTimeAdditive | main.py:630-631 | Ending `a` minutes after the start, then `b` minutes after that, is ending `a + b` minutes after the start. |
| Header.Initials | main.py:98-99 | The initials have one character per word of the name: that word's first letter, upper-cased, in order. |
| Header.Diagnosis | main.py:116-118 | The cleaned diagnosis is collapsed and has exactly the capture's words, so its visible characters. Cleaning it again changes nothing. |
| Header.DiagnosisBlank | main.py:116-118 | The cleaned diagnosis is empty exactly when the capture is all whitespace. |
| Header.Fields | main.py:92-119 | The name is the capture with whitespace, and only whitespace, cut from both ends. The initials are one upper-cased first letter per word of the capture. The birth date is the capture as is. The month is upper case and equals the capture up to case. The diagnosis is collapsed with the capture's words. An absent capture counts as empty. |
| Header.Extract | main.py:121-141 | "No data" exactly when the name and diagnosis captures are absent or blank and the other two are absent or empty. Otherwise it gives the fields, not all empty. |
| Attendance.HeaderNames | main.py:166 | One header name per cell of the first row. |
| Attendance.HeaderNameAt | main.py:166 | Header name `k` is cell `k` upper-cased and stripped, so it is in upper case and has no whitespace at either end. |
| Attendance.IndexOfFirst | main.py:173-175 | `index` finds a position exactly when the name is present, and the position is its first occurrence. |
| Attendance.ColumnsOf | main.py:173-175 | On success the three positions are the first occurrences of DATA, HORÁRIO and PROCEDIMENTO. On failure, the fault names this table. |
| Attendance.ColumnsOfFound | main.py:173-175 | The lookup succeeds exactly when all three fixed names are present, whatever the configured list says. Otherwise the fault names the first one missing, in the order DATA, HORÁRIO, PROCEDIMENTO. |
| Attendance.EntriesSuccess | main.py:178-183 | The rows are read exactly when every data row is long enough. Entry `k` is data row `k + 1`, with its cells stripped and the procedure upper-cased. |
| Attendance.EntriesFault | main.py:181-183 | A short row raises on its 1-based line. It is the first short data row, so every row above it fits. |
| Attendance.ClassifyCases | main.py:189-211 | A row with no time or no procedure yields nothing. An undated row, when undated rows are not allowed, yields a warning. Otherwise a matching time yields a record and a non-matching one an error. |
| Attendance.ClassifyKeep | main.py:197-207 | A record holds the carried date, the row's time and procedure, its line and its table. It comes only from a matching time, a non-empty procedure, and a date in force or allowed to be missing. |
| Attendance.DateAtEmpty | main.py:177-187 | No date is in force exactly when every date cell so far in the table is empty. |
| Attendance.DateAtIsLast | main.py:185-187 | A date in force is a non-empty date cell at or above the row. |
| Attendance.PassExpected | main.py:177-211 | The single pass that carries the date agrees, row by row, with the stateless definition of each row's outcome. |
| Attendance.ScanTable | main.py:164-211 | A table without rows raises. A header that lacks an expected column gives no outcomes. An accepted table gives one outcome per data row, and never one for the header row. |
| Attendance.ScanTableAt | main.py:177-211 | In a read table, data row `k` (line `k + 2`) has the outcome the stateless definition gives it. The date carried starts empty in every table. |
| Attendance.ScanTableStamped | main.py:192-209 | Every outcome of a table carries that table's number and its row's 1-based line. |
| Attendance.TableRecord | main.py:178-207 | Every record of a table comes from a data row `k + 1`, not the header. Its start and procedure are that row's cells, and its date is the one in force there. |
| Attendance.TableRecordValid | main.py:197-207 | Every record's start matches `%H:%M`. Its procedure is non-empty and upper-case. Its date is empty only when undated rows are allowed. |
| Attendance.UndatedRowWarns | main.py:189-195 | A row with a time and a procedure and no date in force yields a warning, and no record or error, when undated rows are not allowed. |
| Attendance.BadTimeOneError | main.py:197-211 | A row whose time does not match yields one error, the only one at its line and gathered exactly once, and no record. |
| Attendance.GatherMembers | main.py:193-210 | The record, error and warning lists hold exactly the outcomes of their kind. |
| Attendance.GatherAppend | main.py:164-211 | Gathering two tables' outcomes gives each table's lists, appended. |
| Attendance.StampedInOrder | main.py:178-211 | Within a table, records and errors come out in line order. |
| Attendance.DocumentSuccess | main.py:164-230 | The scan of a document succeeds exactly when the scan of every table does. |
| Attendance.DocumentFault | main.py:164-183 | A failed scan carries the fault of the first failing table, and every table before it scans. |
| Attendance.DocumentInOrder | main.py:164-230 | The document's records and errors are in document order: by table, then by line. |
| Attendance.DocumentRecord | main.py:164-230 | Every record of the document comes from a data row of the table it names, with a valid start, an upper-case procedure, and a date in force unless undated rows are allowed. |
| Paragraphs.SubstituteIsReplaceChain | main.py:391-395 | The guarded substitution (`in`, then `replace`) equals five plain `replace` calls in order. |
| Paragraphs.SubstituteAbsent | main.py:385-388 | A text without any placeholder comes out unchanged. |
| Paragraphs.DistributeJoined | main.py:433-450 | When the run taking the rest has text and the runs after it are empty, the runs' shares glued together are the new text from the current position on. |
| Paragraphs.DistributeShape | main.py:433-450 | Spreading keeps every run's formatting and drops drawings from runs whose text is set. A run that was empty stays empty. |
| Paragraphs.LastNonEmpty | main.py:436-450 | The index found has text and every later run is empty, or no run has text. |
| Paragraphs.ParagraphShape | main.py:379-450 | For the converter's spread and the corrected one alike: a paragraph without placeholders is unchanged. Otherwise it keeps its run count and formatting, runs with a drawing are kept whole, and empty runs stay empty. |
| Paragraphs.ParagraphText | main.py:382-450 | Without drawings, the runs' new texts joined are the old joined text with every placeholder substituted, for every paragraph. |
| Paragraphs.ParagraphWithImage | main.py:397-423 | With a drawing in the paragraph, whichever run would take the rest, each run without a drawing has its own text substituted, and runs with one are kept. |
| Paragraphs.DistributePrefix | main.py:433-450 | When no run after the one taking the rest has text, the shares glued together are a prefix of the new text from the current position: they never overlap or skip, they can only stop short. |
| Paragraphs.AsWrittenText | main.py:433-450 | Without drawings, the converter's spread writes a prefix of the substituted text, and all of it when the last run has text. |
| Paragraphs.AsWrittenAgrees | main.py:446-450 | When the last run has text, the converter's spread equals the corrected one. |
| Paragraphs.AsWrittenLosesText | main.py:436-450 | Runs `Nome `, `{INICIAIS}`, and an empty run, with `{INICIAIS}` = `JP`: the converter writes `Nome J`, and the corrected spread writes `Nome JP`. |
| Paragraphs.HeaderVariables | main.py:362-368 | The five placeholders, in order, all non-empty. |
| Paragraphs.HeaderParagraph | main.py:353-377 | With header data, each paragraph without drawings, spread as the converter spreads it, reads a prefix of its text with the five placeholders replaced in order, and all of it when its last run has text. Without header data, nothing changes. |
| Paragraphs.FillParagraphText | main.py:490-501 | A filled paragraph's first run holds exactly the value and every other run is emptied, with no drawing left in any run. Every run keeps its formatting, and one plain run is added only when there was none. |
| Paragraphs.FillRowCells | main.py:485-501 | Cell `i`, when there is a value `i` and a paragraph, shows the value in its first paragraph, and its other paragraphs are unchanged. Other cells are unchanged. |
| Evolution.SpecialtiesSorted | main.py:587 | The specialties are strictly increasing in code-point order, so sorted and distinct. They are exactly the records' procedures. |
| Evolution.IncreasingUnique | main.py:587 | Two strictly increasing lists with the same elements are equal, so the specialties are the one sorted list of distinct procedures. |
| Evolution.InsertIncreasing | main.py:587 | Insertion keeps the list increasing and adds exactly the new element. |
| Evolution.GroupCount | main.py:594 | A group holds every record with its procedure, as often as the records do, and no other record. |
| Evolution.PosAt | main.py:594 | The `k`-th record of a group is the record at its position in the input. |
| Evolution.PosIncreasing | main.py:594 | Later group members sit at later input positions, so a group keeps the input order. |
| Evolution.GroupsPartition | main.py:587-594 | The groups, taken in specialty order, are a rearrangement of the records: each record falls in exactly one group. |
| Evolution.RowsAt | main.py:628-646 | There is one row per record whose start parses. Row `k` is the model row filled with the `k`-th such record's values. |
| Evolution.RowEnd | main.py:630-643 | A row's values are the date, the start as written, an end time reading back as start + duration mod 1440, and two empty cells. |
| Evolution.TrimToHeader | main.py:621-625 | Removing the second row `len - 1` times leaves exactly the header row. |
| Evolution.TitleRuns | main.py:599-614 | Each run of the copied title has the placeholder replaced in its own text and keeps its formatting. A run without it is kept whole. With no title paragraph, the title reads just the specialty. |
| Evolution.FirstGrid | main.py:546-552 | The index found is a table with none before it, or there is no table. |
| Evolution.FindTitle | main.py:561-565 | The index found is the first paragraph holding `{NOME_ESPECIALIDADE}`, or none holds it. |
| Evolution.KeptMembers | main.py:568-585 | What is kept of the template body is every block except the title paragraph and the tables, the section properties included. |
| Evolution.PlaceKept | main.py:568-617 | Each kept block stays in its place, in order, shifted past the plain titles when those were put in before it. |
| Evolution.PlaceAt | main.py:599-617 | A copied title is appended at the end of the body, right before its table. A plain title is put in before the section properties, while its table is appended after them. |
| Evolution.GenerateRefusals | main.py:503-558 | The document is refused in these cases, and only these: with no records; with no template; with no table in the template; or when the first table has fewer than two rows. The header substitution does not change which. |
| Evolution.GenerateBody | main.py:542-558 | A generated body is composed from the template body, substituted as the converter spreads the text, and the template's first table, which has at least two rows. |
| Evolution.GenerateSection | main.py:587-646 | Specialty `k` of the sorted list gets a title, the title paragraph with the placeholder replaced or the plain specialty name, and a table: the template table's header row, then one filled copy of its second row per record of that specialty whose start parses. Copied titles sit right before their tables after the kept blocks; plain titles go before the section properties and the tables after them. |
| Evolution.GenerateKept | main.py:568-617 | Every kept block of the substituted template appears in the generated body, in order. |
| Evolution.GenerateRowCount | main.py:587-646 | The body is the kept blocks, with no table, placed around one section per specialty, and the tables hold, beyond their header rows, exactly one row per record whose start parses. |

## Left out

- Document handling through python-docx and OXML. This covers loading and
  saving, the `deepcopy` of table, row and paragraph elements,
  `copiar_cabecalho_completo`, `adicionar_logo_e_confidencial_ao_cabecalho`
  (logo, tab stops, fonts) and paragraph styles. These are calls into a
  library. A document is modelled as page-header paragraphs plus a body of
  paragraphs, tables and the section properties (`w:sectPr`) that end it.
  The library's placement is taken as given: `add_paragraph` puts the new
  paragraph before the section properties, while `body.append` (the copied
  title at main.py:602 and the copied table at main.py:467) puts the
  element after them.
- A run's drawing and formatting are a flag and an opaque number. Setting a
  run's text keeps its formatting and drops its drawing, because the
  library's text setter clears the run's content.
- The page headers of all sections are one sequence of paragraphs. A header
  shared by several sections would be substituted once per section in the
  converter.
- The regular expressions of `extrair_dados_cabecalho` (main.py:92-114):
  the captured groups are the inputs.
- File existence, reading the configuration file and JSON parsing, temporary
  files, logging, the command line (`main`, `validar_arquivo_entrada`,
  `gerar_config_exemplo`, `criar_diretorios_padrao`), and the save at the
  end of `gerar_word_evolucao`. Whether the template exists is a parameter
  of `Generate`. The count of generated rows is only logged in the source;
  here it is `DataRows`.
- `api.py` and the one-off inspection and test scripts, which are I/O
  plumbing around the same functions.
- Paragraphs.Share: computes `n * len_new / len_orig` exactly, where the
  converter takes `int()` of a float product. The two can differ by one
  when the float product lands just below an integer.
- Settings.Decode: a `formato_hora` other than `%H:%M`, a non-integer
  duration, and a value of the wrong type are refused instead of being
  modelled. The converter would parse times with another format or raise
  later.
- Clock.ParseTime: accepts ASCII digits only, where `strptime` also accepts
  other Unicode decimal digits.
- Clock.EndTime: does not model the `OverflowError` of `datetime` when the
  end falls outside years 1 to 9999: a duration of about 693,600 days
  backward or about 2.9 million days forward. The converter does not
  catch it.
- Text.Upper: maps the lower-case letters of ASCII and Latin-1 to their
  upper case, `ÿ` and `µ` included, whose upper case lies outside Latin-1.
  Characters outside Latin-1, and `ß`, whose upper case is two letters, are
  left as they are.
- Header.Initials: inherits that limit of `Text.Upper` for the first letter
  of a word.
- Evolution.KeptMembers: states which blocks are kept; their order is
  stated by `PlaceKept` and `GenerateKept` for the generated body, and
  holds for `Kept` by construction.

## Findings

| source | as written | input that shows it | evidently intended | confidence | as-written member | corrected member |
|---|---|---|---|---|---|---|
| main.py:436-450 | An empty run hits `continue` before the "last run takes the rest" branch. When the last run is empty, the text left after the earlier runs' truncated shares is dropped. | Runs `Nome `, `{INICIAIS}` and `""` with `{INICIAIS}` = `JP`: the shares are `No`, `me J` and `""`, so the paragraph reads `Nome J`. | The rest goes to the last run that has text, so the paragraph reads the whole substituted text. | not executed | Paragraphs.AsWrittenLosesText | Paragraphs.ParagraphText |

`SubstituteAsWritten` spreads the text as the converter does, and it is
the spread that `SubstituteHeader`, `SubstituteBlocks`, and so `Generate`,
use. The corrected `SubstituteParagraph` gives the rest to
the last run with text, and `ParagraphText` proves it keeps the whole
text. `AsWrittenAgrees` shows that the two agree whenever the last run has
text, and `AsWrittenText` that the converter's spread can only lose a tail.
