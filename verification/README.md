# Speech-corpora toolkit: document trimming and corpus naming, in Dafny

This project models the text-processing core of the speech-corpora toolkit.

- **`DocumentReader`**: the document reader that turns presentations, PDFs and Word documents into plain text. It covers:
  - the per-line trim rules, which work from a trim list of literal items and the `+++tabs+++` / `+++word+++` commands;
  - the document-level filter;
  - the sentence reconnection applied to PDF text;
  - the dispatch on the file name;
  - the output-path rewrite;
  - the text that `save` writes.
- **`Utilities`**: the seconds-to-hours-and-minutes helper.
- **`CorpusNames`**: the naming rules of `run.py`. These are:
  - how mapping entries are rewritten to `audio/<name>` and `text/<stem>.txt`;
  - the standard names `<source>_<number>.wav` and `<source>_<number>.txt` that `standardize_files` gives each row, numbered from 1 and zero-filled to six digits.

Modules:

| file | module | what it holds |
|---|---|---|
| options.dfy | `Options` | `Option` |
| text.dfy | `Text` | Python's `in`, `str.split(sep)`, `sep.join` and `str.replace`, as used by the core, plus two search helpers: the first occurrence of a pattern, which `split` is built on, and the last index of a character, used for the path rewrite and `pathlib`'s stem |
| whitespace.dfy | `Whitespace` | `str.split()` with no argument, on CPython's `isspace` set, and `" ".join(s.split())` |
| trim_command.dfy | `TrimCommand` | `is_trim_command`: the search of `\+{3}(.*)\+{3}` (leftmost start, greedy end, `.` not matching a newline) |
| document_reader.dfy | `DocumentReader` | `trim_line`, `trim`, `connect_sentences`, `read`, `read_and_trim`, `to_txt_path`, the content of `save` |
| utilities.dfy | `Utilities` | `seconds_to_hours_mins` |
| corpus_names.dfy | `CorpusNames` | POSIX `pathlib` name and stem, `str(n)`, `str.zfill`, the mapping formatters, `standardize_files` naming |

A document enters the model as the list of lines its format reader extracted.

`ReadAndTrim` uses the functions as written, including the behaviour listed under "## Findings". The corrected definitions stand beside them, with the intended properties proved.

Two properties one might expect hold only in part:
- Trimming is not idempotent for every trim list. `TrimIdempotent` proves it idempotent when the items hold no whitespace and no `word` command. `SpacedItemNotIdempotent` shows it can fail otherwise.
- Removing ".." only reaches the last sentence unit, so earlier units may keep "..".

## Model

| member | source | states |
|---|---|---|
| TrimCommand.LastClose | document_handler/document_to_text.py:128 | The greedy `.*`: the last closing `+++` at or after a position for a group starting at `lo`. When none is found, no closing marker follows the position. The scan stops at a newline. |
| TrimCommand.SearchFrom | document_handler/document_to_text.py:128 | The search from a position finds a match of `+++(.*)+++` that starts at or after it. No match starts between the position and the one found. For that start, no closing `+++` lies further right. With no result, there is no match at all from the position on. |
| TrimCommand.IsTrimCommand | document_handler/document_to_text.py:123-131 | The command is the group captured by the leftmost, longest match. It is "" when the item holds no match. |
| TrimCommand.CommandBetweenFirstAndLastMarker | document_handler/document_to_text.py:128-131 | For a newline-free item, the command is the text between the first `+++` and the last `+++` that begins at least three characters later. |
| TrimCommand.NoMarkerPairIsLiteral | document_handler/document_to_text.py:128-130 | A newline-free item whose `+++` markers never form a non-overlapping pair is no command: the result is "". |
| TrimCommand.NewlineBreaksCommand | document_handler/document_to_text.py:128-130 | `.` does not match a newline, so "+++ta\nbs+++" carries no command. |
| TrimCommand.CommandIsEnclosed | document_handler/document_to_text.py:128-131 | A non-empty command `c` comes from an item that contains `+++c+++`. |
| DocumentReader.ApplyItem | document_handler/document_to_text.py:109-120 | Item verdicts, in order: a `tabs` item drops a line that holds a tab; a `word` item whose word occurs replaces the line with a normalized, no-longer text, even when the item also occurs literally; failing both, an item occurring literally drops the line. A line passes exactly when none of the three tests fires. |
| DocumentReader.TrimLine | document_handler/document_to_text.py:105-121 | The result is whitespace-normalized: single spaces, no spaces at either end, no tab. It is never longer than the line. |
| DocumentReader.TrimLineSkip | document_handler/document_to_text.py:109-120 | Items that let the line pass do not affect the result. |
| DocumentReader.TrimLineFirstVerdict | document_handler/document_to_text.py:109-120 | The first item that does not pass decides the line: a drop gives "", a replacement gives its text. |
| DocumentReader.TrimLineNoMatch | document_handler/document_to_text.py:121 | A line that every item lets pass comes back whitespace-collapsed. |
| DocumentReader.TabsItemDrops | document_handler/document_to_text.py:111-113 | A `tabs` item that the earlier items let the line reach drops any line holding a tab. |
| DocumentReader.WordOf | document_handler/document_to_text.py:115 | No contract of its own: the item with `+++word+++` removed. Stated by `WordItemReplaces` and `BareWordItemCommand`. |
| DocumentReader.WordItemReplaces | document_handler/document_to_text.py:114-118 | A `word` item whose word occurs deletes every occurrence and collapses the rest. The result's words are those of the line with the word cut out. |
| DocumentReader.LiteralItemDrops | document_handler/document_to_text.py:119-120 | Any item occurring literally drops the line, including a command item whose command did not fire. |
| DocumentReader.TabsItemCommand | document_handler/document_to_text.py:30 | "+++tabs+++" carries the `tabs` command. |
| DocumentReader.BareWordItemCommand | document_handler/document_to_text.py:31 | "+++word+++" carries the `word` command, and its word is empty. |
| DocumentReader.TabsItemTextDropsLine | document_handler/document_to_text.py:111-120 | The item "+++tabs+++" drops every line that quotes it, whether or not the line has a tab. |
| DocumentReader.BareWordItemCollapses | document_handler/document_to_text.py:114-118 | A bare "+++word+++" item lets every line through collapsed, whatever items follow it. |
| DocumentReader.Trim | document_handler/document_to_text.py:86-103 | `trim` keeps at most as many lines as it gets. Every kept line is non-empty and normalized. |
| DocumentReader.DropEmpty | document_handler/document_to_text.py:98-101 | The filter keeps exactly the non-empty lines and never adds one. |
| DocumentReader.Images | document_handler/document_to_text.py:96-97 | No contract of its own: `trim_line` applied to every line, in order. Stated by `TrimIsFilterOfImages` and `ImagesAppend`. |
| DocumentReader.TrimIsFilterOfImages | document_handler/document_to_text.py:96-103 | `trim` is `trim_line` applied to every line, in order, followed by dropping the "" results. |
| DocumentReader.ImagesAppend | document_handler/document_to_text.py:96-97 | The per-line images of a concatenation are the images of each part. |
| DocumentReader.DropEmptyAppend | document_handler/document_to_text.py:98-101 | Dropping empty lines from a concatenation drops them from each part. |
| DocumentReader.TrimAppend | document_handler/document_to_text.py:96-103 | Trimming a concatenation of documents trims each part. |
| DocumentReader.TrimLineDropOnly | document_handler/document_to_text.py:105-121 | With items that hold no whitespace and no `word` command, a surviving line is the collapsed line, and every item let it pass. |
| DocumentReader.CollapsedLinePasses | document_handler/document_to_text.py:109-120 | A whitespace-free item that is not a `word` item and lets a line pass also lets the collapsed line pass. |
| DocumentReader.TrimLineStable | document_handler/document_to_text.py:105-121 | Under such items, a surviving line is a fixed point of `trim_line`. |
| DocumentReader.TrimIdempotent | document_handler/document_to_text.py:86-103 | Under such items, trimming the trimmed text changes nothing. |
| DocumentReader.SpacedItemNotIdempotent | document_handler/document_to_text.py:119-121 | An item holding a space can match only after collapsing. Trimming ["a  b"] with ["a b"] gives ["a b"], and trimming that again gives []. |
| DocumentReader.AppendPeriods | document_handler/document_to_text.py:180 | No contract of its own: `[x + "." for x in pieces]`. Stated by `JoinAppendPeriods` and `PeriodsAvoidBreak`. |
| DocumentReader.JoinAppendPeriods | document_handler/document_to_text.py:179-180 | Joining the period-terminated pieces with spaces gives back the text joined at ". ", plus one final period. |
| DocumentReader.AppendPeriodAvoidsBreak | document_handler/document_to_text.py:180 | Appending a period cannot create a ". ". |
| DocumentReader.Sentences | document_handler/document_to_text.py:177-180 | There is at least one sentence unit. Joined with spaces, the units give the joined text plus ".". Every unit ends with a period and holds no ". ". |
| DocumentReader.DoubleDotKeepsEnd | document_handler/document_to_text.py:182 | `replace("..", ".")` keeps a final period. |
| DocumentReader.DoubleDotAvoidsBreak | document_handler/document_to_text.py:182 | `replace("..", ".")` creates no ". ". |
| DocumentReader.ConnectSentences | document_handler/document_to_text.py:175-183 | There are as many units as sentences, and all but the last are unchanged. The last is the last sentence unit with every non-overlapping ".." replaced by ".". Every unit ends with a period and holds no ". ". |
| DocumentReader.ConnectEmptyText | document_handler/document_to_text.py:175-183 | An empty text reconnects to ["."]. |
| DocumentReader.InnerEllipsisShortened | document_handler/document_to_text.py:180-182 | As written: an ellipsis inside the last unit is shortened too. "a...b", with dot-free a and b and b not starting with a space, comes back as "a..b.". |
| DocumentReader.EllipsisAtEndLosesDot | document_handler/document_to_text.py:180-182 | As written: a text ending in "..." comes back ending in "..". |
| DocumentReader.EllipsisSentences | document_handler/document_to_text.py:177-180 | A dot-free word followed by "..." becomes a single unit ending in "....". |
| DocumentReader.DoubleDotsAfterWord | document_handler/document_to_text.py:182 | `replace("..", ".")` turns "...." after a dot-free word into "..". |
| DocumentReader.FinalSentence | document_handler/document_to_text.py:181-182 | Intended last unit: it ends with a period. A unit that already ended with one is kept as it is, and any other unit gets exactly one "." added. No ". " is introduced. |
| DocumentReader.ConnectSentencesIntended | document_handler/document_to_text.py:175-183 | Intended reconnection: every unit ends with a period and holds no ". ". Joined with spaces, the units give the text joined with spaces, with exactly one period added when it did not already end in one. |
| DocumentReader.ConnectSentencesAgree | document_handler/document_to_text.py:175-183 | When the last piece holds no "..", the written and the intended reconnection agree. |
| DocumentReader.DocxContainsDoc | document_handler/document_to_text.py:138 | A path containing ".docx" contains ".doc", so the ".docx" test adds nothing. |
| DocumentReader.Read | document_handler/document_to_text.py:133-140 | Dispatch by substring, in order: ".pptx" goes to the presentation reader, then ".pdf" to the PDF reader, then ".doc" to the Word reader. Each case holds in both directions. Any other path gives the unknown-format message. |
| DocumentReader.ReadAndTrim | document_handler/document_to_text.py:165-173 | A path mentioning ".pdf" gives the trimmed lines reconnected into sentence units: at least one, each ending in a period, all but the last as split. Any other path gives exactly the trimmed lines: non-empty, normalized and no more than were read. |
| DocumentReader.ReconnectionFollowsPath | document_handler/document_to_text.py:134-136 | Reconnection follows the path, not the reader. "talk.pdf.pptx" is read as a presentation and still reconnected. |
| DocumentReader.EmptyPdfGivesPeriod | document_handler/document_to_text.py:170-183 | A PDF whose every line is trimmed away yields ["."]. |
| DocumentReader.ReplaceLastField | document_handler/document_to_text.py:161-163 | Splitting at '.' and joining back with the last field replaced keeps the path up to its last '.'. |
| DocumentReader.ToTxtPath | document_handler/document_to_text.py:159-163 | The result ends in "txt": the path up to its last '.' plus "txt", or just "txt" when there is no '.'. |
| DocumentReader.ToTxtPathIdempotent | document_handler/document_to_text.py:159-163 | Rewriting a rewritten path changes nothing. |
| DocumentReader.ToTxtPathWithoutExtension | document_handler/document_to_text.py:161-163 | As written: "notes" becomes "txt". |
| DocumentReader.ToTxtPathCutsIntoDirectory | document_handler/document_to_text.py:161-163 | As written: when the part after the last '.' is dot-free, everything after the last '.' is replaced. So "out.d/text/README" becomes "out.txt". |
| DocumentReader.FinalDot | document_handler/document_to_text.py:160 | Finds the '.' that starts the final component's extension. It is the last '.', no '/' follows it, and it is not the component's first character: as with `pathlib`'s suffix, the '.' of a hidden file such as ".bashrc" starts no extension. None is found exactly when `NoExtension` holds: every '.' that is not the first character of its component is followed by a '/'. |
| DocumentReader.ToTxtPathIntended | document_handler/document_to_text.py:160 | Intended rewrite: the result ends with ".txt" and keeps every directory of the path. What precedes ".txt" is the whole path exactly when the final component has no extension. Otherwise it is the path cut at the '.' that starts the extension: that '.' is not the first character of the component, and no '/' and no further '.' follow it. |
| DocumentReader.ToTxtPathIntendedKeepsDotfile | document_handler/document_to_text.py:160 | A hidden file keeps its whole name: "d/.b" becomes "d/.b.txt". |
| DocumentReader.ToTxtPathAgreesOnExtension | document_handler/document_to_text.py:159-163 | When the final component has an extension, meaning a '.' after its first character, the written and the intended rewrite agree. |
| DocumentReader.SaveContent | document_handler/document_to_text.py:148-150 | The saved text is the lines joined by newlines, with one more newline at the end, so every line is followed by a newline. |
| DocumentReader.SaveContentRoundTrip | document_handler/document_to_text.py:148-150 | Splitting the saved text at newlines gives the lines back, then "". This holds when no line holds a newline. |
| Utilities.SecondsToHoursMins | utilities/utilities.py:18-21 | The minutes are under 60. Hours and minutes account for the seconds to within one minute. |
| Utilities.HoursAreWholeHours | utilities/utilities.py:7-8 | The hours are the whole hours in the seconds. |
| Utilities.HoursMinsUnique | utilities/utilities.py:18-21 | Those bounds determine the result: any pair meeting them is the computed one. |
| Utilities.HoursMonotone | utilities/utilities.py:18-21 | More seconds never give fewer hours. |
| CorpusNames.LastComponent | run.py:139 | The name `pathlib` keeps is never ".". A non-empty result is a component after which every component is "" or ".", so it is the last kept one. The result is "" exactly when every component is "" or ".". |
| CorpusNames.Name | run.py:139 | No contract of its own: `Path(path).name` is the last kept component of the path split at '/'. Stated by `LastComponent` and `NameShape`. |
| CorpusNames.NameShape | run.py:139 | `Path(path).name` is never "." and holds no '/'. |
| CorpusNames.Stem | run.py:143 | No contract of its own: `Path(name).stem`. Stated by `StemShape` and `StemOfTxt`. |
| CorpusNames.StemShape | run.py:143 | `Path(name).stem` is a prefix of the name. When it is shorter, it is non-empty and a '.' follows it that is not the last character, with no further '.'. Conversely, a '.' that is neither the first nor the last character, with no '.' after it, always makes the stem shorter. |
| CorpusNames.FormatAudioMapping | run.py:138-139 | No contract of its own: "audio" joined with the file's name. Stated by `AudioMappingKeepsStem`. |
| CorpusNames.FormatTextMapping | run.py:142-143 | No contract of its own: "text" joined with the stem plus ".txt". Stated by `TextMappingNamesFile` and `TextMappingKeepsStem`. |
| CorpusNames.AudioMappingKeepsStem | run.py:138-139 | The rewritten audio entry has the same name as the original path. So `standardize_files` finds the same file. |
| CorpusNames.TextMappingNamesFile | run.py:142-143 | The rewritten text entry names the file `<stem>.txt`, where the stem is the original entry's. |
| CorpusNames.TextMappingKeepsStem | run.py:142-143 | The rewritten text entry has the same stem as the original path. |
| CorpusNames.NameOfJoined | run.py:139 | A slash-free component that `pathlib` keeps is the name of any path ending in it. |
| CorpusNames.StemOfTxt | run.py:143 | A non-empty stem with ".txt" added has that stem back. |
| CorpusNames.Decimal | run.py:186 | `str(n)` is digits only, with no leading zero. |
| CorpusNames.DecimalRoundTrip | run.py:186 | Reading back `str(n)` gives n. |
| CorpusNames.ParseLeadingZeros | run.py:186 | Leading zeros do not change the value. |
| CorpusNames.ZFill | run.py:186 | `zfill` pads to the width, and longer strings are kept. Zeros go on the left, after a leading sign, and the rest of the string is kept. |
| CorpusNames.NumberField | run.py:186-187 | No contract of its own: `str(n).zfill(6)`. Stated by `NumberFieldFacts`. |
| CorpusNames.NumberFieldFacts | run.py:186-187 | The number field is all digits, its length is the larger of six and the digit count, and it reads back as the number. |
| CorpusNames.StandardName | run.py:186-187 | No contract of its own: `<source>_<number field><extension>`. Stated by `StandardNameInjective` and `StandardNameStem`. |
| CorpusNames.StandardNameInjective | run.py:186-187 | Distinct file numbers give distinct standard names. |
| CorpusNames.StandardNameStem | run.py:186-187 | The stem of a standard name is `<source>_<number>`, whatever the extension. |
| CorpusNames.PlanRow | run.py:184-190 | No contract of its own: a row's two renames, from `<stem>.wav` and `<stem>.txt` to the standard names. Stated by `PlanStems` and `PlanFindsMappedFiles`. |
| CorpusNames.PlanStems | run.py:183-190 | The two renames of a row give the audio and the text file the same stem, `<source>_<number>`. |
| CorpusNames.PlanFindsMappedFiles | run.py:184-185 | For a row rewritten by the mapping formatters, the renames take the files named by the original entries: `<stem>.wav` and `<stem>.txt`. |
| CorpusNames.NumberedNamesStems | run.py:182-193 | Every row's new audio and text names share their stem. |
| CorpusNames.NumberedNamesDistinct | run.py:182-193 | Different rows get distinct new audio names and distinct new text names. |
| CorpusNames.StandardizeFiles | run.py:176-196 | The two lists of new names have one entry per row. Row i, counted from 0, gets number i + 1. Each row's new audio and text names share a stem. No two rows share a new name. |
| Text.Split | document_handler/document_to_text.py:161 | `str.split(sep)` gives at least one piece. Its meaning is stated by `SplitRoundTrip` (the pieces join back to the text), `SplitPiecesAvoidSep` (no piece holds the separator) and `SplitCutsLeftmost` (every cut is at the leftmost occurrence). Together these fix the pieces, also for a separator that overlaps itself, such as "..". |
| Text.SplitCutsLeftmost | document_handler/document_to_text.py:182 | Every cut of `split(sep)` is at the leftmost remaining occurrence: no occurrence of the separator starts inside a piece, even one that runs on into the separator after it. So "...." split at ".." gives "", "" and "", and never "." and ".". |
| Text.SplitJoin | document_handler/document_to_text.py:161-163 | For a one-character separator, splitting the joined pieces gives the pieces back when no piece holds the separator. |
| Text.Contains | document_handler/document_to_text.py:119 | No contract of its own: Python's `t in s`, an occurrence at some index, so "" is in every string. Stated by `FindSomeIffContains`, `ContainsChar` and `ContainsEmpty`. |
| Text.Join | document_handler/document_to_text.py:163 | No contract of its own: Python's `sep.join(parts)`. Stated by `SplitRoundTrip`, `SplitJoin` and `JoinSnoc`. |
| Text.SplitRoundTrip | document_handler/document_to_text.py:161-163 | Joining the result of `split(sep)` with `sep` gives back the string. |
| Text.ReplaceAll | document_handler/document_to_text.py:117 | `str.replace` never lengthens the text when the replacement is no longer than the pattern. Its meaning is stated by `ReplaceAllIsJoinOfSplit`. |
| Text.ReplaceAllIsJoinOfSplit | document_handler/document_to_text.py:117 | `replace(old, new)` with a non-empty `old` is `new.join(s.split(old))`. |
| Whitespace.Collapse | document_handler/document_to_text.py:118-121 | `" ".join(s.split())` is normalized, holds no tab and is no longer than the text. Its words are the text's words (`CollapseKeepsWords`), and those are fixed by the `Words` lemmas. |
| Whitespace.Words | document_handler/document_to_text.py:118 | `str.split()` with no argument: every piece is a non-empty run of non-whitespace. `WordsOfWord`, `WordsOfSpace` and `WordsAcrossSpace` fix which runs the pieces are, and in what order. |
| Whitespace.WordsOfWord | document_handler/document_to_text.py:118 | A single word splits into itself. |
| Whitespace.WordsOfSpace | document_handler/document_to_text.py:118 | All-whitespace text, "" included, has no words. |
| Whitespace.WordsAcrossSpace | document_handler/document_to_text.py:118 | A non-empty run of whitespace separates words: the words of `a + u + b` are the words of `a` followed by the words of `b`. |
| Whitespace.CollapseKeepsWords | document_handler/document_to_text.py:118 | `" ".join(s.split())` keeps the words of the text, in order. |
| Whitespace.CollapseIdempotent | document_handler/document_to_text.py:121 | Collapsing twice is collapsing once. |
| Whitespace.CollapseEmptyIff | document_handler/document_to_text.py:99-100 | A line collapses to "" exactly when it is all whitespace. Such lines are the ones `trim` drops when no item fires. |
| Whitespace.ContainsCollapse | document_handler/document_to_text.py:119-121 | A whitespace-free pattern found in the collapsed line was already in the line. |

## Left out

- The format readers (`text_from_presentation`, `text_from_pdf`, `text_from_docx`, document_to_text.py:38-84) call foreign libraries. A document enters the model as its extracted lines.
- `read_and_trim` on an unknown format trims whatever text the reader held from before. The model takes that text as the `lines` parameter.
- `save` opens and writes a file and reports `IOError`. Only the written content is modelled (`SaveContent`).
- The `os.rename` calls, the folder paths and the CSV reading and writing of `run.py` are file I/O and are not modelled. `StandardizeFiles` returns the two lists of new names. `PlanRow` gives the source and target names of a row's two renames.
- `standardize_files` numbers rows by the data frame index plus one. The model assumes the freshly read index 0, 1, 2, …
- `Utilities.SecondsToHoursMins`: takes whole, non-negative seconds and divides exactly. The source divides binary floating-point numbers and truncates with `int`. For very large inputs the rounding of `seconds / 60` changes the pair: for seconds = 3600·2^47 − 1 the source gives (2^47, 0), while the model gives (2^47 − 1, 59). Floating-point rounding, fractional seconds and negative seconds are not modelled.
- `CorpusNames.Name`: follows POSIX `pathlib`. Windows paths are not modelled.
- `CorpusNames.FormatAudioMapping` and `CorpusNames.FormatTextMapping` carry no contract of their own. Their properties are stated by `AudioMappingKeepsStem` and `TextMappingKeepsStem`, which assume the path has a name.
- `run.py` orchestration (`generate_folder_structure`, `generate_txt_files`, `generate_audio`, `map_and_standardize_filenames`, `main`), the RSS feed reader, the source handler, `setup.py` and the data-preparation script are outside this model.
- The whitespace set is CPython's `str.isspace`, listed explicitly. Unicode case and normalisation play no part in the core.

## Findings

| source | as written | input that shows it | evidently intended | confidence | as-written member | corrected member |
|---|---|---|---|---|---|---|
| document_handler/document_to_text.py:180-182 | Adds "." to the last unit, then replaces every ".." in it with ".". | A text ending in "Well..." comes back ending in "Well..", and an ellipsis inside the last unit is shortened too. | Add a period only when the last unit does not already end with one. | high (not executed) | DocumentReader.EllipsisAtEndLosesDot | DocumentReader.ConnectSentencesIntended |
| document_handler/document_to_text.py:159-163 | Replaces everything after the last '.' of the whole path with "txt". | "notes" becomes "txt", "out.d/text/README" becomes "out.txt", and the hidden file "d/.b" becomes "d/.txt". | Give the final component the extension ".txt", keeping the directories ("notes.txt", "out.d/text/README.txt"). | high (not executed) | DocumentReader.ToTxtPathCutsIntoDirectory | DocumentReader.ToTxtPathIntended |
