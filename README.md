# TMXconverter in Dafny

TMXconverter.py turns Translation Memory eXchange (TMX) files into flat
files. It has three steps for every `.tmx` file in a directory tree:

1. It deletes 32 literal numeric character references, `&#x0;` to `&#x1F;`,
   from the file's text and writes the text back over the file.
2. It parses the file as XML and collects the leading text of every `seg`
   under a `tuv` whose `xml:lang` is the source language. It does the same,
   separately, for the target language.
3. It writes one output file per requested format (`tsv`, `txt`, `csv`) or
   two files (`bitext`). A format it does not know is reported instead.

The model is split into these modules:

- `Wrappers` (`wrappers.dfy`): `Option`, standing for Python's `None` or a
  present value.
- `Strings` (`strings.dfy`): substring occurrence, subsequences, and
  `str.split` / `str.join` on a single character, with their round trips.
- `Sanitizer` (`sanitizer.dfy`): `str.replace(p, "")` as `RemoveAll`, the
  replace loop `find_and_replace` as the method `FindAndReplace`, the list
  of 32 references, and what the passes do and do not remove.
- `Selection` (`selection.dfy`): the TMX body reduced to what the two
  `findall` queries look at, that is units, variants with their optional
  `xml:lang`, and segments with their optional leading text. It also holds
  the two collecting loops.
- `Output` (`output.dfy`): output file names, the `txt` and `bitext`
  contents, and the loop over requested formats. The output folder is a map
  from file name to the content last written under that name.
- `Converter` (`converter.dfy`): a file on disk as a class whose text is
  overwritten in place, plus `preprocess_tmx_file`, `parse_tmx_file` and
  the handling of one file found by the walk. It also holds example
  documents that show how the selection behaves.

The XML parser is a parameter `parse: string -> Option<seq<Tu>>`. It maps
a text to the translation units of its body, and returns `None` where
`ET.parse` would raise `ParseError`.

The model follows the code as written:

- Language codes are compared by exact, case-sensitive equality.
- Every pair is written as it is: none is dropped or trimmed, and a line
  feed inside a text is written unescaped.
- The source and target lists are built independently and need not line
  up.
- The `bitext` files are named `<stem>_<lang>.txt`.
- Requested formats are used as typed, without trimming or lower-casing.
- A `ParseError` is not caught. It ends the whole run, after the failing
  file has already been rewritten.
- The file is read in text mode with universal newlines, so `\r\n` and a
  lone `\r` are read as `\n` (`Converter.ReadText`), and the rewrite
  stores those line ends as `\n`.

## Model

| member | source | states |
|---|---|---|
| Sanitizer.FindAndReplace | TMXconverter.py:6-9 | the loop performs one `replace(p, "")` pass per pattern, in list order; the result is a subsequence of the text and never longer; it equals the text exactly when no non-empty pattern occurs in it |
| Sanitizer.RemoveAllLength | TMXconverter.py:8 | one pass shortens the text by the pattern's length times the number of non-overlapping occurrences it deletes, so it never lengthens it |
| Sanitizer.RemoveAllUnchanged | TMXconverter.py:8 | one pass leaves the text unchanged exactly when the pattern is empty or does not occur; otherwise the text gets strictly shorter |
| Sanitizer.RemoveAllSubsequence | TMXconverter.py:8 | what one pass keeps is a subsequence of its input: the characters outside deleted occurrences, in order |
| Sanitizer.RemoveEachSubsequence | TMXconverter.py:7-8 | all passes together keep a subsequence of the input and never lengthen it |
| Sanitizer.RemoveEachShortens | TMXconverter.py:7-8 | the passes either leave the text as it is or make it strictly shorter |
| Sanitizer.RemoveEachUnchanged | TMXconverter.py:6-9 | the passes leave the text unchanged exactly when none of the non-empty patterns occurs in it |
| Sanitizer.RemoveEachConcat | TMXconverter.py:7-8 | running the passes for a list in two batches gives the same as running them all |
| Sanitizer.ControlCharRefsSpelling | TMXconverter.py:24-29 | the list has 32 entries, and entry n is the reference to code point n: `&#x`, upper-case hexadecimal without leading zeros, `;` |
| Sanitizer.ControlCharRefsCoverForbidden | TMXconverter.py:24-29 | every C0 code point that the `Char` production of XML 1.0 excludes has its reference on the list; among the listed code points, exactly tab, line feed and carriage return are legal XML characters |
| Sanitizer.OtherSpellingsSurvive | TMXconverter.py:24-29 | a text in which no `&#x` is followed by a digit or `A`-`F` passes the sanitizer unchanged |
| Sanitizer.LowerCaseAndDecimalSurvive | TMXconverter.py:24-29 | `&#xa;` and `&#10;` pass the sanitizer unchanged |
| Sanitizer.SanitizeNotIdempotent | TMXconverter.py:16-30 | one run on `&#x&#x1;1;` leaves `&#x1;`, which a second run deletes, so the output can still hold a listed reference |
| Sanitizer.DeletionJoinsReference | TMXconverter.py:17 | deleting `&#x1;` from `&#x&#x1;1;` joins the surrounding characters into `&#x1;` |
| Converter.ReadText | TMXconverter.py:12-13 | a universal-newline read returns a text without carriage returns, no longer than the stored text, and equal to it exactly when the stored text has no carriage return |
| Converter.PreprocessTmxFile | TMXconverter.py:12-20 | the file's new text is the result of the same per-pattern passes as `find_and_replace`, applied to the text as read; it is a subsequence of the text as read, and it differs from the stored text exactly when the stored text has a carriage return or a pattern occurred |
| Converter.ParseTmxFile | TMXconverter.py:23-48 | the file is read with universal newlines and sanitized with the 32 references before parsing; a parse failure gives no lists; otherwise the two lists are the selections for the source and the target language in the sanitized document |
| Converter.ConvertFile | TMXconverter.py:57-92 | a file whose name does not end in `.tmx` is left alone and nothing is written; a `.tmx` file is sanitized, and a parse failure writes nothing; a `.tmx` file that parses adds the files of every requested format and the notices of the unsupported ones |
| Selection.CollectTexts | TMXconverter.py:40-42 | the loop yields one entry per found segment, in order, each the segment's leading text or `None` |
| Selection.SelectTexts | TMXconverter.py:40-46 | the two lists are the leading texts of the segments of the variants whose `xml:lang` equals the source, respectively the target, language |
| Selection.FindAllMembers | TMXconverter.py:40-44 | a segment is found exactly when it is a child of some variant whose `xml:lang` equals the requested code; a variant without `xml:lang` never matches |
| Selection.SelectedMembers | TMXconverter.py:40-46 | a value is in the list exactly when some segment of a matching variant has it as its leading text |
| Selection.SelectedAppend | TMXconverter.py:40-46 | the selection follows document order: a body split in two selects the first part's texts, then the second's |
| Selection.FindAllAppend | TMXconverter.py:40-44 | the segments of a concatenation of variants are those of the first part followed by those of the second |
| Selection.TuvsAppend | TMXconverter.py:40-44 | the variants of a concatenation of units are those of the first part followed by those of the second |
| Selection.BalancedUnitsGiveEqualLengths | TMXconverter.py:40-48 | the two lists have the same length when every unit holds as many matching segments for the source as for the target language |
| Converter.MissingVariantShiftsPairs | TMXconverter.py:40-89 | when the middle of three units has no source variant, the source list has two entries and the target list three; the `txt` file pairs the third source with the second target; the `bitext` files get two and three lines |
| Converter.InlineMarkupIsDropped | TMXconverter.py:41-86 | only a segment's leading text is kept; a segment that starts with inline markup yields `None`, which `txt` shows as `None` and `bitext` drops |
| Converter.LanguageCodesMatchExactly | TMXconverter.py:40-44 | asking for `en` selects neither `en-US` nor `EN` nor a variant without `xml:lang`; a variant tagged `en` contributes all its segments' texts |
| Output.StemOfTmxName | TMXconverter.py:63 | `splitext` removes `.tmx` from a name exactly when something other than dots precedes the extension; a name made of dots and `.tmx` keeps the extension |
| Output.LastIndexOf | TMXconverter.py:63 | the result is -1 when the character is absent, and otherwise the index of its last occurrence |
| Output.OutputNameInjective | TMXconverter.py:63 | different formats get different file names for the same stem |
| Output.BitextNameClash | TMXconverter.py:63-80 | a `bitext` file and a `tsv`, `txt` or `csv` file share a name exactly when the format is `txt` and the language code is `txt` |
| Output.Zip | TMXconverter.py:72 | walking both lists together as `zip` does gives as many pairs as the shorter list has entries, pair k holding entry k of each list |
| Output.WriteTxt | TMXconverter.py:71-73 | the loop writes, for every pair of `zip(source, target)` in order, the line `f"{source}\t{target}\n"` |
| Output.TxtContentIsJoin | TMXconverter.py:72-73 | the `txt` file is its lines joined by line feeds, followed by a final line feed |
| Output.TxtContentLines | TMXconverter.py:72-73 | splitting the `txt` file on line feeds gives exactly min(source, target) lines, line k showing source k and target k with `None` as `None`, then an empty remainder; this holds when no text contains a line feed |
| Output.PresentAppend | TMXconverter.py:86-89 | keeping the present texts of two lists one after the other is keeping those of their concatenation |
| Output.PresentMembers | TMXconverter.py:86-89 | a text is kept exactly when it is present in the list; the kept texts and the `None` entries together account for the whole list |
| Output.BitextContentLines | TMXconverter.py:86-89 | a `bitext` file split on line feeds gives exactly the present texts in order, with no trailing newline; the file is empty when none is present; this holds when no text contains a line feed |
| Output.FormatSupported | TMXconverter.py:66-92 | a format produces files exactly when it is one of `tsv`, `txt`, `csv`, `bitext`; any other yields the notice `Unsupported output format: <format>` |
| Output.GenerateOutputs | TMXconverter.py:62-92 | the loop leaves the folder as every requested format handled in request order would, and reports the unsupported formats in order |
| Output.FormatKeys | TMXconverter.py:62-92 | one format adds exactly its own file names to the folder: one for `tsv`, `txt` and `csv`, the two language files for `bitext`, none for other formats |
| Output.WriteAllElsewhere | TMXconverter.py:67-89 | writing files under other names leaves a name's presence and content alone |
| Output.AfterFormatsKeys | TMXconverter.py:62-92 | after the loop, a name is in the folder exactly when it was there before or belongs to one of the requested formats |
| Output.TxtFileContent | TMXconverter.py:62-89 | when `txt` is requested and no `bitext` request for a language coded `txt` comes after that request, the `txt` file holds the `txt` layout of the selected texts |
| Output.UnsupportedWritesNothing | TMXconverter.py:91-92 | requesting only unsupported formats leaves the folder unchanged and gives one notice per request |
| Output.FormatsAreNotNormalised | TMXconverter.py:99 | splitting `a, b` on commas gives `a` and ` b` with the space kept, and a format with a leading space or in upper case is not supported |
| Strings.SplitJoin | TMXconverter.py:86-89 | splitting a join on the separator gives back the parts when no part contains the separator |
| Strings.JoinSplit | TMXconverter.py:86-99 | joining a split gives back the string |
| Strings.SplitAround | TMXconverter.py:99 | a separator cuts the split into the splits of its two sides |

## Left out

- Reading and writing files, `os.walk`, `os.makedirs` and `os.path.join` are I/O. The file is a `TmxFile` object whose text is rewritten in place. The output folder is a map from base name to content. The walk is left out, and `Converter.ConvertFile` handles one file it yields. The walk never meets one of the outputs as a `.tmx` file, because only the supported formats write files, and their names end in `.tsv`, `.txt` or `.csv`.
- `ET.parse` and the evaluation of XPath are library code. The parser is a parameter. The two queries become `Selection.FindAll` over an abstract body. This abstraction does not model a language code containing `'`, which makes the query malformed, or a `tuv` nested inside another element's `tuv`.
- The `tsv` and `csv` contents are kept as the rows handed to `csv.writer` together with its delimiter and line terminator. The `csv` module's quoting is not modelled.
- `input()` prompting and the `print` of unsupported formats and of completion are UI. The notices are returned as strings, and `Output.ParseFormats` models the split of the format line.
- `Output.Stem` models `os.path.splitext` for a bare POSIX file name only (no directory part, `/` as separator), which is what the walk passes.
- Output.TxtContentLines: holds only for texts without line feeds, because the code writes a line feed inside a text unescaped, which then splits that line.
- Output.BitextContentLines: holds only for texts without line feeds, for the same reason.
- Converter.PreprocessTmxFile: models the write back on POSIX, where a text-mode write stores `\n` unchanged; on a platform whose line separator is `\r\n` the written text would differ. The same holds for the text-mode writes of the `txt` and `bitext` files (TMXconverter.py:71-88).
- Failures of `open` or `write` are not modelled. Neither is the text encoding (`utf-8`), since strings are sequences of characters.
