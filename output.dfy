/**
  The output side of `generate_output_files`: the names of the files it
  writes, the contents of the `txt` and `bitext` files, and the dispatch
  over the requested formats. The output folder is a map from file name to
  what was last written under that name.
 */
module Output {
  import opened Wrappers
  import opened Strings

  /** Index of the last `c` in `s`, or -1. */
  function LastIndexOf(s: string, c: char): (r: int)
    ensures r == -1 ==> c !in s
    ensures r != -1 ==> 0 <= r < |s| && s[r] == c && c !in s[r + 1..]
    decreases |s|
  {
    if s == [] then -1
    else if s[|s| - 1] == c then |s| - 1
    else
      assert s == s[..|s| - 1] + [s[|s| - 1]];
      LastIndexOf(s[..|s| - 1], c)
  }

  /** `os.path.splitext(name)[0]` for a bare file name (one without a
      directory separator): cut at the last `.`, unless only dots precede
      it, in which case the `.` starts a hidden name and nothing is cut. */
  function Stem(name: string): string
  {
    var dot := LastIndexOf(name, '.');
    if dot >= 0 && exists k | 0 <= k < dot :: name[k] != '.' then name[..dot] else name
  }

  /** For a `.tmx` file name, the stem is the name without `.tmx` exactly
      when something other than dots comes before the extension. */
  lemma StemOfTmxName(base: string)
    ensures Stem(base + ".tmx") == base <==> exists k :: 0 <= k < |base| && base[k] != '.'
    ensures (forall k :: 0 <= k < |base| ==> base[k] == '.') ==> Stem(base + ".tmx") == base + ".tmx"
  {
    var name := base + ".tmx";
    assert name[|base|] == '.';
    assert name[|base| + 1..] == "tmx";
    assert LastIndexOf(name, '.') == |base|;
    assert name[..|base|] == base;
    if exists k :: 0 <= k < |base| && base[k] != '.' {
      var k :| 0 <= k < |base| && base[k] != '.';
      assert name[k] == base[k];
    } else {
      assert |name| > |base|;
    }
  }

  /** `f"{stem}_{output_format}.{output_format}"`. */
  function OutputName(stem: string, format: string): string
  {
    stem + "_" + format + "." + format
  }

  /** `f"{stem}_{lang}.txt"`, one of the two `bitext` files. */
  function BitextName(stem: string, lang: string): string
  {
    stem + "_" + lang + ".txt"
  }

  /** Different formats get different file names. */
  lemma OutputNameInjective(stem: string, f: string, g: string)
    requires OutputName(stem, f) == OutputName(stem, g)
    ensures f == g
  {
    var n := OutputName(stem, f);
    assert |f| == |g|;
    assert f == n[|stem| + 1..|stem| + 1 + |f|];
    assert g == OutputName(stem, g)[|stem| + 1..|stem| + 1 + |g|];
  }

  /** A `bitext` file and the file of a `tsv`, `txt` or `csv` request share
      a name only for format `txt` and language code `txt`. */
  lemma BitextNameClash(stem: string, lang: string, format: string)
    requires format in ["tsv", "txt", "csv"]
    ensures BitextName(stem, lang) == OutputName(stem, format) <==> format == "txt" && lang == "txt"
  {
    if BitextName(stem, lang) == OutputName(stem, format) {
      var n := BitextName(stem, lang);
      assert |lang| == 3;
      assert n[|n| - 3..] == "txt" == format;
      assert lang == n[|stem| + 1..|stem| + 4] == "txt";
    }
  }

  /** How f-string formatting shows a selected text: the text itself, or
      `None` when the segment had no leading text. */
  function Show(text: Option<string>): string
  {
    match text
    case None => "None"
    case Some(t) => t
  }

  /** Python's `zip`: walk both lists together and stop at the end of the
      shorter one. The result has the shorter list's length, and pair `k`
      holds entry `k` of each list. */
  function Zip(source: seq<Option<string>>, target: seq<Option<string>>): (pairs: seq<(Option<string>, Option<string>)>)
    ensures |pairs| == if |source| < |target| then |source| else |target|
    ensures forall k :: 0 <= k < |pairs| ==> pairs[k] == (source[k], target[k])
    decreases |source|
  {
    if source == [] || target == [] then []
    else
      var rest := Zip(source[1..], target[1..]);
      assert forall k :: 1 <= k < |rest| + 1 ==> ([(source[0], target[0])] + rest)[k] == rest[k - 1];
      [(source[0], target[0])] + rest
  }

  /** One line of the `txt` file without its terminator:
      `f"{source}\t{target}"`. */
  function TxtLine(pair: (Option<string>, Option<string>)): string
  {
    Show(pair.0) + "\t" + Show(pair.1)
  }

  /** The `txt` file: every pair's line followed by `\n`. */
  function TxtContent(pairs: seq<(Option<string>, Option<string>)>): string
    decreases |pairs|
  {
    if pairs == [] then ""
    else TxtContent(pairs[..|pairs| - 1]) + TxtLine(pairs[|pairs| - 1]) + "\n"
  }

  lemma TxtContentAppend(pairs: seq<(Option<string>, Option<string>)>, pair: (Option<string>, Option<string>))
    ensures TxtContent(pairs + [pair]) == TxtContent(pairs) + TxtLine(pair) + "\n"
  {
    assert (pairs + [pair])[..|pairs|] == pairs;
  }

  /** The `txt` file of two pairs. */
  lemma TxtContentTwo(p1: (Option<string>, Option<string>), p2: (Option<string>, Option<string>))
    ensures TxtContent([p1, p2]) == TxtLine(p1) + "\n" + TxtLine(p2) + "\n"
  {
    TxtContentAppend([], p1);
    assert [] + [p1] == [p1];
    TxtContentAppend([p1], p2);
    assert [p1] + [p2] == [p1, p2];
  }

  /** The `txt` branch: `for source, target in zip(...): write(...)`. */
  method WriteTxt(sourceTexts: seq<Option<string>>, targetTexts: seq<Option<string>>) returns (content: string)
    ensures content == TxtContent(Zip(sourceTexts, targetTexts))
  {
    var pairs := Zip(sourceTexts, targetTexts);
    content := "";
    for i := 0 to |pairs|
      invariant content == TxtContent(pairs[..i])
    {
      assert pairs[..i + 1][..i] == pairs[..i];
      content := content + TxtLine(pairs[i]) + "\n";
    }
    assert pairs[..|pairs|] == pairs;
  }

  /** The lines of the `txt` file for the given pairs. */
  function TxtLines(pairs: seq<(Option<string>, Option<string>)>): seq<string>
  {
    seq(|pairs|, k requires 0 <= k < |pairs| => TxtLine(pairs[k]))
  }

  lemma {:induction false} TxtContentIsJoin(pairs: seq<(Option<string>, Option<string>)>)
    ensures TxtContent(pairs) == Join(TxtLines(pairs) + [""], '\n')
    decreases |pairs|
  {
    if pairs != [] {
      var init := pairs[..|pairs| - 1];
      var line := TxtLine(pairs[|pairs| - 1]);
      TxtContentIsJoin(init);
      var before := TxtLines(init);
      assert TxtLines(pairs) == before + [line];
      var whole := before + [line] + [""];
      assert whole[..|whole| - 1] == before + [line];
      if before == [] {
        assert (before + [line])[..0] == [];
      } else {
        var prev := before + [""];
        assert prev[..|prev| - 1] == before;
        assert (before + [line])[..|before|] == before;
      }
    }
  }

  /** The `txt` file has exactly min(|source|, |target|) lines, line `k`
      being `f"{source[k]}\t{target[k]}"`: splitting it on `\n` gives those
      lines and the empty remainder after the last terminator, provided no
      shown text holds a line feed itself. */
  lemma TxtContentLines(sourceTexts: seq<Option<string>>, targetTexts: seq<Option<string>>)
    requires forall k :: 0 <= k < |sourceTexts| ==> '\n' !in Show(sourceTexts[k])
    requires forall k :: 0 <= k < |targetTexts| ==> '\n' !in Show(targetTexts[k])
    ensures var lines := Split(TxtContent(Zip(sourceTexts, targetTexts)), '\n');
      && |lines| == (if |sourceTexts| < |targetTexts| then |sourceTexts| else |targetTexts|) + 1
      && lines[|lines| - 1] == ""
      && forall k :: 0 <= k < |lines| - 1 ==> lines[k] == Show(sourceTexts[k]) + "\t" + Show(targetTexts[k])
  {
    var pairs := Zip(sourceTexts, targetTexts);
    TxtContentIsJoin(pairs);
    var parts := TxtLines(pairs) + [""];
    forall k | 0 <= k < |parts|
      ensures '\n' !in parts[k]
    {
      if k < |pairs| {
        assert parts[k] == Show(sourceTexts[k]) + "\t" + Show(targetTexts[k]);
      }
    }
    SplitJoin(parts, '\n');
  }

  /** `[str(text) for text in texts if text is not None]`. */
  function Present(texts: seq<Option<string>>): seq<string>
    decreases |texts|
  {
    if texts == [] then []
    else
      var last := texts[|texts| - 1];
      Present(texts[..|texts| - 1]) + (if last.Some? then [last.value] else [])
  }

  lemma {:induction false} PresentAppend(a: seq<Option<string>>, b: seq<Option<string>>)
    ensures Present(a + b) == Present(a) + Present(b)
    decreases |b|
  {
    if b == [] {
      assert a + b == a;
    } else {
      assert (a + b)[..|a + b| - 1] == a + b[..|b| - 1];
      PresentAppend(a, b[..|b| - 1]);
    }
  }

  lemma PresentOne(text: Option<string>)
    ensures Present([text]) == if text.Some? then [text.value] else []
  {
    assert [text][..0] == [];
  }

  /** The kept texts of two and of three entries. */
  lemma PresentShort(x: Option<string>, y: Option<string>, z: Option<string>)
    ensures Present([x, y]) == Present([x]) + Present([y])
    ensures Present([x, y, z]) == Present([x]) + Present([y]) + Present([z])
  {
    assert [x, y] == [x] + [y];
    PresentAppend([x], [y]);
    assert [x, y, z] == [x, y] + [z];
    PresentAppend([x, y], [z]);
  }

  /** The kept texts are exactly the present ones, in their order, and one
      fewer for every `None`. */
  lemma {:induction false} PresentMembers(texts: seq<Option<string>>)
    ensures forall t :: t in Present(texts) <==> Some(t) in texts
    ensures |Present(texts)| + NoneCount(texts) == |texts|
    decreases |texts|
  {
    if texts != [] {
      var init := texts[..|texts| - 1];
      PresentMembers(init);
      assert texts == init + [texts[|texts| - 1]];
    }
  }

  /** The number of `None` entries. */
  function NoneCount(texts: seq<Option<string>>): nat
    decreases |texts|
  {
    if texts == [] then 0
    else NoneCount(texts[..|texts| - 1]) + (if texts[|texts| - 1].None? then 1 else 0)
  }

  /** One `bitext` file: the present texts joined by `\n`, with no newline
      after the last one. */
  function BitextContent(texts: seq<Option<string>>): string
  {
    Join(Present(texts), '\n')
  }

  /** Splitting a `bitext` file on `\n` gives back the present texts, one
      per line, when at least one is present and none holds a line feed;
      with none present the file is empty. */
  lemma BitextContentLines(texts: seq<Option<string>>)
    requires forall k :: 0 <= k < |texts| && texts[k].Some? ==> '\n' !in texts[k].value
    ensures Present(texts) != [] ==> Split(BitextContent(texts), '\n') == Present(texts)
    ensures Present(texts) == [] ==> BitextContent(texts) == ""
  {
    PresentMembers(texts);
    var kept := Present(texts);
    forall k | 0 <= k < |kept|
      ensures '\n' !in kept[k]
    {
      assert kept[k] in kept;
      var j :| 0 <= j < |texts| && texts[j] == Some(kept[k]);
    }
    if kept != [] {
      SplitJoin(kept, '\n');
    }
  }

  /** What is written under one name: literal text, or the rows handed to
      `csv.writer(...).writerows` with the writer's delimiter and line
      terminator (the quoting is the `csv` library's). */
  datatype Content =
    | Text(text: string)
    | Rows(delimiter: char, terminator: string, rows: seq<(Option<string>, Option<string>)>)

  /** The outcome of one requested format: written files in write order, or
      an unsupported-format report. */
  datatype FormatResult =
    | Files(files: seq<(string, Content)>)
    | Unsupported(notice: string)

  const SUPPORTED_FORMATS: seq<string> := ["tsv", "txt", "csv", "bitext"]

  /** One iteration of the loop over `output_formats`. */
  function Format(stem: string, sourceLang: string, targetLang: string,
                  sourceTexts: seq<Option<string>>, targetTexts: seq<Option<string>>,
                  format: string): (r: FormatResult)
  {
    var pairs := Zip(sourceTexts, targetTexts);
    if format == "tsv" then Files([(OutputName(stem, format), Rows('\t', "\n", pairs))])
    else if format == "txt" then Files([(OutputName(stem, format), Text(TxtContent(pairs)))])
    else if format == "csv" then Files([(OutputName(stem, format), Rows(',', "\r\n", pairs))])
    else if format == "bitext" then
      Files([(BitextName(stem, sourceLang), Text(BitextContent(sourceTexts))),
             (BitextName(stem, targetLang), Text(BitextContent(targetTexts)))])
    else Unsupported("Unsupported output format: " + format)
  }

  /** A format is handled exactly when it is one of the four exact,
      lower-case, untrimmed strings; any other writes nothing and reports
      itself. */
  lemma FormatSupported(stem: string, sourceLang: string, targetLang: string,
                        sourceTexts: seq<Option<string>>, targetTexts: seq<Option<string>>,
                        format: string)
    ensures Format(stem, sourceLang, targetLang, sourceTexts, targetTexts, format).Files?
      <==> format in SUPPORTED_FORMATS
    ensures format !in SUPPORTED_FORMATS ==>
      Format(stem, sourceLang, targetLang, sourceTexts, targetTexts, format)
        == Unsupported("Unsupported output format: " + format)
  {
  }

  /** Write files one after another; a later file replaces an earlier one
      of the same name. */
  function WriteAll(folder: map<string, Content>, files: seq<(string, Content)>): map<string, Content>
    decreases |files|
  {
    if files == [] then folder
    else WriteAll(folder[files[0].0 := files[0].1], files[1..])
  }

  lemma WriteOne(folder: map<string, Content>, a: (string, Content))
    ensures WriteAll(folder, [a]) == folder[a.0 := a.1]
  {
    assert [a][1..] == [];
  }

  lemma WriteTwo(folder: map<string, Content>, a: (string, Content), b: (string, Content))
    ensures WriteAll(folder, [a, b]) == folder[a.0 := a.1][b.0 := b.1]
  {
    assert [a, b][1..] == [b];
    WriteOne(folder[a.0 := a.1], b);
  }

  /** The output folder after handling the formats in order. */
  function AfterFormats(folder: map<string, Content>, stem: string, sourceLang: string, targetLang: string,
                        sourceTexts: seq<Option<string>>, targetTexts: seq<Option<string>>,
                        formats: seq<string>): map<string, Content>
    decreases |formats|
  {
    if formats == [] then folder
    else
      var before := AfterFormats(folder, stem, sourceLang, targetLang, sourceTexts, targetTexts,
                                 formats[..|formats| - 1]);
      match Format(stem, sourceLang, targetLang, sourceTexts, targetTexts, formats[|formats| - 1])
      case Files(files) => WriteAll(before, files)
      case Unsupported(_) => before
  }

  /** The reports of the unsupported formats, in request order. */
  function Notices(formats: seq<string>): seq<string>
    decreases |formats|
  {
    if formats == [] then []
    else
      var last := formats[|formats| - 1];
      Notices(formats[..|formats| - 1])
        + (if last in SUPPORTED_FORMATS then [] else ["Unsupported output format: " + last])
  }

  /** The format loop of `generate_output_files` for one `.tmx` file, after
      the texts have been selected. */
  method GenerateOutputs(folder: map<string, Content>, file: string, sourceLang: string, targetLang: string,
                         sourceTexts: seq<Option<string>>, targetTexts: seq<Option<string>>,
                         outputFormats: seq<string>)
    returns (written: map<string, Content>, notices: seq<string>)
    ensures written == AfterFormats(folder, Stem(file), sourceLang, targetLang, sourceTexts, targetTexts, outputFormats)
    ensures notices == Notices(outputFormats)
  {
    var stem := Stem(file);
    written, notices := folder, [];
    for i := 0 to |outputFormats|
      invariant written == AfterFormats(folder, stem, sourceLang, targetLang, sourceTexts, targetTexts, outputFormats[..i])
      invariant notices == Notices(outputFormats[..i])
    {
      var outputFormat := outputFormats[i];
      assert outputFormats[..i + 1][..i] == outputFormats[..i];
      var outputFilename := OutputName(stem, outputFormat);
      if outputFormat == "tsv" {
        WriteOne(written, (outputFilename, Rows('\t', "\n", Zip(sourceTexts, targetTexts))));
        written := written[outputFilename := Rows('\t', "\n", Zip(sourceTexts, targetTexts))];
      } else if outputFormat == "txt" {
        var content := WriteTxt(sourceTexts, targetTexts);
        WriteOne(written, (outputFilename, Text(content)));
        written := written[outputFilename := Text(content)];
      } else if outputFormat == "csv" {
        WriteOne(written, (outputFilename, Rows(',', "\r\n", Zip(sourceTexts, targetTexts))));
        written := written[outputFilename := Rows(',', "\r\n", Zip(sourceTexts, targetTexts))];
      } else if outputFormat == "bitext" {
        var sourceFileName := BitextName(stem, sourceLang);
        var targetFileName := BitextName(stem, targetLang);
        WriteTwo(written, (sourceFileName, Text(BitextContent(sourceTexts))), (targetFileName, Text(BitextContent(targetTexts))));
        written := written[sourceFileName := Text(BitextContent(sourceTexts))];
        written := written[targetFileName := Text(BitextContent(targetTexts))];
      } else {
        notices := notices + ["Unsupported output format: " + outputFormat];
      }
    }
    assert outputFormats[..|outputFormats|] == outputFormats;
  }

  /** The names one format writes under. */
  function FormatNames(stem: string, sourceLang: string, targetLang: string, format: string): set<string>
  {
    if format in ["tsv", "txt", "csv"] then {OutputName(stem, format)}
    else if format == "bitext" then {BitextName(stem, sourceLang), BitextName(stem, targetLang)}
    else {}
  }

  lemma FormatKeys(folder: map<string, Content>, stem: string, sourceLang: string, targetLang: string,
                   sourceTexts: seq<Option<string>>, targetTexts: seq<Option<string>>, format: string)
    ensures (match Format(stem, sourceLang, targetLang, sourceTexts, targetTexts, format)
             case Files(files) => WriteAll(folder, files)
             case Unsupported(_) => folder).Keys
      == folder.Keys + FormatNames(stem, sourceLang, targetLang, format)
  {
    var pairs := Zip(sourceTexts, targetTexts);
    var name := OutputName(stem, format);
    if format == "tsv" {
      WriteOne(folder, (name, Rows('\t', "\n", pairs)));
    } else if format == "txt" {
      WriteOne(folder, (name, Text(TxtContent(pairs))));
    } else if format == "csv" {
      WriteOne(folder, (name, Rows(',', "\r\n", pairs)));
    } else if format == "bitext" {
      WriteTwo(folder, (BitextName(stem, sourceLang), Text(BitextContent(sourceTexts))),
               (BitextName(stem, targetLang), Text(BitextContent(targetTexts))));
    }
  }

  lemma {:induction false} WriteAllElsewhere(folder: map<string, Content>, files: seq<(string, Content)>, name: string)
    requires forall k :: 0 <= k < |files| ==> files[k].0 != name
    ensures name in WriteAll(folder, files) <==> name in folder
    ensures name in folder ==> WriteAll(folder, files)[name] == folder[name]
    decreases |files|
  {
    if files != [] {
      WriteAllElsewhere(folder[files[0].0 := files[0].1], files[1..], name);
    }
  }

  /** Exactly the files of the supported requested formats are added to the
      folder; the unsupported ones write nothing. */
  lemma {:induction false} AfterFormatsKeys(folder: map<string, Content>, stem: string, sourceLang: string, targetLang: string,
                                            sourceTexts: seq<Option<string>>, targetTexts: seq<Option<string>>,
                                            formats: seq<string>, name: string)
    ensures name in AfterFormats(folder, stem, sourceLang, targetLang, sourceTexts, targetTexts, formats)
      <==> name in folder || exists k :: 0 <= k < |formats| && name in FormatNames(stem, sourceLang, targetLang, formats[k])
    decreases |formats|
  {
    if formats != [] {
      var init := formats[..|formats| - 1];
      var last := formats[|formats| - 1];
      AfterFormatsKeys(folder, stem, sourceLang, targetLang, sourceTexts, targetTexts, init, name);
      var before := AfterFormats(folder, stem, sourceLang, targetLang, sourceTexts, targetTexts, init);
      FormatKeys(before, stem, sourceLang, targetLang, sourceTexts, targetTexts, last);
      assert forall k :: 0 <= k < |init| ==> init[k] == formats[k];
    }
  }

  /** No `bitext` request after position `i` writes a file for a language
      coded `txt`. */
  predicate NoTxtBitextAfter(formats: seq<string>, i: nat, sourceLang: string, targetLang: string)
  {
    forall j :: i < j < |formats| && formats[j] == "bitext" ==> sourceLang != "txt" && targetLang != "txt"
  }

  /** The `txt` file holds the `txt` layout of the selected texts whenever
      `txt` was requested and no `bitext` request for a language coded
      `txt` came after that request. */
  lemma {:induction false} TxtFileContent(folder: map<string, Content>, stem: string, sourceLang: string, targetLang: string,
                                          sourceTexts: seq<Option<string>>, targetTexts: seq<Option<string>>,
                                          formats: seq<string>)
    requires exists i :: 0 <= i < |formats| && formats[i] == "txt" && NoTxtBitextAfter(formats, i, sourceLang, targetLang)
    ensures var written := AfterFormats(folder, stem, sourceLang, targetLang, sourceTexts, targetTexts, formats);
      && OutputName(stem, "txt") in written
      && written[OutputName(stem, "txt")] == Text(TxtContent(Zip(sourceTexts, targetTexts)))
    decreases |formats|
  {
    var name := OutputName(stem, "txt");
    var init := formats[..|formats| - 1];
    var last := formats[|formats| - 1];
    assert formats == init + [last];
    var before := AfterFormats(folder, stem, sourceLang, targetLang, sourceTexts, targetTexts, init);
    if last == "txt" {
      WriteOne(before, (name, Text(TxtContent(Zip(sourceTexts, targetTexts)))));
    } else {
      var i :| 0 <= i < |formats| && formats[i] == "txt" && NoTxtBitextAfter(formats, i, sourceLang, targetLang);
      assert i < |init| && init[i] == "txt";
      assert NoTxtBitextAfter(init, i, sourceLang, targetLang) by {
        assert forall j :: 0 <= j < |init| ==> init[j] == formats[j];
      }
      TxtFileContent(folder, stem, sourceLang, targetLang, sourceTexts, targetTexts, init);
      if last == "bitext" {
        assert formats[|formats| - 1] == "bitext";
      }
      OtherFormatKeepsTxt(before, stem, sourceLang, targetLang, sourceTexts, targetTexts, last);
    }
  }

  /** A request other than `txt` leaves the `txt` file alone, unless it is a
      `bitext` request for a language coded `txt`. */
  lemma OtherFormatKeepsTxt(before: map<string, Content>, stem: string, sourceLang: string, targetLang: string,
                            sourceTexts: seq<Option<string>>, targetTexts: seq<Option<string>>, format: string)
    requires format != "txt"
    requires format == "bitext" ==> sourceLang != "txt" && targetLang != "txt"
    ensures var name := OutputName(stem, "txt");
      var after := match Format(stem, sourceLang, targetLang, sourceTexts, targetTexts, format)
                   case Files(files) => WriteAll(before, files)
                   case Unsupported(_) => before;
      (name in after <==> name in before) && (name in before ==> after[name] == before[name])
  {
    var name := OutputName(stem, "txt");
    match Format(stem, sourceLang, targetLang, sourceTexts, targetTexts, format)
    case Files(files) =>
      forall k | 0 <= k < |files|
        ensures files[k].0 != name
      {
        if format == "bitext" {
          BitextNameClash(stem, sourceLang, "txt");
          BitextNameClash(stem, targetLang, "txt");
        } else if files[k].0 == name {
          OutputNameInjective(stem, format, "txt");
        }
      }
      WriteAllElsewhere(before, files, name);
    case Unsupported(_) =>
  }

  /** Requests made of unsupported formats only leave the folder as it was. */
  lemma {:induction false} UnsupportedWritesNothing(folder: map<string, Content>, stem: string, sourceLang: string, targetLang: string,
                                                    sourceTexts: seq<Option<string>>, targetTexts: seq<Option<string>>,
                                                    formats: seq<string>)
    requires forall k :: 0 <= k < |formats| ==> formats[k] !in SUPPORTED_FORMATS
    ensures AfterFormats(folder, stem, sourceLang, targetLang, sourceTexts, targetTexts, formats) == folder
    ensures |Notices(formats)| == |formats|
    decreases |formats|
  {
    if formats != [] {
      UnsupportedWritesNothing(folder, stem, sourceLang, targetLang, sourceTexts, targetTexts, formats[..|formats| - 1]);
    }
  }

  /** `input(...).split(',')`: the requested formats, neither trimmed nor
      lower-cased. */
  function ParseFormats(line: string): seq<string>
  {
    Split(line, ',')
  }

  /** The format line is split at every comma and nothing else: a space
      after a comma stays in the next format, which is then unsupported, as
      is an upper-case spelling. */
  lemma FormatsAreNotNormalised(first: string, second: string)
    requires ',' !in first && ',' !in second
    ensures ParseFormats(first + ", " + second) == [first, " " + second]
    ensures " " + second !in SUPPORTED_FORMATS
    ensures "CSV" !in SUPPORTED_FORMATS && "TXT" !in SUPPORTED_FORMATS
  {
    var right := " " + second;
    assert first + ", " + second == first + [','] + right;
    SplitAround(first, right, ',');
    assert ',' !in right by {
      assert forall k :: 1 <= k < |right| ==> right[k] == second[k - 1];
    }
    SplitWithoutSeparator(first, ',');
    SplitWithoutSeparator(right, ',');
  }
}
