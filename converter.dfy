/**
  The per-file steps of TMXconverter.py: `preprocess_tmx_file` rewrites a
  TMX file in place, `parse_tmx_file` sanitizes, parses and selects the two
  text lists, and the body of the walk in `generate_output_files` converts
  one `.tmx` file into the requested formats.

  `ET.parse` is a parameter: a function from the file's text to the
  translation units of its body, or `None` where it raises `ParseError`.
 */
module Converter {
  import opened Wrappers
  import opened Strings
  import opened Sanitizer
  import opened Selection
  import opened Output

  /** A file found by the walk: its base name and its text, which the
      preprocessing step overwrites. */
  class TmxFile {
    const name: string
    var content: string

    constructor (name: string, content: string)
      ensures this.name == name && this.content == content
    {
      this.name := name;
      this.content := content;
    }
  }

  /** What `open(path, "r")` followed by `read()` returns in Python's
      universal-newline mode: every `\r\n` and every lone `\r` comes back as
      `\n`. The result has no carriage return and is the text itself
      exactly when the text has none. */
  function ReadText(raw: string): (text: string)
    ensures '\r' !in text
    ensures text == raw <==> '\r' !in raw
    ensures |text| <= |raw|
    decreases |raw|
  {
    if raw == [] then []
    else if raw[0] == '\r' then
      if |raw| >= 2 && raw[1] == '\n' then ['\n'] + ReadText(raw[2..]) else ['\n'] + ReadText(raw[1..])
    else
      assert raw == [raw[0]] + raw[1..];
      [raw[0]] + ReadText(raw[1..])
  }

  /** `preprocess_tmx_file(file_path, chars_to_replace)`: read the text,
      run one deleting pass per pattern, write the result back. The read
      turns line ends into `\n`, so a file with carriage returns is
      rewritten even when no pattern occurs in it. */
  method PreprocessTmxFile(file: TmxFile, charsToReplace: seq<string>)
    modifies file
    ensures file.content == RemoveEach(ReadText(old(file.content)), charsToReplace)
    ensures IsSubsequence(file.content, ReadText(old(file.content)))
    ensures file.content == old(file.content) <==>
      '\r' !in old(file.content) && NoneOccur(old(file.content), charsToReplace)
  {
    var xmlContent := ReadText(file.content);
    ghost var read := xmlContent;
    for i := 0 to |charsToReplace|
      invariant xmlContent == RemoveEach(read, charsToReplace[..i])
    {
      assert charsToReplace[..i + 1][..i] == charsToReplace[..i];
      xmlContent := RemoveAll(xmlContent, charsToReplace[i]);
    }
    assert charsToReplace[..|charsToReplace|] == charsToReplace;
    RemoveEachSubsequence(read, charsToReplace);
    RemoveEachUnchanged(read, charsToReplace);
    if '\r' in file.content {
      SubsequenceAvoids(xmlContent, read, '\r');
    }
    file.content := xmlContent;
  }

  /** The two lists `parse_tmx_file` returns for a text that parses. */
  function SelectedPair(units: seq<Tu>, sourceLang: string, targetLang: string): (seq<Option<string>>, seq<Option<string>>)
  {
    (Selected(units, sourceLang), Selected(units, targetLang))
  }

  /** `parse_tmx_file(file_path, source_lang, target_lang)`: the file is
      sanitized on disk first, whether or not it then parses; `None` stands
      for the `ParseError` that `ET.parse` raises. */
  method ParseTmxFile(file: TmxFile, parse: string -> Option<seq<Tu>>, sourceLang: string, targetLang: string)
    returns (r: Option<(seq<Option<string>>, seq<Option<string>>)>)
    modifies file
    ensures file.content == Sanitize(ReadText(old(file.content)))
    ensures parse(file.content).None? ==> r.None?
    ensures parse(file.content).Some? ==> r == Some(SelectedPair(parse(file.content).value, sourceLang, targetLang))
  {
    PreprocessTmxFile(file, CONTROL_CHAR_REFS);
    var tree := parse(file.content);
    if tree.None? {
      return None;
    }
    var sourceTexts, targetTexts := SelectTexts(tree.value, sourceLang, targetLang);
    return Some((sourceTexts, targetTexts));
  }

  /** `file.endswith(".tmx")`. */
  predicate IsTmxName(name: string)
  {
    |name| >= 4 && name[|name| - 4..] == ".tmx"
  }

  /** One file of the walk in `generate_output_files`: a `.tmx` file is
      parsed and written out in every requested format; any other file is
      left alone. `parsed` is false when `ET.parse` raised, which ends the
      whole run with the file already sanitized and nothing written for
      it. */
  method ConvertFile(folder: map<string, Content>, file: TmxFile, parse: string -> Option<seq<Tu>>,
                     sourceLang: string, targetLang: string, outputFormats: seq<string>)
    returns (written: map<string, Content>, notices: seq<string>, parsed: bool)
    modifies file
    ensures !IsTmxName(file.name) ==> file.content == old(file.content) && parsed
    ensures IsTmxName(file.name) ==> file.content == Sanitize(ReadText(old(file.content)))
    ensures IsTmxName(file.name) ==> (parsed <==> parse(file.content).Some?)
    ensures !IsTmxName(file.name) || !parsed ==> written == folder && notices == []
    ensures IsTmxName(file.name) && parsed ==>
      var texts := SelectedPair(parse(file.content).value, sourceLang, targetLang);
      && written == AfterFormats(folder, Stem(file.name), sourceLang, targetLang, texts.0, texts.1, outputFormats)
      && notices == Notices(outputFormats)
  {
    written, notices, parsed := folder, [], true;
    if IsTmxName(file.name) {
      var texts := ParseTmxFile(file, parse, sourceLang, targetLang);
      if texts.None? {
        parsed := false;
      } else {
        written, notices := GenerateOutputs(folder, file.name, sourceLang, targetLang,
                                            texts.value.0, texts.value.1, outputFormats);
      }
    }
  }

  /** A variant holding one segment made of plain text. */
  function Variant(lang: string, text: string): Tuv
  {
    Tuv(Some(lang), [Seg(Some(text), [])])
  }

  lemma OneVariantUnit(lang: string, text: string, other: string)
    requires lang != other
    ensures Selected([Tu([Variant(lang, text)])], lang) == [Some(text)]
    ensures Selected([Tu([Variant(lang, text)])], other) == []
  {
    SelectedUnit(Tu([Variant(lang, text)]), lang);
    SelectedUnit(Tu([Variant(lang, text)]), other);
    FindAllOne(Variant(lang, text), lang);
    FindAllOne(Variant(lang, text), other);
  }

  lemma TwoVariantUnit(sourceLang: string, source: string, targetLang: string, target: string)
    requires sourceLang != targetLang
    ensures Selected([Tu([Variant(sourceLang, source), Variant(targetLang, target)])], sourceLang) == [Some(source)]
    ensures Selected([Tu([Variant(sourceLang, source), Variant(targetLang, target)])], targetLang) == [Some(target)]
  {
    var s, t := Variant(sourceLang, source), Variant(targetLang, target);
    assert [s, t] == [s] + [t];
    SelectedUnit(Tu([s, t]), sourceLang);
    SelectedUnit(Tu([s, t]), targetLang);
    FindAllAppend([s], [t], sourceLang);
    FindAllAppend([s], [t], targetLang);
    FindAllOne(s, sourceLang);
    FindAllOne(s, targetLang);
    FindAllOne(t, sourceLang);
    FindAllOne(t, targetLang);
  }

  /** `sep.join` of two and of three parts. */
  lemma JoinShort(x: string, y: string, z: string, sep: char)
    ensures Join([x, y], sep) == x + [sep] + y
    ensures Join([x, y, z], sep) == x + [sep] + y + [sep] + z
  {
    assert [x, y][..1] == [x];
    assert [x, y, z][..2] == [x, y];
  }

  /** The `bitext` file of two and of three present texts. */
  lemma BitextShort(x: string, y: string, z: string)
    ensures BitextContent([Some(x), Some(y)]) == x + "\n" + y
    ensures BitextContent([Some(x), Some(y), Some(z)]) == x + "\n" + y + "\n" + z
  {
    PresentShort(Some(x), Some(y), Some(z));
    PresentOne(Some(x));
    PresentOne(Some(y));
    PresentOne(Some(z));
    assert Present([Some(x), Some(y)]) == [x, y];
    assert Present([Some(x), Some(y), Some(z)]) == [x, y, z];
    JoinShort(x, y, z, '\n');
  }

  /** Three units, the second of which has no source variant. */
  function MisalignedBody(sourceLang: string, targetLang: string,
                          a1: string, b1: string, b2: string, a3: string, b3: string): seq<Tu>
  {
    [Tu([Variant(sourceLang, a1), Variant(targetLang, b1)]),
     Tu([Variant(targetLang, b2)]),
     Tu([Variant(sourceLang, a3), Variant(targetLang, b3)])]
  }

  lemma {:induction false} MisalignedSelection(sourceLang: string, targetLang: string,
                                               a1: string, b1: string, b2: string, a3: string, b3: string)
    requires sourceLang != targetLang
    ensures Selected(MisalignedBody(sourceLang, targetLang, a1, b1, b2, a3, b3), sourceLang) == [Some(a1), Some(a3)]
    ensures Selected(MisalignedBody(sourceLang, targetLang, a1, b1, b2, a3, b3), targetLang) == [Some(b1), Some(b2), Some(b3)]
  {
    var u1 := Tu([Variant(sourceLang, a1), Variant(targetLang, b1)]);
    var u2 := Tu([Variant(targetLang, b2)]);
    var u3 := Tu([Variant(sourceLang, a3), Variant(targetLang, b3)]);
    assert MisalignedBody(sourceLang, targetLang, a1, b1, b2, a3, b3) == [u1] + ([u2] + [u3]);
    SelectedAppend([u1], [u2] + [u3], sourceLang);
    SelectedAppend([u1], [u2] + [u3], targetLang);
    SelectedAppend([u2], [u3], sourceLang);
    SelectedAppend([u2], [u3], targetLang);
    TwoVariantUnit(sourceLang, a1, targetLang, b1);
    OneVariantUnit(targetLang, b2, sourceLang);
    TwoVariantUnit(sourceLang, a3, targetLang, b3);
  }

  /** The lists are selected independently: when the second of three units
      has no source variant, the `txt` file pairs the third unit's source
      with the second unit's target, and the two `bitext` files get two and
      three lines. */
  lemma MissingVariantShiftsPairs(sourceLang: string, targetLang: string,
                                  a1: string, b1: string, b2: string, a3: string, b3: string)
    requires sourceLang != targetLang
    ensures var units := MisalignedBody(sourceLang, targetLang, a1, b1, b2, a3, b3);
      && Selected(units, sourceLang) == [Some(a1), Some(a3)]
      && Selected(units, targetLang) == [Some(b1), Some(b2), Some(b3)]
      && TxtContent(Zip(Selected(units, sourceLang), Selected(units, targetLang)))
           == a1 + "\t" + b1 + "\n" + a3 + "\t" + b2 + "\n"
      && BitextContent(Selected(units, sourceLang)) == a1 + "\n" + a3
      && BitextContent(Selected(units, targetLang)) == b1 + "\n" + b2 + "\n" + b3
  {
    MisalignedSelection(sourceLang, targetLang, a1, b1, b2, a3, b3);
    var source: seq<Option<string>> := [Some(a1), Some(a3)];
    var target: seq<Option<string>> := [Some(b1), Some(b2), Some(b3)];
    var p1, p2 := (Some(a1), Some(b1)), (Some(a3), Some(b2));
    assert Zip(source, target) == [p1, p2];
    TxtContentTwo(p1, p2);
    BitextShort(a1, a3, a3);
    BitextShort(b1, b2, b3);
  }

  /** A unit whose source variant's first segment has inline markup after
      its leading text and whose second segment starts with inline markup. */
  function InlineUnit(sourceLang: string, targetLang: string, lead: string, inline: seq<string>, rest: seq<string>,
                      t1: string, t2: string): Tu
  {
    Tu([Tuv(Some(sourceLang), [Seg(Some(lead), inline), Seg(None, rest)]),
        Tuv(Some(targetLang), [Seg(Some(t1), []), Seg(Some(t2), [])])])
  }

  lemma InlineSelection(sourceLang: string, targetLang: string, lead: string, inline: seq<string>, rest: seq<string>,
                        t1: string, t2: string)
    requires sourceLang != targetLang
    ensures Selected([InlineUnit(sourceLang, targetLang, lead, inline, rest, t1, t2)], sourceLang) == [Some(lead), None]
    ensures Selected([InlineUnit(sourceLang, targetLang, lead, inline, rest, t1, t2)], targetLang) == [Some(t1), Some(t2)]
  {
    var u := InlineUnit(sourceLang, targetLang, lead, inline, rest, t1, t2);
    var s, t := u.variants[0], u.variants[1];
    assert u.variants == [s] + [t];
    SelectedUnit(u, sourceLang);
    SelectedUnit(u, targetLang);
    FindAllAppend([s], [t], sourceLang);
    FindAllAppend([s], [t], targetLang);
    FindAllOne(s, sourceLang);
    FindAllOne(s, targetLang);
    FindAllOne(t, sourceLang);
    FindAllOne(t, targetLang);
  }

  /** Only a segment's leading text is kept: text inside or after inline
      elements is lost, and a segment that starts with an inline element
      yields `None`, which the `txt` file shows as `None` and the `bitext`
      file drops. */
  lemma InlineMarkupIsDropped(sourceLang: string, targetLang: string, lead: string, inline: seq<string>, rest: seq<string>,
                              t1: string, t2: string)
    requires sourceLang != targetLang
    ensures var units := [InlineUnit(sourceLang, targetLang, lead, inline, rest, t1, t2)];
      && Selected(units, sourceLang) == [Some(lead), None]
      && TxtContent(Zip(Selected(units, sourceLang), Selected(units, targetLang)))
           == lead + "\t" + t1 + "\n" + "None" + "\t" + t2 + "\n"
      && BitextContent(Selected(units, sourceLang)) == lead
  {
    InlineSelection(sourceLang, targetLang, lead, inline, rest, t1, t2);
    var source: seq<Option<string>> := [Some(lead), None];
    var target: seq<Option<string>> := [Some(t1), Some(t2)];
    var p1, p2 := (Some(lead), Some(t1)), (None, Some(t2));
    assert Zip(source, target) == [p1, p2];
    TxtContentTwo(p1, p2);
    PresentShort(Some(lead), None, None);
    PresentOne(Some(lead));
    PresentOne(None);
    assert Join([lead], '\n') == lead;
  }

  /** Language codes are compared whole and case-sensitively: asking for
      `en` selects neither `en-US` nor `EN`, and a variant without
      `xml:lang` is never selected. */
  lemma LanguageCodesMatchExactly(segs: seq<Seg>)
    ensures Selected([Tu([Tuv(Some("en-US"), segs), Tuv(Some("EN"), segs), Tuv(None, segs)])], "en") == []
    ensures Selected([Tu([Tuv(Some("en"), segs)])], "en") == Texts(segs)
  {
    var v1, v2, v3 := Tuv(Some("en-US"), segs), Tuv(Some("EN"), segs), Tuv(None, segs);
    assert [v1, v2, v3] == [v1] + ([v2] + [v3]);
    SelectedUnit(Tu([v1, v2, v3]), "en");
    FindAllAppend([v1], [v2] + [v3], "en");
    FindAllAppend([v2], [v3], "en");
    FindAllOne(v1, "en");
    FindAllOne(v2, "en");
    FindAllOne(v3, "en");
    SelectedUnit(Tu([Tuv(Some("en"), segs)]), "en");
    FindAllOne(Tuv(Some("en"), segs), "en");
  }
}
