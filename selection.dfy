/**
  Segment selection of `parse_tmx_file`: the two queries
  `.//tuv[@xml:lang='<lang>']/seg` over the parsed document, and the loops
  that collect the `.text` of every `seg` they return.

  The XML tree is abstracted to the part the queries look at: translation
  units (`tu`) in document order, their variants (`tuv`) with the value of
  the `xml:lang` attribute (section 2.12 of XML 1.0), and the variants'
  `seg` children.
 */
module Selection {
  import opened Wrappers

  /** A `seg` element. `text` is ElementTree's `.text`: the character data
      before the first child element, `None` when there is none. `inline`
      is the text inside or after nested inline elements (`bpt`, `ph`,
      `hi`, ...), which `.text` does not include. */
  datatype Seg = Seg(text: Option<string>, inline: seq<string>)

  /** A `tuv` element: its `xml:lang` value, if any, and its `seg`
      children in document order. */
  datatype Tuv = Tuv(lang: Option<string>, segs: seq<Seg>)

  /** A `tu` element: its `tuv` children in document order. */
  datatype Tu = Tu(variants: seq<Tuv>)

  /** All `tuv` elements of the body, in document order. */
  function Tuvs(units: seq<Tu>): seq<Tuv>
    decreases |units|
  {
    if units == [] then [] else units[0].variants + Tuvs(units[1..])
  }

  /** The result of `findall(".//tuv[@xml:lang='lang']/seg")`: the `seg`
      children of the variants whose `xml:lang` equals `lang` exactly, in
      document order. */
  function FindAll(tuvs: seq<Tuv>, lang: string): seq<Seg>
    decreases |tuvs|
  {
    if tuvs == [] then []
    else (if tuvs[0].lang == Some(lang) then tuvs[0].segs else []) + FindAll(tuvs[1..], lang)
  }

  /** The `.text` of each segment, in order. */
  function Texts(segs: seq<Seg>): seq<Option<string>>
  {
    seq(|segs|, k requires 0 <= k < |segs| => segs[k].text)
  }

  /** The list `parse_tmx_file` builds for one language. */
  function Selected(units: seq<Tu>, lang: string): seq<Option<string>>
  {
    Texts(FindAll(Tuvs(units), lang))
  }

  /** The body of one `for tu in root.findall(...)` loop: append the `.text`
      of each returned segment. */
  method CollectTexts(segs: seq<Seg>) returns (texts: seq<Option<string>>)
    ensures |texts| == |segs|
    ensures forall k :: 0 <= k < |segs| ==> texts[k] == segs[k].text
  {
    texts := [];
    for i := 0 to |segs|
      invariant |texts| == i
      invariant forall k :: 0 <= k < i ==> texts[k] == segs[k].text
    {
      texts := texts + [segs[i].text];
    }
  }

  /** The two loops of `parse_tmx_file` over an already parsed body. */
  method SelectTexts(units: seq<Tu>, sourceLang: string, targetLang: string)
    returns (sourceTexts: seq<Option<string>>, targetTexts: seq<Option<string>>)
    ensures sourceTexts == Selected(units, sourceLang)
    ensures targetTexts == Selected(units, targetLang)
  {
    var tuvs := Tuvs(units);
    sourceTexts := CollectTexts(FindAll(tuvs, sourceLang));
    targetTexts := CollectTexts(FindAll(tuvs, targetLang));
  }

  lemma {:induction false} TuvsAppend(a: seq<Tu>, b: seq<Tu>)
    ensures Tuvs(a + b) == Tuvs(a) + Tuvs(b)
    decreases |a|
  {
    if a != [] {
      assert (a + b)[1..] == a[1..] + b;
      TuvsAppend(a[1..], b);
    } else {
      assert a + b == b;
    }
  }

  lemma {:induction false} FindAllAppend(a: seq<Tuv>, b: seq<Tuv>, lang: string)
    ensures FindAll(a + b, lang) == FindAll(a, lang) + FindAll(b, lang)
    decreases |a|
  {
    if a != [] {
      assert (a + b)[1..] == a[1..] + b;
      FindAllAppend(a[1..], b, lang);
    } else {
      assert a + b == b;
    }
  }

  /** One variant contributes its segments when its language matches. */
  lemma FindAllOne(t: Tuv, lang: string)
    ensures FindAll([t], lang) == if t.lang == Some(lang) then t.segs else []
  {
    assert [t][1..] == [];
  }

  /** A body of one unit selects from that unit's variants. */
  lemma SelectedUnit(u: Tu, lang: string)
    ensures Selected([u], lang) == Texts(FindAll(u.variants, lang))
  {
    assert [u][1..] == [];
    assert Tuvs([u]) == u.variants + [];
    assert u.variants + [] == u.variants;
  }

  /** A segment is found exactly when it is a `seg` child of some variant
      whose `xml:lang` equals the requested language: no prefix match, no
      case folding, and a variant without `xml:lang` never matches. */
  lemma {:induction false} FindAllMembers(tuvs: seq<Tuv>, lang: string, seg: Seg)
    ensures seg in FindAll(tuvs, lang) <==>
      exists i :: 0 <= i < |tuvs| && tuvs[i].lang == Some(lang) && seg in tuvs[i].segs
    decreases |tuvs|
  {
    if tuvs != [] {
      FindAllMembers(tuvs[1..], lang, seg);
      if seg in FindAll(tuvs[1..], lang) {
        var i :| 0 <= i < |tuvs[1..]| && tuvs[1..][i].lang == Some(lang) && seg in tuvs[1..][i].segs;
        assert tuvs[i + 1] == tuvs[1..][i];
      }
      if exists i :: 0 <= i < |tuvs| && tuvs[i].lang == Some(lang) && seg in tuvs[i].segs {
        var i :| 0 <= i < |tuvs| && tuvs[i].lang == Some(lang) && seg in tuvs[i].segs;
        if i > 0 {
          assert tuvs[1..][i - 1] == tuvs[i];
        }
      }
    }
  }

  /** The selection follows document order: the units of a body contribute
      their segments one after another. */
  lemma SelectedAppend(a: seq<Tu>, b: seq<Tu>, lang: string)
    ensures Selected(a + b, lang) == Selected(a, lang) + Selected(b, lang)
  {
    TuvsAppend(a, b);
    FindAllAppend(Tuvs(a), Tuvs(b), lang);
  }

  /** Which values are selected: `Selected(units, lang)` holds `x` exactly
      when some `seg` child of a variant with `xml:lang` equal to `lang`
      has `.text` equal to `x`. */
  lemma SelectedMembers(units: seq<Tu>, lang: string, x: Option<string>)
    ensures x in Selected(units, lang) <==>
      exists i, seg :: 0 <= i < |Tuvs(units)| && Tuvs(units)[i].lang == Some(lang)
        && seg in Tuvs(units)[i].segs && seg.text == x
  {
    var tuvs := Tuvs(units);
    var found := FindAll(tuvs, lang);
    if x in Selected(units, lang) {
      var k :| 0 <= k < |found| && found[k].text == x;
      FindAllMembers(tuvs, lang, found[k]);
    }
    if exists i, seg :: 0 <= i < |tuvs| && tuvs[i].lang == Some(lang) && seg in tuvs[i].segs && seg.text == x {
      var i, seg :| 0 <= i < |tuvs| && tuvs[i].lang == Some(lang) && seg in tuvs[i].segs && seg.text == x;
      FindAllMembers(tuvs, lang, seg);
      var k :| 0 <= k < |found| && found[k] == seg;
      assert Selected(units, lang)[k] == x;
    }
  }

  /** How many segments of one unit a language selects. */
  function UnitCount(unit: Tu, lang: string): nat
  {
    |FindAll(unit.variants, lang)|
  }

  /** When every unit holds as many selected segments for the source as for
      the target language, the two lists have the same length. Without that
      condition the lists are built independently and need not line up. */
  lemma {:induction false} BalancedUnitsGiveEqualLengths(units: seq<Tu>, sourceLang: string, targetLang: string)
    requires forall i :: 0 <= i < |units| ==> UnitCount(units[i], sourceLang) == UnitCount(units[i], targetLang)
    ensures |Selected(units, sourceLang)| == |Selected(units, targetLang)|
    decreases |units|
  {
    if units != [] {
      assert units == [units[0]] + units[1..];
      SelectedAppend([units[0]], units[1..], sourceLang);
      SelectedAppend([units[0]], units[1..], targetLang);
      assert Tuvs([units[0]]) == units[0].variants by {
        assert [units[0]][1..] == [];
      }
      BalancedUnitsGiveEqualLengths(units[1..], sourceLang, targetLang);
    }
  }
}
