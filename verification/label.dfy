/** The content of one printed label (class `Label` of pdf/services.py): the
    plant's fields normalised with a per-field casing rule, and the one to three
    text lines printed beside the Data Matrix code. */
module Label {
  import opened Wrappers
  import opened Text

  /** The attributes of a plant record the label reads. `None` is a missing
      attribute; the empty string is falsy in Python and is treated like `None`. */
  datatype PlantRecord = PlantRecord(
    uid: string,
    number: Option<string>,
    genus: Option<string>,
    species: Option<string>,
    subspecies: Option<string>,
    variety: Option<string>,
    cultivar: Option<string>,
    affinity: Option<string>,
    ex: Option<string>)

  /** Which field decides whether the `ssp.` fragment of line 1 is emitted when
      genus, species and subspecies are not all present. The code tests the
      species (`GateOnSpecies`); the subspecies (`GateOnSubspecies`) is the
      evidently intended test. */
  datatype SubspeciesGate = GateOnSpecies | GateOnSubspecies

  datatype Label = Label(
    puid: string,
    fieldNumber: Option<string>,
    genus: Option<string>,
    species: Option<string>,
    subspecies: Option<string>,
    variety: Option<string>,
    cultivar: Option<string>,
    affinity: Option<string>,
    ex: Option<string>,
    textLines: seq<string>)

  datatype LabelError = NonAsciiUid(uid: string)

  /** Python truthiness of an optional string attribute. */
  predicate Present(o: Option<string>) {
    o.Some? && o.value != ""
  }

  /** How `str(o)` renders an optional value inside an f-string. */
  function Render(o: Option<string>): string {
    if o.Some? then o.value else "None"
  }

  // ---------------------------------------------------------------------------
  // Field normalisation

  datatype Casing = Abbreviated | LowerCased | UpperCased | TitleCased

  function ApplyCasing(s: string, casing: Casing): string
    requires s != []
  {
    match casing
    case Abbreviated => [UpperChar(s[0]), '.']
    case LowerCased => Lower(s)
    case UpperCased => Upper(s)
    case TitleCased => Title(s)
  }

  /** `attr.<casing>() if attr else None`. */
  function Normalize(o: Option<string>, casing: Casing): (r: Option<string>)
    ensures r.Some? <==> Present(o)
    ensures r.Some? ==> Present(r)
  {
    if Present(o) then Some(ApplyCasing(o.value, casing)) else None
  }

  /** The letters of `s` are all lower case. */
  predicate LowerCaseForm(s: string) {
    forall i :: 0 <= i < |s| ==> !IsUpper(s[i])
  }

  /** The letters of `s` are all upper case. */
  predicate UpperCaseForm(s: string) {
    forall i :: 0 <= i < |s| ==> !IsLower(s[i])
  }

  /** Each word of `s` starts with a capital and continues in lower case. */
  predicate TitleCaseForm(s: string) {
    forall i :: 0 <= i < |s| ==>
      if StartsWord(s, i, false) then !IsLower(s[i]) else !IsUpper(s[i])
  }

  /** `a` and `b` spell the same text up to the case of ASCII letters. */
  predicate SameUpToCase(a: string, b: string) {
    Lower(a) == Lower(b)
  }

  /** `Label.extract_data`: every field is normalised with its own casing rule, an
      absent or empty field becomes `None`, and the text lines are generated.
      Encoding the uid for the Data Matrix raises for a non-ASCII uid. */
  function ExtractData(rec: PlantRecord, gate: SubspeciesGate): (r: Result<Label, LabelError>)
    ensures r.Success? <==> IsAscii(rec.uid)
    ensures r.Success? ==> r.value.puid == rec.uid && WellFormed(r.value)
  {
    var fieldNumber := Normalize(rec.number, UpperCased);
    var genus := Normalize(rec.genus, Abbreviated);
    var species := Normalize(rec.species, LowerCased);
    var subspecies := Normalize(rec.subspecies, LowerCased);
    var variety := Normalize(rec.variety, LowerCased);
    var cultivar := Normalize(rec.cultivar, TitleCased);
    var affinity := Normalize(rec.affinity, TitleCased);
    var ex := Normalize(rec.ex, TitleCased);
    var lines := TextLines(genus, species, subspecies, variety, cultivar, affinity, ex, gate);
    if IsAscii(rec.uid) then
      Success(Label(rec.uid, fieldNumber, genus, species, subspecies, variety, cultivar, affinity, ex, lines))
    else
      Failure(NonAsciiUid(rec.uid))
  }

  /** The casing rule of each field, stated as a property of the normalised value. */
  lemma ExtractDataCasing(rec: PlantRecord, gate: SubspeciesGate)
    requires IsAscii(rec.uid)
    ensures var l := ExtractData(rec, gate).value;
      && (l.genus.Some? <==> Present(rec.genus))
      && (l.genus.Some? ==>
            (&& |l.genus.value| == 2 && l.genus.value[1] == '.'
             && !IsLower(l.genus.value[0])
             && LowerChar(l.genus.value[0]) == LowerChar(rec.genus.value[0])))
      && CasedAs(rec.species, l.species, LowerCased)
      && CasedAs(rec.subspecies, l.subspecies, LowerCased)
      && CasedAs(rec.variety, l.variety, LowerCased)
      && CasedAs(rec.cultivar, l.cultivar, TitleCased)
      && CasedAs(rec.affinity, l.affinity, TitleCased)
      && CasedAs(rec.ex, l.ex, TitleCased)
      && CasedAs(rec.number, l.fieldNumber, UpperCased)
  {
    var l := ExtractData(rec, gate).value;
    NormalizeCasing(rec.species, LowerCased);
    NormalizeCasing(rec.subspecies, LowerCased);
    NormalizeCasing(rec.variety, LowerCased);
    NormalizeCasing(rec.cultivar, TitleCased);
    NormalizeCasing(rec.affinity, TitleCased);
    NormalizeCasing(rec.ex, TitleCased);
    NormalizeCasing(rec.number, UpperCased);
  }

  /** `out` is `None` exactly when `raw` is falsy, and otherwise spells the same
      text as `raw` in the case form `casing` demands. */
  predicate CasedAs(raw: Option<string>, out: Option<string>, casing: Casing) {
    && (out.Some? <==> Present(raw))
    && (out.Some? ==>
          && SameUpToCase(out.value, raw.value)
          && match casing
             case LowerCased => LowerCaseForm(out.value)
             case UpperCased => UpperCaseForm(out.value)
             case TitleCased => TitleCaseForm(out.value)
             case Abbreviated => true)
  }

  lemma NormalizeCasing(raw: Option<string>, casing: Casing)
    requires casing != Abbreviated
    ensures CasedAs(raw, Normalize(raw, casing), casing)
  {
    if Present(raw) {
      var s := raw.value;
      match casing
      case LowerCased => LowerCasing(s);
      case UpperCased => UpperCasing(s);
      case TitleCased => TitleCasing(s);
    }
  }

  lemma LowerCasing(s: string)
    ensures SameUpToCase(Lower(s), s) && LowerCaseForm(Lower(s))
  {
    assert Lower(Lower(s)) == Lower(s);
  }

  lemma UpperCasing(s: string)
    ensures SameUpToCase(Upper(s), s) && UpperCaseForm(Upper(s))
  {
    forall i | 0 <= i < |s| ensures LowerChar(UpperChar(s[i])) == LowerChar(s[i]) {
      LowerOfUpper(s[i]);
    }
    assert Lower(Upper(s)) == Lower(s);
  }

  lemma TitleCasing(s: string)
    ensures SameUpToCase(Title(s), s) && TitleCaseForm(Title(s))
  {
    var out := Title(s);
    forall i | 0 <= i < |s|
      ensures out[i] == if StartsWord(s, i, false) then UpperChar(s[i]) else LowerChar(s[i])
      ensures LowerChar(out[i]) == LowerChar(s[i])
      ensures IsLetter(out[i]) == IsLetter(s[i])
    {
      TitleFromAt(s, false, i);
      LowerOfUpper(s[i]);
    }
    assert Lower(out) == Lower(s);
    forall i | 0 <= i < |s|
      ensures if StartsWord(out, i, false) then !IsLower(out[i]) else !IsUpper(out[i])
    {
      if i > 0 {
        assert IsLetter(out[i - 1]) == IsLetter(s[i - 1]);
      }
    }
  }

  lemma LowerOfUpper(c: char)
    ensures LowerChar(UpperChar(c)) == LowerChar(c)
  {
  }

  // ---------------------------------------------------------------------------
  // Text lines

  /** `f'{prefix}{o} ' if o else ''`. */
  function Fragment(prefix: string, o: Option<string>): string {
    if Present(o) then prefix + o.value + " " else ""
  }

  /** Line 1: the abbreviated triple when genus, species and subspecies are all
      present; otherwise the present parts, with the `ssp.` fragment gated by `gate`. */
  function Line1(genus: Option<string>, species: Option<string>, subspecies: Option<string>,
                 gate: SubspeciesGate): string
    requires genus.Some? ==> genus.value != []
  {
    if Present(genus) && Present(species) && Present(subspecies) then
      [genus.value[0]] + ". " + species.value + "  ssp. " + subspecies.value
    else
      var sspShown := match gate
        case GateOnSpecies => Present(species)
        case GateOnSubspecies => Present(subspecies);
      Fragment("", genus) + Fragment("", species)
      + (if sspShown then "ssp. " + Render(subspecies) + " " else "")
  }

  /** Line 2: variety and cultivar. */
  function Line2(variety: Option<string>, cultivar: Option<string>): string {
    Fragment("v. ", variety) + Fragment("cv. ", cultivar)
  }

  /** Line 3: affinity and origin (`ex`). */
  function Line3(affinity: Option<string>, ex: Option<string>): string {
    Fragment("aff. ", affinity) + Fragment("ex. ", ex)
  }

  /** The candidate lines that are not empty, in order. */
  function NonEmpty(lines: seq<string>): (r: seq<string>)
    ensures |r| <= |lines|
    ensures forall k :: 0 <= k < |r| ==> r[k] != "" && r[k] in lines
  {
    if lines == [] then []
    else (if lines[0] != "" then [lines[0]] else []) + NonEmpty(lines[1..])
  }

  /** `Label._generate_text_lines`: appends each non-empty line in turn and, if
      none was appended, the placeholder `'empty'`. */
  function TextLines(genus: Option<string>, species: Option<string>, subspecies: Option<string>,
                     variety: Option<string>, cultivar: Option<string>,
                     affinity: Option<string>, ex: Option<string>,
                     gate: SubspeciesGate): (lines: seq<string>)
    requires genus.Some? ==> genus.value != []
    ensures 1 <= |lines| <= 3
    ensures var cands := [Line1(genus, species, subspecies, gate), Line2(variety, cultivar), Line3(affinity, ex)];
      && (lines == ["empty"] <==> (forall k :: 0 <= k < 3 ==> cands[k] == ""))
      && (lines != ["empty"] ==> lines == NonEmpty(cands))
  {
    var l1 := Line1(genus, species, subspecies, gate);
    var l2 := Line2(variety, cultivar);
    var l3 := Line3(affinity, ex);
    var acc := if l1 != "" then [l1] else [];
    var acc := acc + (if l2 != "" then [l2] else []);
    var acc := acc + (if l3 != "" then [l3] else []);
    CandidateHasSpace(genus, species, subspecies, variety, cultivar, affinity, ex, gate);
    NonEmptyThree(l1, l2, l3);
    var cands := [l1, l2, l3];
    assert cands[0] == l1 && cands[1] == l2 && cands[2] == l3;
    assert acc != [] ==> acc[0] != "empty";
    if acc == [] then ["empty"] else acc
  }

  lemma NonEmptyThree(a: string, b: string, c: string)
    ensures NonEmpty([a, b, c])
         == (if a != "" then [a] else []) + (if b != "" then [b] else []) + (if c != "" then [c] else [])
  {
    assert [a, b, c][1..] == [b, c];
    assert [b, c][1..] == [c];
    assert [c][1..] == [];
    assert NonEmpty([c]) == (if c != "" then [c] else []) + NonEmpty([]);
  }

  /** Every non-empty candidate line contains a space, so none equals `'empty'`. */
  lemma CandidateHasSpace(genus: Option<string>, species: Option<string>, subspecies: Option<string>,
                          variety: Option<string>, cultivar: Option<string>,
                          affinity: Option<string>, ex: Option<string>,
                          gate: SubspeciesGate)
    requires genus.Some? ==> genus.value != []
    ensures Line1(genus, species, subspecies, gate) != "empty"
    ensures Line2(variety, cultivar) != "empty"
    ensures Line3(affinity, ex) != "empty"
  {
    LineOneNotPlaceholder(genus, species, subspecies, gate);
    LastOfNonEmptyFragments(Line2(variety, cultivar), Fragment("v. ", variety), Fragment("cv. ", cultivar), "");
    LastOfNonEmptyFragments(Line3(affinity, ex), Fragment("aff. ", affinity), Fragment("ex. ", ex), "");
  }

  lemma LineOneNotPlaceholder(genus: Option<string>, species: Option<string>, subspecies: Option<string>,
                              gate: SubspeciesGate)
    requires genus.Some? ==> genus.value != []
    ensures Line1(genus, species, subspecies, gate) != "empty"
  {
    var l1 := Line1(genus, species, subspecies, gate);
    if Present(genus) && Present(species) && Present(subspecies) {
      assert l1[2] == ' ';
      assert "empty"[2] != ' ';
    } else {
      var sspShown := match gate
        case GateOnSpecies => Present(species)
        case GateOnSubspecies => Present(subspecies);
      LastOfNonEmptyFragments(l1, Fragment("", genus), Fragment("", species),
        if sspShown then "ssp. " + Render(subspecies) + " " else "");
    }
  }

  /** A non-empty concatenation of fragments that each end in a space ends in a space. */
  lemma LastOfNonEmptyFragments(l: string, a: string, b: string, c: string)
    requires l == a + b + c
    requires a == [] || a[|a| - 1] == ' '
    requires b == [] || b[|b| - 1] == ' '
    requires c == [] || c[|c| - 1] == ' '
    ensures l == [] || (l[|l| - 1] == ' ' && l != "empty")
  {
    if l != [] {
      assert l[|l| - 1] == ' ';
      assert "empty"[4] != ' ';
    }
  }

  /** A label is placeable: it has one to three text lines. */
  predicate WellFormed(l: Label) {
    1 <= |l.textLines| <= 3
  }

  /** `Label.get_lines_number`. */
  function LinesNumber(l: Label): (n: nat)
    requires WellFormed(l)
    ensures 1 <= n <= 3
  {
    |l.textLines|
  }

  // ---------------------------------------------------------------------------
  // Properties of the generated lines

  /** `get_lines_number` counts the lines the record feeds: line 1 when it has a
      genus or a species (or, under the intended gate, a subspecies), line 2
      when it has a variety or a cultivar, line 3 when it has an affinity or an
      origin. A record that feeds none has the one placeholder line. */
  lemma LinesNumberCounts(rec: PlantRecord, gate: SubspeciesGate)
    requires IsAscii(rec.uid)
    ensures var n1 := if Present(rec.genus) || Present(rec.species)
                         || (gate == GateOnSubspecies && Present(rec.subspecies)) then 1 else 0;
      var n2 := if Present(rec.variety) || Present(rec.cultivar) then 1 else 0;
      var n3 := if Present(rec.affinity) || Present(rec.ex) then 1 else 0;
      LinesNumber(ExtractData(rec, gate).value) == if n1 + n2 + n3 == 0 then 1 else n1 + n2 + n3
  {
    var l := ExtractData(rec, gate).value;
    TextLinesCount(l.genus, l.species, l.subspecies, l.variety, l.cultivar, l.affinity, l.ex, gate);
    LineOneEmpty(l.genus, l.species, l.subspecies, gate);
    LineTwoFragments(l.variety, l.cultivar);
    LineThreeFragments(l.affinity, l.ex);
  }

  /** The number of text lines is the number of non-empty candidate lines, or
      1 for the placeholder. */
  lemma TextLinesCount(genus: Option<string>, species: Option<string>, subspecies: Option<string>,
                       variety: Option<string>, cultivar: Option<string>,
                       affinity: Option<string>, ex: Option<string>,
                       gate: SubspeciesGate)
    requires genus.Some? ==> genus.value != []
    ensures var n := (if Line1(genus, species, subspecies, gate) != "" then 1 else 0)
                   + (if Line2(variety, cultivar) != "" then 1 else 0)
                   + (if Line3(affinity, ex) != "" then 1 else 0);
      |TextLines(genus, species, subspecies, variety, cultivar, affinity, ex, gate)| == if n == 0 then 1 else n
  {
    var l1 := Line1(genus, species, subspecies, gate);
    var l2 := Line2(variety, cultivar);
    var l3 := Line3(affinity, ex);
    AllEmptyThree(l1, l2, l3);
    NonEmptyThree(l1, l2, l3);
  }

  /** With genus, species and subspecies present, line 1 is the abbreviated
      triple with two spaces before `ssp.`, built from the raw record. */
  lemma LineOneFullTriple(rec: PlantRecord, gate: SubspeciesGate)
    requires IsAscii(rec.uid)
    requires Present(rec.genus) && Present(rec.species) && Present(rec.subspecies)
    ensures ExtractData(rec, gate).value.textLines[0]
         == [UpperChar(rec.genus.value[0])] + ". " + Lower(rec.species.value)
            + "  ssp. " + Lower(rec.subspecies.value)
  {
    var l := ExtractData(rec, gate).value;
    var l1 := Line1(l.genus, l.species, l.subspecies, gate);
    assert l1 != "";
    assert NonEmpty([l1, Line2(l.variety, l.cultivar), Line3(l.affinity, l.ex)])[0] == l1;
  }

  /** The placeholder is used exactly when the record has none of the fields
      that feed a line (the subspecies alone feeds one only under the intended gate). */
  lemma EmptyPlaceholderExactly(rec: PlantRecord, gate: SubspeciesGate)
    requires IsAscii(rec.uid)
    ensures ExtractData(rec, gate).value.textLines == ["empty"]
        <==> && !Present(rec.genus) && !Present(rec.species)
             && (gate == GateOnSubspecies ==> !Present(rec.subspecies))
             && !Present(rec.variety) && !Present(rec.cultivar)
             && !Present(rec.affinity) && !Present(rec.ex)
  {
    var l := ExtractData(rec, gate).value;
    LineOneEmpty(l.genus, l.species, l.subspecies, gate);
    LineTwoFragments(l.variety, l.cultivar);
    LineThreeFragments(l.affinity, l.ex);
    AllEmptyThree(Line1(l.genus, l.species, l.subspecies, gate), Line2(l.variety, l.cultivar), Line3(l.affinity, l.ex));
  }

  lemma LineOneEmpty(genus: Option<string>, species: Option<string>, subspecies: Option<string>,
                     gate: SubspeciesGate)
    requires genus.Some? ==> genus.value != []
    ensures Line1(genus, species, subspecies, gate) == ""
        <==> !Present(genus) && !Present(species) && (gate == GateOnSubspecies ==> !Present(subspecies))
  {
  }

  lemma AllEmptyThree(a: string, b: string, c: string)
    ensures (forall k :: 0 <= k < 3 ==> [a, b, c][k] == "") <==> a == "" && b == "" && c == ""
  {
    assert [a, b, c][0] == a && [a, b, c][1] == b && [a, b, c][2] == c;
  }


  /** Two fragments in a row: each is present iff its field is, the first
      opens the text and the second closes it. */
  lemma FragmentPair(p: string, a: Option<string>, q: string, b: Option<string>)
    ensures var l := Fragment(p, a) + Fragment(q, b);
      && (l == "" <==> !Present(a) && !Present(b))
      && (Present(a) ==> p + a.value + " " <= l)
      && (!Present(a) && !Present(b) ==> l == "")
      && (!Present(a) && Present(b) ==> l == q + b.value + " ")
      && (Present(a) && !Present(b) ==> l == p + a.value + " ")
      && (Present(a) && Present(b) ==> l == p + a.value + " " + q + b.value + " ")
      && (Present(b) ==> var f := q + b.value + " "; |f| <= |l| && l[|l| - |f|..] == f)
  {
    var l := Fragment(p, a) + Fragment(q, b);
    if Present(a) {
      var e := p + a.value + " ";
      assert l == e + Fragment(q, b);
      assert l[..|e|] == e;
    } else {
      assert l == Fragment(q, b);
    }
    if Present(b) {
      var f := q + b.value + " ";
      assert l == Fragment(p, a) + f;
      assert l[|l| - |f|..] == f;
    }
  }

  /** Each fragment of line 2 is present iff its field is: the line starts with
      the variety fragment and ends with the cultivar fragment. */
  lemma LineTwoFragments(variety: Option<string>, cultivar: Option<string>)
    ensures Line2(variety, cultivar) == "" <==> !Present(variety) && !Present(cultivar)
    ensures Present(variety) ==> "v. " + variety.value + " " <= Line2(variety, cultivar)
    ensures !Present(variety) && Present(cultivar) ==> Line2(variety, cultivar) == "cv. " + cultivar.value + " "
    ensures Present(variety) && !Present(cultivar) ==> Line2(variety, cultivar) == "v. " + variety.value + " "
    ensures Present(variety) && Present(cultivar) ==> Line2(variety, cultivar) == "v. " + variety.value + " " + "cv. " + cultivar.value + " "
    ensures Present(cultivar) ==>
      var l := Line2(variety, cultivar); var f := "cv. " + cultivar.value + " ";
      |f| <= |l| && l[|l| - |f|..] == f
  {
    FragmentPair("v. ", variety, "cv. ", cultivar);
  }

  /** Each fragment of line 3 is present iff its field is. */
  lemma LineThreeFragments(affinity: Option<string>, ex: Option<string>)
    ensures Line3(affinity, ex) == "" <==> !Present(affinity) && !Present(ex)
    ensures Present(affinity) ==> "aff. " + affinity.value + " " <= Line3(affinity, ex)
    ensures !Present(affinity) && Present(ex) ==> Line3(affinity, ex) == "ex. " + ex.value + " "
    ensures Present(affinity) && !Present(ex) ==> Line3(affinity, ex) == "aff. " + affinity.value + " "
    ensures Present(affinity) && Present(ex) ==> Line3(affinity, ex) == "aff. " + affinity.value + " " + "ex. " + ex.value + " "
    ensures Present(ex) ==>
      var l := Line3(affinity, ex); var f := "ex. " + ex.value + " ";
      |f| <= |l| && l[|l| - |f|..] == f
  {
    FragmentPair("aff. ", affinity, "ex. ", ex);
  }

  /** As written, a record with a species but no subspecies prints the Python
      rendering of `None` on line 1: genus `lithops`, species `Lesliei` gives
      `'L. lesliei ssp. None '`. */
  lemma SubspeciesNonePrinted()
    ensures var rec := PlantRecord("123456", None, Some("lithops"), Some("Lesliei"), None,
                                   None, None, None, None);
            ExtractData(rec, GateOnSpecies).value.textLines == ["L. lesliei ssp. None "]
  {
    var rec := PlantRecord("123456", None, Some("lithops"), Some("Lesliei"), None,
                           None, None, None, None);
    AsciiUid();
    var l := ExtractData(rec, GateOnSpecies).value;
    NoneFieldsNormalized(rec);
    LineOneWithNone();
    NonEmptyThree("L. lesliei ssp. None ", "", "");
    assert l.textLines == TextLines(l.genus, l.species, l.subspecies, l.variety, l.cultivar, l.affinity, l.ex,
                                    GateOnSpecies);
  }

  lemma AsciiUid()
    ensures IsAscii("123456")
  {
  }

  lemma NoneFieldsNormalized(rec: PlantRecord)
    requires rec == PlantRecord("123456", None, Some("lithops"), Some("Lesliei"), None, None, None, None, None)
    ensures var l := ExtractData(rec, GateOnSpecies).value;
      && l.genus == Some("L.") && l.species == Some("lesliei") && l.subspecies == None
      && l.variety == None && l.cultivar == None && l.affinity == None && l.ex == None
  {
    AsciiUid();
    assert Lower("Lesliei") == "lesliei";
  }

  lemma LineOneWithNone()
    ensures Line1(Some("L."), Some("lesliei"), None, GateOnSpecies) == "L. lesliei ssp. None "
    ensures Line2(None, None) == "" && Line3(None, None) == ""
  {
  }

  /** With the intended gate, a missing subspecies contributes nothing: line 1
      consists only of the fragments of the fields that are present. */
  lemma IntendedLineOneOmitsAbsent(genus: Option<string>, species: Option<string>,
                                   subspecies: Option<string>)
    requires genus.Some? ==> genus.value != []
    requires !Present(subspecies)
    ensures Line1(genus, species, subspecies, GateOnSubspecies) == Fragment("", genus) + Fragment("", species)
    ensures Line1(genus, species, subspecies, GateOnSubspecies) == ""
        <==> !Present(genus) && !Present(species)
  {
  }
}
