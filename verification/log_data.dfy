/** The value clean-up at the start of `create_log` in plants/services.py: dates
    are serialised and every string is stripped and has its double spaces
    collapsed, in place, before the dict is stored as the log's `data`. */
module LogData {
  import opened Text
  import Dict

  /** A value of the log's data dict. A `datetime.date` or `datetime.datetime`
      is represented by the text its `isoformat()` returns. */
  datatype LogValue =
    | Str(s: string)
    | Moment(iso: string)
    | Number(n: int)
    | Null

  type Data = Dict.Dict<string, LogValue>

  /** `s.strip().replace('  ', ' ')`. */
  function Clean(s: string): string {
    CollapseDoubleSpaces(Strip(s))
  }

  /** One iteration of the loop: a date becomes its ISO text, which is then a
      string and cleaned like every other string. */
  function CleanValue(v: LogValue): LogValue {
    match v
    case Str(s) => Str(Clean(s))
    case Moment(iso) => Str(Clean(iso))
    case _ => v
  }

  /** The loop over every key of `data`; keys and their order are kept. */
  function CleanData(data: Data): (r: Data) {
    seq(|data|, i requires 0 <= i < |data| => (data[i].0, CleanValue(data[i].1)))
  }

  // ---------------------------------------------------------------------------
  // Properties

  /** A cleaned string has no whitespace at either end. */
  lemma CleanTrimmed(s: string)
    ensures Clean(s) == [] || (!IsSpace(Clean(s)[0]) && !IsSpace(Clean(s)[|Clean(s)| - 1]))
  {
  }

  /** Cleaning only removes whitespace: the other characters stay, in order. */
  lemma CleanKeepsVisible(s: string)
    ensures Visible(Clean(s)) == Visible(s)
  {
    StripKeepsVisible(s);
    CollapseKeepsVisible(Strip(s));
  }

  /** A string without edge whitespace and without a double space is kept as it is. */
  lemma CleanFixedPoint(s: string)
    requires s == [] || (!IsSpace(s[0]) && !IsSpace(s[|s| - 1]))
    requires !Contains(s, "  ")
    ensures Clean(s) == s
  {
    StripFixedPoint(s);
    CollapseFixedPoint(s);
  }

  lemma StripFixedPoint(s: string)
    requires s == [] || (!IsSpace(s[0]) && !IsSpace(s[|s| - 1]))
    ensures Strip(s) == s
  {
    assert StripLeft(s) == s;
  }

  /** One pass does not remove every double space: three spaces become two. */
  lemma CleanNotIdempotent()
    ensures Clean("a   b") == "a  b"
    ensures Contains(Clean("a   b"), "  ")
    ensures Clean(Clean("a   b")) == "a b"
  {
    StripFixedPoint("a   b");
    StripFixedPoint("a  b");
    CollapseThree();
    CollapseTwo();
    HasDoubleSpace();
  }

  lemma HasDoubleSpace()
    ensures Contains("a  b", "  ")
  {
    assert "a  b"[1..] == "  b";
    assert "  " <= "  b";
  }

  lemma CollapseThree()
    ensures CollapseDoubleSpaces("a   b") == "a  b"
  {
    assert "a   b"[1..] == "   b";
    assert "   b"[2..] == " b";
    assert " b"[1..] == "b";
    assert CollapseDoubleSpaces(" b") == " b";
  }

  lemma CollapseTwo()
    ensures CollapseDoubleSpaces("a  b") == "a b"
  {
    assert "a  b"[1..] == "  b";
    assert "  b"[2..] == "b";
  }

  /** The loop keeps every key in place, turns every date into a string, cleans
      every string and leaves numbers and `None` untouched. */
  lemma CleanDataSpec(data: Data)
    ensures Dict.Keys(CleanData(data)) == Dict.Keys(data)
    ensures Dict.WellFormed(data) ==> Dict.WellFormed(CleanData(data))
    ensures forall i :: 0 <= i < |data| ==>
              match data[i].1
              case Str(s) => CleanData(data)[i].1 == Str(Clean(s))
              case Moment(iso) => CleanData(data)[i].1 == Str(Clean(iso))
              case _ => CleanData(data)[i].1 == data[i].1
  {
  }

  /** The loop changes only text, and only its whitespace: every key stays in
      place, numbers and `None` are kept, and a string or a date becomes a
      string with the same non-whitespace characters in the same order. */
  lemma CleanDataKeepsText(data: Data)
    ensures Dict.Keys(CleanData(data)) == Dict.Keys(data)
    ensures forall i :: 0 <= i < |data| && (data[i].1.Number? || data[i].1.Null?) ==>
              CleanData(data)[i].1 == data[i].1
    ensures forall i :: 0 <= i < |data| && data[i].1.Str? ==>
              CleanData(data)[i].1.Str? && Visible(CleanData(data)[i].1.s) == Visible(data[i].1.s)
    ensures forall i :: 0 <= i < |data| && data[i].1.Moment? ==>
              CleanData(data)[i].1.Str? && Visible(CleanData(data)[i].1.s) == Visible(data[i].1.iso)
  {
    forall i | 0 <= i < |data| && (data[i].1.Str? || data[i].1.Moment?)
      ensures CleanData(data)[i].1.Str?
      ensures Visible(CleanData(data)[i].1.s) == Visible(if data[i].1.Str? then data[i].1.s else data[i].1.iso)
    {
      match data[i].1
      case Str(s) => CleanKeepsVisible(s);
      case Moment(iso) => CleanKeepsVisible(iso);
    }
  }

  /** After the loop no date is left and every string is trimmed. */
  lemma CleanDataTrimmed(data: Data)
    ensures forall i :: 0 <= i < |data| ==> !CleanData(data)[i].1.Moment?
    ensures forall i :: 0 <= i < |data| && CleanData(data)[i].1.Str? ==>
              var s := CleanData(data)[i].1.s;
              s == [] || (!IsSpace(s[0]) && !IsSpace(s[|s| - 1]))
  {
    forall i | 0 <= i < |data| && CleanData(data)[i].1.Str?
      ensures var s := CleanData(data)[i].1.s; s == [] || (!IsSpace(s[0]) && !IsSpace(s[|s| - 1]))
    {
      match data[i].1
      case Str(s) => CleanTrimmed(s);
      case Moment(iso) => CleanTrimmed(iso);
      case _ =>
    }
  }

  /** Looking a key up after the loop gives the cleaned value. */
  lemma CleanDataGet(data: Data, k: string)
    requires Dict.HasKey(data, k)
    ensures Dict.HasKey(CleanData(data), k) && Dict.Get(CleanData(data), k) == CleanValue(Dict.Get(data, k))
  {
    CleanDataSpec(data);
    Dict.IndexOfSameKeys(data, CleanData(data), k);
  }
}
