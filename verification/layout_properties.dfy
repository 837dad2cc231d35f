/** What a whole run of `generate_labels` produces: the shape of the result for
    any configuration, and the exact position of every label under the
    constants of the code. */
module LayoutProperties {
  import opened Wrappers
  import opened Text
  import Label
  import opened Layout

  predicate AllAscii(recs: seq<Label.PlantRecord>) {
    forall k :: 0 <= k < |recs| ==> IsAscii(recs[k].uid)
  }

  lemma Snoc<T>(s: seq<T>)
    requires s != []
    ensures s[..|s| - 1] + [s[|s| - 1]] == s
  {
  }

  lemma AllAsciiSnoc(recs: seq<Label.PlantRecord>)
    requires recs != []
    ensures AllAscii(recs) <==> AllAscii(recs[..|recs| - 1]) && IsAscii(recs[|recs| - 1].uid)
  {
    assert forall k :: 0 <= k < |recs| - 1 ==> recs[..|recs| - 1][k] == recs[k];
  }

  /** The builder after a successful run over `n` records: one label per record,
      a column of 1 or 2, and exactly one code image per record, carrying the
      record's uid, in record order. */
  predicate RunShape(b: Builder, recs: seq<Label.PlantRecord>) {
    && b.labelNum == |recs|
    && b.column in {1, 2}
    && b.pdf.pages >= 1
    && |Images(b.pdf.elements)| == |recs|
    && forall k :: 0 <= k < |recs| ==> Images(b.pdf.elements)[k].payload == recs[k].uid
  }

  /** Placing one label appends exactly one image: the label's code at its start position. */
  lemma PlaceLabelImages(b: Builder, lbl: Label.Label, cfg: Config)
    requires ValidConfig(cfg) && Label.WellFormed(lbl)
    ensures var s := StartPosition(b, cfg);
      Images(PlaceLabel(b, lbl, cfg).pdf.elements)
        == Images(b.pdf.elements) + [Image(s.pdf.pages, s.curX, s.curY, lbl.puid)]
  {
    var s := StartPosition(b, cfg);
    ImagesAppend(b.pdf.elements, LabelElements(s.pdf.pages, s.curX, s.curY, lbl, cfg));
    ImagesOfLabel(s.pdf.pages, s.curX, s.curY, lbl, cfg);
  }

  /** The last record is placed on the builder left by the ones before it. */
  lemma GenerateLabelsLast(recs: seq<Label.PlantRecord>, cfg: Config)
    requires ValidConfig(cfg) && recs != []
    ensures var prev := GenerateLabels(recs[..|recs| - 1], cfg);
      && (prev.Failure? ==> GenerateLabels(recs, cfg).Failure?)
      && (prev.Success? ==> GenerateLabels(recs, cfg) == Step(prev.value, recs[|recs| - 1], cfg))
  {
  }

  /** A record with an ASCII uid is placed as the label `ExtractData` builds. */
  lemma StepPlaces(b: Builder, rec: Label.PlantRecord, cfg: Config)
    requires ValidConfig(cfg) && IsAscii(rec.uid)
    ensures var lbl := Label.ExtractData(rec, cfg.gate).value;
      && Label.WellFormed(lbl) && lbl.puid == rec.uid
      && Step(b, rec, cfg) == Success(PlaceLabel(b, lbl, cfg))
  {
  }

  /** Placing a label counts it, keeps the column in 1 or 2 and never removes a page. */
  lemma PlaceLabelShape(b: Builder, lbl: Label.Label, cfg: Config)
    requires ValidConfig(cfg) && Label.WellFormed(lbl)
    requires b.column in {1, 2} && b.pdf.pages >= 1
    ensures var r := PlaceLabel(b, lbl, cfg);
      r.labelNum == b.labelNum + 1 && r.column in {1, 2} && r.pdf.pages >= b.pdf.pages
  {
  }

  /** A record with an ASCII uid extends the shape by one code carrying its uid. */
  lemma StepShape(b: Builder, init: seq<Label.PlantRecord>, rec: Label.PlantRecord, cfg: Config)
    requires ValidConfig(cfg) && RunShape(b, init) && IsAscii(rec.uid)
    ensures Step(b, rec, cfg).Success? && RunShape(Step(b, rec, cfg).value, init + [rec])
  {
    StepPlaces(b, rec, cfg);
    var lbl := Label.ExtractData(rec, cfg.gate).value;
    PlaceLabelImages(b, lbl, cfg);
    PlaceLabelShape(b, lbl, cfg);
    var r := PlaceLabel(b, lbl, cfg);
    var s := StartPosition(b, cfg);
    var recs := init + [rec];
    var imgs := Images(r.pdf.elements);
    assert imgs == Images(b.pdf.elements) + [Image(s.pdf.pages, s.curX, s.curY, rec.uid)];
    forall k | 0 <= k < |recs|
      ensures imgs[k].payload == recs[k].uid
    {
      if k < |init| {
        assert imgs[k] == Images(b.pdf.elements)[k];
      }
    }
  }

  /** The build succeeds exactly when every uid is ASCII, and then it holds one
      code per record, in order. */
  lemma {:induction false} GenerateLabelsShape(recs: seq<Label.PlantRecord>, cfg: Config)
    requires ValidConfig(cfg)
    ensures GenerateLabels(recs, cfg).Success? <==> AllAscii(recs)
    ensures GenerateLabels(recs, cfg).Success? ==> RunShape(GenerateLabels(recs, cfg).value, recs)
    decreases |recs|
  {
    if recs != [] {
      var init := recs[..|recs| - 1];
      var rec := recs[|recs| - 1];
      GenerateLabelsShape(init, cfg);
      GenerateLabelsLast(recs, cfg);
      AllAsciiSnoc(recs);
      var prev := GenerateLabels(init, cfg);
      if prev.Success? && IsAscii(rec.uid) {
        StepShape(prev.value, init, rec, cfg);
        Snoc(recs);
      }
    }
  }

  // ---------------------------------------------------------------------------
  // Closed form under the constants of the code

  /** A configuration with the numbers of the code; the gate and the column rule are free. */
  predicate SourceGeometry(cfg: Config) {
    cfg == Source.(gate := cfg.gate, columnRule := cfg.columnRule)
  }

  /** Eight labels fit in a column: label `k` (0-based) is in row `k % 8`. */
  function TopOf(k: nat): real {
    10.0 + 31.0 * (k % 8) as real
  }

  /** Columns alternate 1, 2, 1, 2, ... every eight labels. */
  function ColumnOf(k: nat): int {
    if (k / 8) % 2 == 0 then 1 else 2
  }

  /** Sixteen labels per page; pages are numbered from 1. */
  function PageOf(k: nat): nat {
    k / 16 + 1
  }

  /** The x at which the code of label `k` is drawn under `KeepX`: in column 2
      every label inherits the right edge of the previous one and drifts 17 mm to
      the right; the first label of a later page inherits the right edge of the
      last label of column 2. */
  function AsWrittenX(k: nat): real {
    if ColumnOf(k) == 2 then 10.0 + 17.0 * (k % 8 + 1) as real
    else if k % 8 == 0 && k > 0 then 163.0
    else 10.0
  }

  /** The x of label `k` under either column rule. */
  function XOf(cfg: Config, k: nat): real {
    match cfg.columnRule
    case KeepX => AsWrittenX(k)
    case ResetToColumnX => ColumnX(cfg, ColumnOf(k))
  }

  /** The builder after `n` labels have been placed (without the document's elements). */
  predicate After(b: Builder, n: nat, cfg: Config) {
    && b.labelNum == n
    && (n == 0 ==> b.curX == 10.0 && b.curY == 10.0 && b.column == 1 && b.pdf.pages == 1)
    && (n > 0 ==>
          && b.curX == XOf(cfg, n - 1) + 17.0
          && b.curY == TopOf(n - 1) + 31.0
          && b.column == ColumnOf(n - 1)
          && b.pdf.pages == PageOf(n - 1))
  }

  /** Division facts about the predecessor of `n`. */
  lemma Predecessor(n: nat)
    requires n > 0
    ensures n % 8 != 0 ==> (n - 1) % 8 == n % 8 - 1 && (n - 1) / 8 == n / 8 && (n - 1) / 16 == n / 16
    ensures n % 8 == 0 ==> (n - 1) % 8 == 7 && (n - 1) / 8 == n / 8 - 1
    ensures n % 8 == 0 && (n / 8) % 2 == 1 ==> (n - 1) / 16 == n / 16
    ensures n % 8 == 0 && (n / 8) % 2 == 0 ==> (n - 1) / 16 + 1 == n / 16
  {
    var q, r := n / 16, n % 16;
    Div16(n, q, r);
    if r == 0 {
      Div8(n, 2 * q, 0);
      Div8(n - 1, 2 * q - 1, 7);
      Div16(n - 1, q - 1, 15);
    } else if r < 8 {
      Div8(n, 2 * q, r);
      Div8(n - 1, 2 * q, r - 1);
      Div16(n - 1, q, r - 1);
    } else if r == 8 {
      Div8(n, 2 * q + 1, 0);
      Div8(n - 1, 2 * q, 7);
      Div16(n - 1, q, 7);
    } else {
      Div8(n, 2 * q + 1, r - 8);
      Div8(n - 1, 2 * q + 1, r - 9);
      Div16(n - 1, q, r - 1);
    }
    Div2(2 * q, q, 0);
    Div2(2 * q + 1, q, 1);
    if q > 0 {
      Div2(2 * q - 1, q - 1, 1);
    }
  }

  lemma Div2(n: int, q: int, r: int)
    requires n == 2 * q + r && 0 <= r < 2
    ensures n / 2 == q && n % 2 == r
  {
  }

  lemma Div8(n: int, q: int, r: int)
    requires n == 8 * q + r && 0 <= r < 8
    ensures n / 8 == q && n % 8 == r
  {
  }

  lemma Div16(n: int, q: int, r: int)
    requires n == 16 * q + r && 0 <= r < 16
    ensures n / 16 == q && n % 16 == r
  {
  }

  /** The start position of label `n` under the constants of the code. */
  lemma {:induction false} StartOf(b: Builder, n: nat, cfg: Config)
    requires SourceGeometry(cfg) && After(b, n, cfg)
    ensures var s := StartPosition(b, cfg);
      && s.curX == XOf(cfg, n) && s.curY == TopOf(n)
      && s.column == ColumnOf(n) && s.pdf.pages == PageOf(n)
  {
    var s := StartPosition(b, cfg);
    if n > 0 {
      Predecessor(n);
      if n % 8 != 0 {
        assert Fits(b, cfg);
      } else {
        assert !Fits(b, cfg);
      }
    } else {
      assert Fits(b, cfg);
    }
  }

  /** The codes `imgs` are those of `recs`, each at its closed-form position. */
  predicate Positioned(imgs: seq<Element>, recs: seq<Label.PlantRecord>, cfg: Config) {
    && |imgs| == |recs|
    && forall k :: 0 <= k < |recs| ==> imgs[k] == Image(PageOf(k), XOf(cfg, k), TopOf(k), recs[k].uid)
  }

  /** One more label keeps the closed form. */
  lemma StepAfter(b: Builder, n: nat, rec: Label.PlantRecord, cfg: Config)
    requires SourceGeometry(cfg) && After(b, n, cfg) && IsAscii(rec.uid)
    ensures ValidConfig(cfg) && Step(b, rec, cfg).Success?
    ensures After(Step(b, rec, cfg).value, n + 1, cfg)
    ensures Images(Step(b, rec, cfg).value.pdf.elements)
         == Images(b.pdf.elements) + [Image(PageOf(n), XOf(cfg, n), TopOf(n), rec.uid)]
  {
    SourceSide();
    StepPlaces(b, rec, cfg);
    var lbl := Label.ExtractData(rec, cfg.gate).value;
    StartOf(b, n, cfg);
    PlaceLabelImages(b, lbl, cfg);
  }

  lemma PositionedSnoc(imgs: seq<Element>, init: seq<Label.PlantRecord>, rec: Label.PlantRecord, cfg: Config)
    requires Positioned(imgs, init, cfg)
    ensures Positioned(imgs + [Image(PageOf(|init|), XOf(cfg, |init|), TopOf(|init|), rec.uid)], init + [rec], cfg)
  {
  }

  /** Under the constants of the code, the code of label `k` is drawn on page
      `PageOf(k)` at `(XOf(cfg, k), TopOf(k))`. */
  lemma {:induction false} LabelPositions(recs: seq<Label.PlantRecord>, cfg: Config)
    requires SourceGeometry(cfg) && AllAscii(recs)
    ensures ValidConfig(cfg) && GenerateLabels(recs, cfg).Success?
    ensures var b := GenerateLabels(recs, cfg).value;
      After(b, |recs|, cfg) && Positioned(Images(b.pdf.elements), recs, cfg)
    decreases |recs|
  {
    SourceSide();
    if recs != [] {
      var init := recs[..|recs| - 1];
      var rec := recs[|recs| - 1];
      AllAsciiSnoc(recs);
      LabelPositions(init, cfg);
      GenerateLabelsLast(recs, cfg);
      var prev := GenerateLabels(init, cfg).value;
      StepAfter(prev, |init|, rec, cfg);
      PositionedSnoc(Images(prev.pdf.elements), init, rec, cfg);
      Snoc(recs);
    }
  }

  /** As written, column 2 drifts: the ninth label, the first of column 2, is
      drawn at x = 27 mm instead of 100 mm, and the sixteenth at x = 146 mm,
      so that its 81 mm wide label ends at 227 mm, past the 210 mm width of an
      A4 page. The seventeenth, on page 2, starts at 163 mm. */
  lemma ColumnTwoDrift()
    ensures XOf(Source, 8) == 27.0 && ColumnOf(8) == 2
    ensures XOf(Source, 15) == 146.0 && XOf(Source, 15) + 81.0 > 210.0
    ensures XOf(Source, 16) == 163.0 && PageOf(16) == 2 && ColumnOf(16) == 1
  {
  }

  /** With the column origin reset, every code is drawn at 10 mm or at 100 mm,
      and every label (81 mm wide) ends within the 210 mm width of the page;
      every label's 11 mm code ends at most 248 mm down the page. */
  lemma IntendedColumns(k: nat)
    ensures XOf(Intended, k) == (if ColumnOf(k) == 1 then 10.0 else 100.0)
    ensures XOf(Intended, k) + 81.0 <= 210.0
    ensures 10.0 <= TopOf(k) && TopOf(k) + 11.0 <= 248.0
  {
  }
}
