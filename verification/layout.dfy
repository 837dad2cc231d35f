/** The page-flow layout of class `LabelsBuilder` (pdf/services.py). The FPDF
    document is abstracted to its current position, its page counter and the
    list of elements drawn so far; the builder's cursor is
    `(cur_x, cur_y, cur_column, cur_lable_num)`. */
module Layout {
  import opened Wrappers
  import opened Text
  import Label

  /** What `_get_start_y_position` does to `cur_x` for column 2. As written, the
      fit branch assigns the misspelt attribute `cru_x` and the transition branch
      assigns nothing, so `cur_x` keeps its value (`KeepX`). `ResetToColumnX`
      moves it to the column's origin in both branches. */
  datatype ColumnRule = KeepX | ResetToColumnX

  /** The layout constants. `Source` holds the values of the code. */
  datatype Config = Config(
    sidePx: nat,              // DATA_MATRIX_SIZE: code side in pixels
    ppmm: real,               // pixels per millimetre
    labelLength: real,        // LABEL_LENGHT
    vSpace: real,             // VERTICAL_SPACE
    pageHigh: real,           // height of an A4 page
    startX: real,
    startY: real,
    columnShift: real,
    fieldNumCellWidth: real,
    clearance: real,          // the literal 10 of the fit test
    gate: Label.SubspeciesGate,
    columnRule: ColumnRule)

  const Source := Config(30, 2.7, 80.0, 20.0, 297.0, 10.0, 10.0, 90.0, 6.0, 10.0,
                         Label.GateOnSpecies, KeepX)

  /** The constants of the code with the column-2 x and the subspecies gate corrected. */
  const Intended := Source.(gate := Label.GateOnSubspecies, columnRule := ResetToColumnX)

  predicate ValidConfig(cfg: Config) {
    cfg.ppmm > 0.0
  }

  /** `dmtx_side_mm = DATA_MATRIX_SIZE // ppmm`: the code side in millimetres. */
  function SideMm(cfg: Config): (s: real)
    requires ValidConfig(cfg)
    ensures 0.0 <= s <= cfg.sidePx as real / cfg.ppmm < s + 1.0
    ensures s == s.Floor as real
  {
    (cfg.sidePx as real / cfg.ppmm).Floor as real
  }

  lemma SourceSide()
    ensures ValidConfig(Source) && SideMm(Source) == 11.0
    ensures ValidConfig(Intended) && SideMm(Intended) == 11.0
  {
    assert 30.0 / 2.7 == 300.0 / 27.0;
    assert 11.0 <= 300.0 / 27.0 < 12.0;
  }

  // ---------------------------------------------------------------------------
  // The FPDF document

  datatype CellKind = FrameCell | CaptionCell | TextCell

  /** Something drawn on page `page` at `(x, y)`. A `CaptionCell` is drawn
      rotated by 90 degrees about its origin. */
  datatype Element =
    | Image(page: nat, x: real, y: real, payload: string)
    | Cell(kind: CellKind, page: nat, x: real, y: real, w: real, h: real, text: string)

  datatype Pdf = Pdf(x: real, y: real, pages: nat, elements: seq<Element>)

  /** `pdf.set_xy(x, y)`. */
  function SetXY(pdf: Pdf, x: real, y: real): Pdf {
    pdf.(x := x, y := y)
  }

  /** `pdf.add_page()`. */
  function AddPage(pdf: Pdf): Pdf {
    pdf.(pages := pdf.pages + 1)
  }

  /** `pdf.image(img, x, y)`: draws without moving the position. */
  function DrawImage(pdf: Pdf, x: real, y: real, payload: string): Pdf {
    pdf.(elements := pdf.elements + [Image(pdf.pages, x, y, payload)])
  }

  /** `pdf.cell(w, h, text)`: draws at the current position and moves right by `w`. */
  function DrawCell(pdf: Pdf, kind: CellKind, w: real, h: real, text: string): Pdf {
    pdf.(x := pdf.x + w, elements := pdf.elements + [Cell(kind, pdf.pages, pdf.x, pdf.y, w, h, text)])
  }

  // ---------------------------------------------------------------------------
  // The builder

  datatype Builder = Builder(curX: real, curY: real, column: int, labelNum: nat, pdf: Pdf)

  /** `LabelsBuilder.__init__` with `_create_pdf`: one page, cursor at the origin,
      column 1. The document's own position starts at its 10 mm margins. */
  function Init(cfg: Config): Builder {
    Builder(cfg.startX, cfg.startY, 1, 0, Pdf(cfg.startX, cfg.startY, 1, []))
  }

  /** The fit test of `_get_start_y_position`. It is strict and takes the code's
      side in pixels (`get_width`) as the label height. */
  predicate Fits(b: Builder, cfg: Config) {
    cfg.pageHigh - b.curY - cfg.sidePx as real > cfg.clearance
  }

  /** The x origin of a column. */
  function ColumnX(cfg: Config, column: int): real {
    if column == 2 then cfg.startX + cfg.columnShift else cfg.startX
  }

  /** `_get_start_y_position`. A label that does not fit sends `cur_y` back to
      the top; from column 2 this starts a new page in column 1, from column 1 it
      moves to column 2 on the same page. A label that fits keeps `cur_y`, the
      column and the page. */
  function StartPosition(b: Builder, cfg: Config): (r: Builder)
    ensures r.labelNum == b.labelNum && r.pdf.elements == b.pdf.elements
    ensures Fits(b, cfg) ==> r.curY == b.curY && r.column == b.column && r.pdf.pages == b.pdf.pages
    ensures !Fits(b, cfg) ==> r.curY == cfg.startY
    ensures !Fits(b, cfg) && b.column == 2 ==> r.column == 1 && r.pdf.pages == b.pdf.pages + 1
    ensures !Fits(b, cfg) && b.column != 2 ==> r.column == 2 && r.pdf.pages == b.pdf.pages
    ensures b.column in {1, 2} ==> r.column in {1, 2}
    ensures Fits(b, cfg) && b.column == 1 ==> r.curX == cfg.startX
    ensures cfg.columnRule == KeepX && !(Fits(b, cfg) && b.column == 1) ==> r.curX == b.curX
    ensures cfg.columnRule == ResetToColumnX && b.column in {1, 2} ==> r.curX == ColumnX(cfg, r.column)
  {
    if !Fits(b, cfg) then
      var b := b.(curY := cfg.startY);
      var b := if b.column == 2 then b.(pdf := AddPage(b.pdf), column := 1) else b.(column := 2);
      match cfg.columnRule
      case KeepX => b
      case ResetToColumnX => b.(curX := ColumnX(cfg, b.column))
    else if b.column == 1 then
      b.(curX := cfg.startX)
    else if b.column == 2 then
      match cfg.columnRule
      case KeepX => b
      case ResetToColumnX => b.(curX := cfg.startX + cfg.columnShift)
    else
      b
  }

  /** `_place_dmtx`. */
  function PlaceDmtx(b: Builder, lbl: Label.Label, cfg: Config): Builder
    requires ValidConfig(cfg)
  {
    var pdf := SetXY(b.pdf, b.curX, b.curY);
    var pdf := DrawImage(pdf, b.curX, b.curY, lbl.puid);
    b.(pdf := pdf, curX := b.curX + SideMm(cfg))
  }

  /** `_place_frame`: a bordered cell 1 mm right of the code, as high as the code. */
  function PlaceFrame(b: Builder, cfg: Config): Builder
    requires ValidConfig(cfg)
  {
    var side := SideMm(cfg);
    var pdf := SetXY(b.pdf, b.curX + 1.0, b.curY);
    var pdf := DrawCell(pdf, FrameCell, cfg.labelLength - side, side, "");
    b.(pdf := pdf)
  }

  /** `_place_field_number`: the rotated caption cell, `cur_y` moved down by the code side. */
  function PlaceFieldNumber(b: Builder, lbl: Label.Label, cfg: Config): Builder
    requires ValidConfig(cfg)
  {
    var side := SideMm(cfg);
    var b := b.(curY := b.curY + side);
    var pdf := SetXY(b.pdf, b.curX, b.curY);
    var text := if Label.Present(lbl.fieldNumber) then lbl.fieldNumber.value else "";
    var pdf := DrawCell(pdf, CaptionCell, side, cfg.fieldNumCellWidth, text);
    b.(pdf := pdf)
  }

  /** The y of line `k` of a stack of lines of height `h` whose top is `top`:
      `h` added `k` times. */
  function RowY(top: real, k: nat, h: real): real {
    if k == 0 then top else RowY(top, k - 1, h) + h
  }

  lemma {:induction false} RowYShift(top: real, k: nat, h: real)
    requires k >= 1
    ensures RowY(top, k, h) == RowY(top + h, k - 1, h)
  {
    if k > 1 {
      RowYShift(top, k - 1, h);
    }
  }

  /** Lines of height `side / n` for `n` between 1 and 3 fill exactly `side`. */
  lemma StackHeight(top: real, n: nat, side: real)
    requires 1 <= n <= 3
    ensures RowY(top, n, side / n as real) == top + side
  {
    var h := side / n as real;
    assert RowY(top, 1, h) == top + h;
    if n == 1 {
      assert h == side;
    } else if n == 2 {
      assert RowY(top, 2, h) == top + h + h;
      assert h + h == side;
    } else {
      assert RowY(top, 2, h) == top + h + h;
      assert RowY(top, 3, h) == top + h + h + h;
      assert h + h + h == side;
    }
  }

  /** The cells of a stack of text lines of height `h` whose top is `top`. */
  function TextStack(page: nat, x: real, top: real, lines: seq<string>, w: real, h: real): (r: seq<Element>)
    ensures |r| == |lines|
    decreases |lines|
  {
    if lines == [] then []
    else [Cell(TextCell, page, x, top, w, h, lines[0])] + TextStack(page, x, top + h, lines[1..], w, h)
  }

  /** Line `k` of the stack is a text cell at the `k`-th row. */
  lemma {:induction false} TextStackAt(page: nat, x: real, top: real, lines: seq<string>, w: real, h: real, k: nat)
    requires k < |lines|
    ensures TextStack(page, x, top, lines, w, h)[k] == Cell(TextCell, page, x, RowY(top, k, h), w, h, lines[k])
    decreases k
  {
    if k > 0 {
      TextStackAt(page, x, top + h, lines[1..], w, h, k - 1);
      RowYShift(top, k, h);
    }
  }

  /** The loop of `_place_text_lines`: one cell per line, `cur_y` advanced by the
      line height and the position reset to `(cur_x, cur_y)` after each. */
  function PlaceLines(pdf: Pdf, x: real, y: real, lines: seq<string>, w: real, h: real): (Pdf, real)
    decreases |lines|
  {
    if lines == [] then (pdf, y)
    else PlaceLines(SetXY(DrawCell(pdf, TextCell, w, h, lines[0]), x, y + h), x, y + h, lines[1..], w, h)
  }

  /** Starting at `(x, y)`, the loop draws the stack of lines top-down and ends
      at the bottom of the stack, back at `x`. */
  lemma {:induction false} PlaceLinesEffect(pdf: Pdf, x: real, y: real, lines: seq<string>, w: real, h: real)
    requires pdf.x == x && pdf.y == y
    ensures var r := PlaceLines(pdf, x, y, lines, w, h);
      && r.1 == RowY(y, |lines|, h)
      && r.0.pages == pdf.pages
      && r.0.elements == pdf.elements + TextStack(pdf.pages, x, y, lines, w, h)
      && r.0.x == x && r.0.y == r.1
    decreases |lines|
  {
    if lines != [] {
      var pdf' := SetXY(DrawCell(pdf, TextCell, w, h, lines[0]), x, y + h);
      PlaceLinesEffect(pdf', x, y + h, lines[1..], w, h);
      RowYShift(y, |lines|, h);
      assert pdf'.elements == pdf.elements + [Cell(TextCell, pdf.pages, x, y, w, h, lines[0])];
    }
  }

  /** `_place_text_lines`. The guard `not label.get_lines_number == 0` compares
      the bound method with 0 and is therefore always true. */
  function PlaceTextLines(b: Builder, lbl: Label.Label, cfg: Config): (r: Builder)
    requires ValidConfig(cfg) && Label.WellFormed(lbl)
    ensures var side := SideMm(cfg);
      && r.column == b.column && r.labelNum == b.labelNum && r.pdf.pages == b.pdf.pages
      && r.curX == b.curX + cfg.fieldNumCellWidth && r.pdf.x == r.curX
      && r.curY == b.curY - side + side && r.pdf.y == r.curY
      && r.pdf.elements == b.pdf.elements
           + TextStack(b.pdf.pages, r.curX, b.curY - side, lbl.textLines,
                       cfg.labelLength - side - cfg.fieldNumCellWidth,
                       side / |lbl.textLines| as real)
  {
    var side := SideMm(cfg);
    var b := b.(curX := b.curX + cfg.fieldNumCellWidth);
    var b := b.(curY := b.curY - side);
    var pdf := SetXY(b.pdf, b.curX, b.curY);
    var h := side / Label.LinesNumber(lbl) as real;
    var w := cfg.labelLength - side - cfg.fieldNumCellWidth;
    StackHeight(b.curY, |lbl.textLines|, side);
    PlaceLinesEffect(pdf, b.curX, b.curY, lbl.textLines, w, h);
    var (pdf, y) := PlaceLines(pdf, b.curX, b.curY, lbl.textLines, w, h);
    b.(pdf := pdf, curY := y)
  }

  /** The elements one label consists of when its code is drawn at `(x, top)` on
      page `page`: the code, the frame, the caption and the stacked text lines. */
  function LabelElements(page: nat, x: real, top: real, lbl: Label.Label, cfg: Config): seq<Element>
    requires ValidConfig(cfg) && Label.WellFormed(lbl)
  {
    var side := SideMm(cfg);
    var text := if Label.Present(lbl.fieldNumber) then lbl.fieldNumber.value else "";
    [ Image(page, x, top, lbl.puid),
      Cell(FrameCell, page, x + side + 1.0, top, cfg.labelLength - side, side, ""),
      Cell(CaptionCell, page, x + side, top + side, side, cfg.fieldNumCellWidth, text) ]
    + TextStack(page, x + side + cfg.fieldNumCellWidth, top, lbl.textLines,
                cfg.labelLength - side - cfg.fieldNumCellWidth, side / |lbl.textLines| as real)
  }

  /** One iteration of the loop of `generate_labels` after the label is built:
      the label is drawn at the start position, then `cur_x` takes the
      document's x and `cur_y` the document's y plus the vertical space. */
  function PlaceLabel(b: Builder, lbl: Label.Label, cfg: Config): (r: Builder)
    requires ValidConfig(cfg) && Label.WellFormed(lbl)
    ensures var s := StartPosition(b, cfg);
      && r.labelNum == b.labelNum + 1
      && r.column == s.column && r.pdf.pages == s.pdf.pages
      && r.pdf.elements == b.pdf.elements + LabelElements(s.pdf.pages, s.curX, s.curY, lbl, cfg)
      && r.curX == s.curX + SideMm(cfg) + cfg.fieldNumCellWidth
      && r.curY == s.curY + SideMm(cfg) + cfg.vSpace
  {
    var side := SideMm(cfg);
    var s := StartPosition(b.(labelNum := b.labelNum + 1), cfg);
    assert s.pdf == StartPosition(b, cfg).pdf && s.curX == StartPosition(b, cfg).curX
        && s.curY == StartPosition(b, cfg).curY && s.column == StartPosition(b, cfg).column;
    var b1 := PlaceDmtx(s, lbl, cfg);
    var b2 := PlaceFrame(b1, cfg);
    var b3 := PlaceFieldNumber(b2, lbl, cfg);
    assert b3.curX == s.curX + side && b3.curY == s.curY + side;
    assert b3.pdf.pages == s.pdf.pages;
    assert b3.pdf.elements == s.pdf.elements + LabelElements(s.pdf.pages, s.curX, s.curY, lbl, cfg)[..3];
    var b4 := PlaceTextLines(b3, lbl, cfg);
    b4.(curX := b4.pdf.x, curY := b4.pdf.y + cfg.vSpace)
  }

  // ---------------------------------------------------------------------------
  // The document

  /** One record: build its label (which raises for a non-ASCII uid) and place it. */
  function Step(b: Builder, rec: Label.PlantRecord, cfg: Config): (r: Result<Builder, Label.LabelError>)
    requires ValidConfig(cfg)
    ensures r.Success? <==> IsAscii(rec.uid)
  {
    var lbl :- Label.ExtractData(rec, cfg.gate);
    Success(PlaceLabel(b, lbl, cfg))
  }

  /** The loop of `generate_labels` over `recs`, from builder state `b`. The first
      record whose uid cannot be encoded aborts the whole build. */
  function Run(b: Builder, recs: seq<Label.PlantRecord>, cfg: Config): Result<Builder, Label.LabelError>
    requires ValidConfig(cfg)
    decreases |recs|
  {
    if recs == [] then Success(b)
    else
      var prev :- Run(b, recs[..|recs| - 1], cfg);
      Step(prev, recs[|recs| - 1], cfg)
  }

  /** `LabelsBuilder(rich_plants).generate_labels()`. */
  function GenerateLabels(recs: seq<Label.PlantRecord>, cfg: Config): Result<Builder, Label.LabelError>
    requires ValidConfig(cfg)
  {
    Run(Init(cfg), recs, cfg)
  }

  /** The code images drawn, in order. */
  function Images(es: seq<Element>): (r: seq<Element>)
    ensures forall k :: 0 <= k < |r| ==> r[k].Image?
  {
    if es == [] then [] else (if es[0].Image? then [es[0]] else []) + Images(es[1..])
  }

  lemma {:induction false} ImagesAppend(a: seq<Element>, b: seq<Element>)
    ensures Images(a + b) == Images(a) + Images(b)
  {
    if a == [] {
      assert a + b == b;
    } else {
      assert (a + b)[0] == a[0];
      assert (a + b)[1..] == a[1..] + b;
      ImagesAppend(a[1..], b);
    }
  }

  lemma {:induction false} ImagesOfStack(page: nat, x: real, top: real, lines: seq<string>, w: real, h: real)
    ensures Images(TextStack(page, x, top, lines, w, h)) == []
    decreases |lines|
  {
    if lines != [] {
      ImagesOfStack(page, x, top + h, lines[1..], w, h);
    }
  }

  /** Each label contributes exactly one code image, at its start position. */
  lemma ImagesOfLabel(page: nat, x: real, top: real, lbl: Label.Label, cfg: Config)
    requires ValidConfig(cfg) && Label.WellFormed(lbl)
    ensures Images(LabelElements(page, x, top, lbl, cfg)) == [Image(page, x, top, lbl.puid)]
  {
    var side := SideMm(cfg);
    var text := if Label.Present(lbl.fieldNumber) then lbl.fieldNumber.value else "";
    var img := Image(page, x, top, lbl.puid);
    var frame := Cell(FrameCell, page, x + side + 1.0, top, cfg.labelLength - side, side, "");
    var caption := Cell(CaptionCell, page, x + side, top + side, side, cfg.fieldNumCellWidth, text);
    var stack := TextStack(page, x + side + cfg.fieldNumCellWidth, top, lbl.textLines,
                           cfg.labelLength - side - cfg.fieldNumCellWidth, side / |lbl.textLines| as real);
    assert LabelElements(page, x, top, lbl, cfg) == [img, frame, caption] + stack;
    ImagesOfStack(page, x + side + cfg.fieldNumCellWidth, top, lbl.textLines,
                  cfg.labelLength - side - cfg.fieldNumCellWidth, side / |lbl.textLines| as real);
    ImagesAppend([img, frame, caption], stack);
    assert [img, frame, caption][1..] == [frame, caption];
    assert [frame, caption][1..] == [caption];
    assert [caption][1..] == [];
    assert Images([caption]) == [];
    assert Images([frame, caption]) == [];
  }
}
