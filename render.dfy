/**
 * The two rendering strategies (`render_act_template`,
 * `render_certificate_template`) and their dispatch on the template's file
 * stem after filtering the table by id (`render_template`). A render yields
 * the keyword set handed to `string.Template.safe_substitute`.
 */
module Render {
  import opened Wrappers
  import opened Numerals
  import opened Table
  import opened Markup

  /** The closed set of template kinds, keyed by the template file's stem. */
  datatype Strategy = Act | Certificate

  function StrategyOf(stem: string): Option<Strategy> {
    if stem == "act" then Some(Act)
    else if stem == "certificate" then Some(Certificate)
    else None
  }

  /** A substituted value: cell text, or the act's grand total before its two-decimal formatting. */
  datatype Value = Text(text: string) | Amount(amount: real)

  type Keywords = map<string, Value>

  /** The two failures `render_template` reports. */
  datatype RenderError = NoDataForId(id: int) | UnknownTemplateType(name: string)

  // ----- act: positions table and grand total -----

  /** The six cells of one positions-table row: its number, then the row's own columns. */
  function Cells(number: nat, r: Row): seq<string> {
    [NatToString(number), r.workName, r.quantity, r.unit, r.unitPrice, r.total]
  }

  function PositionRow(number: nat, r: Row): string {
    RowText(Cells(number, r))
  }

  /** `positions_rows` after the loop has seen the rows of `g`: row k of `g` numbered k + 1. */
  function PositionsRows(g: seq<Row>): string {
    if g == [] then ""
    else PositionsRows(g[..|g| - 1]) + PositionRow(|g|, g[|g| - 1])
  }

  /** What one row adds to the grand total: its parsed `total`, or nothing when that does not parse. */
  function LineTotal(r: Row): real {
    match ParseDecimal(r.total)
    case Some(v) => v
    case None => 0.0
  }

  /** `total_amount` after the loop has seen the rows of `g`. */
  function TotalAmount(g: seq<Row>): real {
    if g == [] then 0.0
    else TotalAmount(g[..|g| - 1]) + LineTotal(g[|g| - 1])
  }

  const ActKeys: set<string> :=
    {"act_number", "act_date", "contract_number", "object_address",
     "positions_rows", "total_amount", "client", "contractor"}

  function ActMap(first: Row, positionsRows: string, totalAmount: real): Keywords {
    map["act_number" := Text(first.actNumber),
        "act_date" := Text(first.actDate),
        "contract_number" := Text(first.contractNumber),
        "object_address" := Text(first.objectAddress),
        "positions_rows" := Text(positionsRows),
        "total_amount" := Amount(totalAmount),
        "client" := Text(first.client),
        "contractor" := Text(first.contractor)]
  }

  /** The keyword set of an act rendered from group `g`; None for an empty group. */
  function ActKeywords(g: seq<Row>): (r: Option<Keywords>)
    ensures r.None? <==> g == []
    ensures r.Some? ==> r.value.Keys == ActKeys
  {
    if g == [] then None
    else Some(ActMap(g[0], PositionsRows(g), TotalAmount(g)))
  }

  /** One turn of the act loop appends row `idx`'s fragment and adds its line total. */
  lemma ActLoopStep(g: seq<Row>, idx: nat)
    requires idx < |g|
    ensures PositionsRows(g[..idx + 1]) == PositionsRows(g[..idx]) + PositionRow(idx + 1, g[idx])
    ensures TotalAmount(g[..idx + 1]) == TotalAmount(g[..idx]) + LineTotal(g[idx])
  {
    var front := g[..idx + 1];
    assert front[..|front| - 1] == g[..idx] && front[|front| - 1] == g[idx];
  }

  /** `render_act_template`: one pass over the group, building the rows and the total. */
  method RenderActTemplate(g: seq<Row>) returns (r: Option<Keywords>)
    ensures r == ActKeywords(g)
  {
    if |g| == 0 {
      return None;
    }
    var first := g[0];
    var positionsRows := "";
    var totalAmount := 0.0;
    var idx := 0;
    while idx < |g|
      invariant 0 <= idx <= |g|
      invariant positionsRows == PositionsRows(g[..idx])
      invariant totalAmount == TotalAmount(g[..idx])
    {
      var row := g[idx];
      ActLoopStep(g, idx);
      match ParseDecimal(row.total) {
        case Some(v) => totalAmount := totalAmount + v;
        case None =>
      }
      positionsRows := positionsRows + PositionRow(idx + 1, row);
      idx := idx + 1;
    }
    assert g[..idx] == g;
    r := Some(ActMap(first, positionsRows, totalAmount));
  }

  // ----- certificate -----

  const CertificateKeys: set<string> := {"student_name", "course_name", "cert_date"}

  /** `render_certificate_template`: three columns of one row. */
  function CertificateKeywords(r: Row): (k: Keywords)
    ensures k.Keys == CertificateKeys
    ensures forall key :: key in k ==> k[key].Text?
  {
    map["student_name" := Text(r.studentName),
        "course_name" := Text(r.courseName),
        "cert_date" := Text(r.certDate)]
  }

  // ----- dispatch -----

  /** `render_template`: filter by id, fail on an empty group, then pick the strategy by stem. */
  function RenderTemplate(stem: string, t: Table, id: int): (r: Result<Keywords, RenderError>)
    ensures r == Failure(NoDataForId(id)) <==> forall i :: 0 <= i < |t| ==> t[i].id != id
    ensures (exists i :: 0 <= i < |t| && t[i].id == id) && StrategyOf(stem) == None ==>
              r == Failure(UnknownTemplateType(stem))
    ensures r.Success? ==> StrategyOf(stem) != None && |Group(t, id)| > 0
    ensures r.Success? && stem == "act" ==> r.value.Keys == ActKeys
    ensures r.Success? && stem == "certificate" ==> r.value.Keys == CertificateKeys
  {
    var g := Group(t, id);
    if |g| == 0 then Failure(NoDataForId(id))
    else match StrategyOf(stem)
      case Some(Act) => Success(ActKeywords(g).value)
      case Some(Certificate) => Success(CertificateKeywords(g[0]))
      case None => Failure(UnknownTemplateType(stem))
  }

  // ----- properties of the positions table -----

  /** A row whose rendered columns hold no `<` (the source inserts cell text unescaped). */
  predicate PlainRow(r: Row) {
    NoLt(r.workName) && NoLt(r.quantity) && NoLt(r.unit) && NoLt(r.unitPrice) && NoLt(r.total)
  }

  lemma PlainCells(number: nat, r: Row)
    requires PlainRow(r)
    ensures AllNoLt(Cells(number, r))
  {
  }

  /** For a group of N rows with plain cells the positions text holds exactly N `<tr>` tags. */
  lemma {:induction false} PositionsRowsCount(g: seq<Row>)
    requires forall k :: 0 <= k < |g| ==> PlainRow(g[k])
    ensures CountTr(PositionsRows(g)) == |g|
  {
    if g != [] {
      var init := g[..|g| - 1];
      var last := PositionRow(|g|, g[|g| - 1]);
      PositionsRowsCount(init);
      PlainCells(|g|, g[|g| - 1]);
      CountTrRow(Cells(|g|, g[|g| - 1]));
      assert last[0] == '\n';
      CountTrConcat(PositionsRows(init), last);
    }
  }

  /** The positions text of a prefix of the group is a prefix of the whole text. */
  lemma {:induction false} PositionsRowsPrefix(g: seq<Row>, m: nat)
    requires m <= |g|
    ensures StartsWith(PositionsRows(g), PositionsRows(g[..m]))
    decreases |g| - m
  {
    if m == |g| {
      assert g[..m] == g;
    } else {
      var init := g[..|g| - 1];
      PositionsRowsPrefix(init, m);
      assert init[..m] == g[..m];
      var p := PositionsRows(g[..m]);
      assert PositionsRows(g) == PositionsRows(init) + PositionRow(|g|, g[|g| - 1]);
      assert PositionsRows(g)[..|p|] == PositionsRows(init)[..|p|];
    }
  }

  lemma {:induction false} PositionRowFollowsPrefix(g: seq<Row>, k: nat)
    requires k < |g|
    ensures StartsWith(PositionsRows(g), PositionsRows(g[..k]) + PositionRow(k + 1, g[k]))
  {
    PositionsRowsPrefix(g, k + 1);
    ActLoopStep(g, k);
  }

  lemma PositionsBefore(g: seq<Row>, k: nat)
    requires k < |g|
    requires forall j :: 0 <= j < |g| ==> PlainRow(g[j])
    ensures CountTr(PositionsRows(g[..k])) == k
  {
    forall j | 0 <= j < k ensures PlainRow(g[..k][j]) {
      assert g[..k][j] == g[j];
    }
    PositionsRowsCount(g[..k]);
  }

  /**
   * Row k of the group (0-based) is rendered as the row numbered k + 1, and
   * exactly k `<tr>` tags come before it: the rows appear in group order.
   */
  lemma PositionPlacement(g: seq<Row>, k: nat)
    requires k < |g|
    requires forall j :: 0 <= j < |g| ==> PlainRow(g[j])
    ensures StartsWith(PositionsRows(g), PositionsRows(g[..k]) + PositionRow(k + 1, g[k]))
    ensures CountTr(PositionsRows(g[..k])) == k
  {
    PositionRowFollowsPrefix(g, k);
    PositionsBefore(g, k);
  }

  /** A rendered position row reads back as its number followed by the row's five columns. */
  lemma PositionRowReadBack(number: nat, r: Row)
    requires PlainRow(r)
    ensures var cells := ReadRow(PositionRow(number, r));
            cells.Some? && |cells.value| == 6 && ParseInt(cells.value[0]) == Some(number) &&
            cells.value[1..] == [r.workName, r.quantity, r.unit, r.unitPrice, r.total]
  {
    PlainCells(number, r);
    ReadRowRoundTrip(Cells(number, r));
    ParseIntRoundTrip(number);
  }

  // ----- properties of the grand total -----

  lemma {:induction false} TotalAmountAppend(a: seq<Row>, b: seq<Row>)
    ensures TotalAmount(a + b) == TotalAmount(a) + TotalAmount(b)
  {
    if b == [] {
      assert a + b == a;
    } else {
      var initB := b[..|b| - 1];
      assert (a + b)[..|a + b| - 1] == a + initB;
      TotalAmountAppend(a, initB);
    }
  }

  /** A row whose `total` does not parse adds nothing to the grand total, wherever it stands. */
  lemma TotalAmountSkipsUnparsable(a: seq<Row>, r: Row, b: seq<Row>)
    requires ParseDecimal(r.total) == None
    ensures TotalAmount(a + [r] + b) == TotalAmount(a + b)
  {
    TotalAmountAppend(a + [r], b);
    TotalAmountAppend(a, [r]);
    assert TotalAmount([r]) == TotalAmount([]) + LineTotal(r);
    TotalAmountAppend(a, b);
  }

  // ----- the header comes from the first row only -----

  /** The columns the positions table and the total read from every row. */
  predicate SamePositions(r: Row, s: Row) {
    r.workName == s.workName && r.quantity == s.quantity && r.unit == s.unit &&
    r.unitPrice == s.unitPrice && r.total == s.total
  }

  /** The header columns the act reads from its first row. */
  predicate SameActHeader(r: Row, s: Row) {
    r.actNumber == s.actNumber && r.actDate == s.actDate && r.contractNumber == s.contractNumber &&
    r.objectAddress == s.objectAddress && r.client == s.client && r.contractor == s.contractor
  }

  lemma {:induction false} PositionsOnly(g: seq<Row>, h: seq<Row>)
    requires |g| == |h|
    requires forall k :: 0 <= k < |g| ==> SamePositions(g[k], h[k])
    ensures PositionsRows(g) == PositionsRows(h) && TotalAmount(g) == TotalAmount(h)
  {
    if g != [] {
      PositionsOnly(g[..|g| - 1], h[..|h| - 1]);
      assert Cells(|g|, g[|g| - 1]) == Cells(|h|, h[|h| - 1]);
    }
  }

  /**
   * Two groups with the same position columns row by row render the same act
   * as soon as their FIRST rows agree on the header: the header columns of
   * every later row are never read.
   */
  lemma ActHeaderFromFirstRow(g: seq<Row>, h: seq<Row>)
    requires |g| == |h| > 0
    requires forall k :: 0 <= k < |g| ==> SamePositions(g[k], h[k])
    requires SameActHeader(g[0], h[0])
    ensures ActKeywords(g) == ActKeywords(h)
  {
    PositionsOnly(g, h);
  }

  lemma ActMapLookups(first: Row, positionsRows: string, totalAmount: real)
    ensures var m := ActMap(first, positionsRows, totalAmount);
            m["act_number"] == Text(first.actNumber) &&
            m["act_date"] == Text(first.actDate) &&
            m["contract_number"] == Text(first.contractNumber) &&
            m["object_address"] == Text(first.objectAddress) &&
            m["client"] == Text(first.client) &&
            m["contractor"] == Text(first.contractor) &&
            m["positions_rows"] == Text(positionsRows) &&
            m["total_amount"] == Amount(totalAmount)
  {
  }

  /** The act rendered for an id takes its header from the earliest table row with that id. */
  lemma ActFromFirstMatch(t: Table, id: int, k: nat)
    requires k < |t| && t[k].id == id
    requires forall j :: 0 <= j < k ==> t[j].id != id
    ensures var g := Group(t, id);
            RenderTemplate("act", t, id) == Success(ActMap(t[k], PositionsRows(g), TotalAmount(g)))
  {
    GroupHeadIsFirstMatch(t, id, k);
  }

  /** The certificate rendered for an id is filled from the earliest table row with that id. */
  lemma CertificateFromFirstMatch(t: Table, id: int, k: nat)
    requires k < |t| && t[k].id == id
    requires forall j :: 0 <= j < k ==> t[j].id != id
    ensures RenderTemplate("certificate", t, id) ==
            Success(map["student_name" := Text(t[k].studentName),
                        "course_name" := Text(t[k].courseName),
                        "cert_date" := Text(t[k].certDate)])
  {
    GroupHeadIsFirstMatch(t, id, k);
  }

  /** For an id with rows, the act's keyword set is built from that id's group. */
  lemma ActRenderOfGroup(t: Table, id: int)
    requires |Group(t, id)| > 0
    ensures var g := Group(t, id);
            RenderTemplate("act", t, id) == Success(ActMap(g[0], PositionsRows(g), TotalAmount(g)))
  {
  }

  /**
   * For an act, the number of `<tr>` tags in the positions text is the
   * number of table rows carrying the id.
   */
  lemma ActRowsPerId(t: Table, id: int)
    requires |Group(t, id)| > 0
    requires forall r :: r in Group(t, id) ==> PlainRow(r)
    ensures var r := RenderTemplate("act", t, id);
            r.Success? && r.value["positions_rows"].Text? &&
            CountTr(r.value["positions_rows"].text) == |Group(t, id)|
  {
    var g := Group(t, id);
    forall k | 0 <= k < |g| ensures PlainRow(g[k]) {
      assert g[k] in g;
    }
    PositionsRowsCount(g);
    ActRenderOfGroup(t, id);
    ActMapLookups(g[0], PositionsRows(g), TotalAmount(g));
  }

  /** Two line items, 20 and 5, render two rows and a grand total of 25. */
  lemma TwoLineItems(paint: Row, seal: Row)
    requires paint.id == 1 && paint.workName == "Paint wall" && paint.quantity == "2" &&
             paint.unit == "m2" && paint.unitPrice == "10" && paint.total == "20"
    requires seal.id == 1 && seal.workName == "Seal" && seal.quantity == "1" &&
             seal.unit == "pc" && seal.unitPrice == "5" && seal.total == "5"
    ensures var r := RenderTemplate("act", [paint, seal], 1);
            r.Success? && r.value["total_amount"] == Amount(25.0) &&
            CountTr(r.value["positions_rows"].text) == 2
  {
    var t := [paint, seal];
    ExampleGroup(paint, seal);
    ExampleTotal(paint, seal);
    ExampleRows(paint, seal);
    ActRenderOfGroup(t, 1);
    ActMapLookups(paint, PositionsRows(t), TotalAmount(t));
  }

  lemma ExampleRows(a: Row, b: Row)
    requires PlainRow(a) && PlainRow(b)
    ensures CountTr(PositionsRows([a, b])) == 2
  {
    PositionsRowsCount([a, b]);
  }

  lemma ExampleGroup(a: Row, b: Row)
    requires a.id == 1 && b.id == 1
    ensures Group([a, b], 1) == [a, b]
  {
    assert [a, b][1..] == [b];
    assert [b][1..] == [];
  }

  lemma ExampleTotal(a: Row, b: Row)
    requires a.total == "20" && b.total == "5"
    ensures TotalAmount([a, b]) == 25.0
  {
    ParseDecimalOfInt(20);
    ParseDecimalOfInt(5);
    assert IntToString(20) == "20" by {
      assert NatToString(20) == NatToString(2) + [DigitChar(0)];
    }
    assert IntToString(5) == "5";
    assert [a, b][..1] == [a];
    assert [a][..0] == [];
    assert TotalAmount([a]) == TotalAmount([]) + LineTotal(a);
  }
}
