/**
 * The HTML text of one row of the act's positions table, exactly as the
 * f-string in `render_act_template` lays it out, together with a reader
 * that takes such a row apart again and a count of its `<tr>` tags.
 */
module Markup {
  import opened Wrappers
  import Numerals

  /** Line break and indentation before a `<tr>` / `</tr>` and before a `<td>`. */
  const RowIndent: string := "\n      "
  const CellIndent: string := "\n        "

  const RowOpen: string := RowIndent + "<tr>"
  const RowClose: string := RowIndent + "</tr>"
  const CellOpen: string := CellIndent + "<td>"
  const CellClose: string := "</td>"

  predicate NoLt(s: string) {
    forall i :: 0 <= i < |s| ==> s[i] != '<'
  }

  predicate AllNoLt(cs: seq<string>) {
    forall k :: 0 <= k < |cs| ==> NoLt(cs[k])
  }

  function CellText(c: string): string {
    CellOpen + c + CellClose
  }

  function CellsText(cs: seq<string>): string {
    if cs == [] then "" else CellText(cs[0]) + CellsText(cs[1..])
  }

  /** One `<tr>` element with one `<td>` per cell, in order. */
  function RowText(cs: seq<string>): string {
    RowOpen + CellsText(cs) + RowClose
  }

  predicate StartsWith(s: string, p: string) {
    |p| <= |s| && s[..|p|] == p
  }

  /**
   * Reads one `<td>` cell off the front of `s`: its content (up to the next
   * `<`) and what follows the closing tag.
   */
  function ReadCell(s: string): (r: Option<(string, string)>)
    ensures r.Some? ==> |r.value.1| < |s|
  {
    if !StartsWith(s, CellOpen) then None
    else
      var body := s[|CellOpen|..];
      var k := Numerals.IndexOf(body, '<');
      if !StartsWith(body[k..], CellClose) then None
      else Some((body[..k], body[k + |CellClose|..]))
  }

  /** Reads a run of `<td>` cells whose contents hold no `<`. */
  function ReadCells(s: string): Option<seq<string>>
    decreases |s|
  {
    if s == "" then Some([])
    else match ReadCell(s)
      case None => None
      case Some((c, rest)) =>
        match ReadCells(rest)
        case None => None
        case Some(cs) => Some([c] + cs)
  }

  /** Reads one `<tr>` element back into its cells. */
  function ReadRow(s: string): Option<seq<string>> {
    if |s| < |RowOpen| + |RowClose| || !StartsWith(s, RowOpen) || s[|s| - |RowClose|..] != RowClose then None
    else ReadCells(s[|RowOpen|..|s| - |RowClose|])
  }

  /** A cell without `<` reads back as its content, leaving what follows. */
  lemma ReadCellOf(c: string, tail: string)
    requires NoLt(c)
    ensures ReadCell(CellText(c) + tail) == Some((c, tail))
  {
    var s := CellText(c) + tail;
    assert s == CellOpen + (c + (CellClose + tail));
    assert StartsWith(s, CellOpen);
    var body := s[|CellOpen|..];
    assert body == c + (CellClose + tail);
    var k := Numerals.IndexOf(body, '<');
    assert body[|c|] == '<';
    assert k == |c|;
    assert body[k..] == CellClose + tail;
    assert body[k + |CellClose|..] == tail;
    assert body[..k] == c;
  }

  lemma {:induction false} ReadCellsRoundTrip(cs: seq<string>)
    requires AllNoLt(cs)
    ensures ReadCells(CellsText(cs)) == Some(cs)
  {
    if cs != [] {
      var tail := CellsText(cs[1..]);
      assert AllNoLt(cs[1..]) by {
        forall k | 0 <= k < |cs[1..]| ensures NoLt(cs[1..][k]) {
          assert cs[1..][k] == cs[k + 1];
        }
      }
      ReadCellsRoundTrip(cs[1..]);
      assert NoLt(cs[0]);
      ReadCellOf(cs[0], tail);
      assert CellsText(cs) == CellText(cs[0]) + tail;
      assert [cs[0]] + cs[1..] == cs;
    }
  }

  /** A row whose cells hold no `<` reads back as exactly those cells. */
  lemma ReadRowRoundTrip(cs: seq<string>)
    requires AllNoLt(cs)
    ensures ReadRow(RowText(cs)) == Some(cs)
  {
    var s := RowText(cs);
    assert s[..|RowOpen|] == RowOpen;
    assert s[|s| - |RowClose|..] == RowClose;
    assert s[|RowOpen|..|s| - |RowClose|] == CellsText(cs);
    ReadCellsRoundTrip(cs);
  }

  predicate TrAt(s: string, i: nat) {
    i + 4 <= |s| && s[i] == '<' && s[i + 1] == 't' && s[i + 2] == 'r' && s[i + 3] == '>'
  }

  /** The number of places where the text `<tr>` starts. */
  function CountTr(s: string): nat {
    if |s| < 4 then 0
    else (if TrAt(s, 0) then 1 else 0) + CountTr(s[1..])
  }

  lemma {:induction false} CountTrNoLt(s: string)
    requires NoLt(s)
    ensures CountTr(s) == 0
  {
    if |s| >= 4 {
      CountTrNoLt(s[1..]);
    }
  }

  /** No `<` among the last three characters of `a`. */
  predicate TailNoLt(a: string) {
    forall i :: 0 <= i < |a| && |a| - 3 <= i ==> a[i] != '<'
  }

  /** `b` does not begin with a character that can continue a `<`, `<t` or `<tr`. */
  predicate HeadSafe(b: string) {
    b == [] || (b[0] != 't' && b[0] != 'r' && b[0] != '>')
  }

  /**
   * Counting is additive over a concatenation unless a `<tr>` straddles the
   * seam, which cannot happen when `a` has no `<` in its last three
   * characters or `b` does not begin with `t`, `r` or `>`.
   */
  lemma {:induction false} CountTrConcat(a: string, b: string)
    requires TailNoLt(a) || HeadSafe(b)
    ensures CountTr(a + b) == CountTr(a) + CountTr(b)
  {
    if a == [] {
      assert a + b == b;
    } else if |a + b| >= 4 {
      assert (a + b)[1..] == a[1..] + b;
      assert TailNoLt(a) ==> TailNoLt(a[1..]) by {
        assert forall i :: 0 <= i < |a[1..]| ==> a[1..][i] == a[i + 1];
      }
      CountTrConcat(a[1..], b);
      if |a| < 4 {
        assert (a + b)[0] == a[0] && (a + b)[|a|] == b[0];
        assert !TrAt(a + b, 0);
      }
    }
  }

  lemma CountTrRowOpen()
    ensures CountTr(RowOpen) == 1
  {
    CountTrNoLt(RowIndent);
    CountTrConcat(RowIndent, "<tr>");
    assert CountTr("<tr>") == 1 + CountTr("tr>");
  }

  lemma CountTrRowClose()
    ensures CountTr(RowClose) == 0
  {
    CountTrNoLt(RowIndent);
    CountTrConcat(RowIndent, "</tr>");
    assert "</tr>"[1..] == "/tr>";
    assert CountTr("/tr>") == 0 + CountTr("tr>");
  }

  lemma CountTrCellClose()
    ensures CountTr(CellClose) == 0
  {
  }

  /** A `<td>` followed by text without `<` holds no `<tr>`. */
  lemma CountTrTdThen(c: string)
    requires NoLt(c)
    ensures CountTr("<td>" + c) == 0
  {
    var s := "<td>" + c;
    assert !TrAt(s, 0);
    assert s[1..] == "td>" + c;
    assert NoLt("td>" + c);
    CountTrNoLt("td>" + c);
  }

  lemma CountTrCell(c: string)
    requires NoLt(c)
    ensures CountTr(CellText(c)) == 0
  {
    CountTrCellClose();
    CountTrNoLt(CellIndent);
    CountTrTdThen(c);
    assert CellText(c) == CellIndent + ("<td>" + c) + CellClose;
    CountTrConcat(CellIndent, "<td>" + c);
    CountTrConcat(CellIndent + ("<td>" + c), CellClose);
  }

  lemma {:induction false} CountTrCells(cs: seq<string>)
    requires AllNoLt(cs)
    ensures CountTr(CellsText(cs)) == 0
  {
    if cs != [] {
      CountTrCell(cs[0]);
      CountTrCells(cs[1..]);
      CountTrConcat(CellText(cs[0]), CellsText(cs[1..]));
    }
  }

  /** A row whose cells hold no `<` contains exactly one `<tr>` tag. */
  lemma CountTrRow(cs: seq<string>)
    requires AllNoLt(cs)
    ensures CountTr(RowText(cs)) == 1
  {
    CountTrRowOpen();
    CountTrRowClose();
    CountTrCells(cs);
    CountTrConcat(RowOpen, CellsText(cs));
    CountTrConcat(RowOpen + CellsText(cs), RowClose);
  }
}
