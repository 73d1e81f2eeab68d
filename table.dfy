/**
 * The record table loaded from a CSV file, the group of rows that share an
 * id, and the sorted list of distinct ids (`sorted(data_df['id'].unique())`).
 */
module Table {

  /**
   * One CSV row. Every column the two templates read is present; each cell
   * other than `id` is the text it is rendered as.
   */
  datatype Row = Row(
    id: int,
    // columns of the act table
    actNumber: string,
    actDate: string,
    contractNumber: string,
    objectAddress: string,
    client: string,
    contractor: string,
    workName: string,
    quantity: string,
    unit: string,
    unitPrice: string,
    total: string,
    // columns of the certificate table
    studentName: string,
    courseName: string,
    certDate: string)

  type Table = seq<Row>

  /** `data_df[data_df['id'] == selected_id]`: the rows with that id, in table order. */
  function Group(t: Table, id: int): (g: Table)
    ensures |g| <= |t|
    ensures forall r :: r in g <==> r in t && r.id == id
    ensures |g| == 0 <==> forall i :: 0 <= i < |t| ==> t[i].id != id
  {
    if t == [] then []
    else (if t[0].id == id then [t[0]] else []) + Group(t[1..], id)
  }

  /** Filtering commutes with concatenation: the group keeps the rows' table order. */
  lemma {:induction false} GroupAppend(a: Table, b: Table, id: int)
    ensures Group(a + b, id) == Group(a, id) + Group(b, id)
  {
    if a == [] {
      assert a + b == b;
    } else {
      assert (a + b)[0] == a[0];
      assert (a + b)[1..] == a[1..] + b;
      GroupAppend(a[1..], b, id);
    }
  }

  /** The first row of a group is the earliest row of the table with that id. */
  lemma {:induction false} GroupHeadIsFirstMatch(t: Table, id: int, k: nat)
    requires k < |t| && t[k].id == id
    requires forall j :: 0 <= j < k ==> t[j].id != id
    ensures |Group(t, id)| > 0 && Group(t, id)[0] == t[k]
  {
    if k > 0 {
      GroupHeadIsFirstMatch(t[1..], id, k - 1);
    }
  }

  /** The ids that occur in the table. */
  function IdSet(t: Table): set<int> {
    set r | r in t :: r.id
  }

  predicate StrictlyIncreasing(s: seq<int>) {
    forall i, j :: 0 <= i < j < |s| ==> s[i] < s[j]
  }

  /** Adds `x` to a strictly increasing list, keeping it strictly increasing. */
  function Insert(s: seq<int>, x: int): (r: seq<int>)
    requires StrictlyIncreasing(s)
    ensures StrictlyIncreasing(r)
    ensures forall y :: y in r <==> y in s || y == x
  {
    if s == [] then [x]
    else if x < s[0] then [x] + s
    else if x == s[0] then s
    else
      var rest := Insert(s[1..], x);
      assert forall k :: 0 <= k < |rest| ==> s[0] < rest[k] by {
        forall k | 0 <= k < |rest| ensures s[0] < rest[k] {
          assert rest[k] in rest;
          if rest[k] != x {
            var i :| 0 <= i < |s[1..]| && s[1..][i] == rest[k];
            assert s[i + 1] == rest[k];
          }
        }
      }
      [s[0]] + rest
  }

  /** `sorted(data_df['id'].unique())`: every id of the table, once, in ascending order. */
  function UniqueIds(t: Table): (ids: seq<int>)
    ensures StrictlyIncreasing(ids)
    ensures forall x :: x in ids <==> x in IdSet(t)
  {
    if t == [] then []
    else
      var init := t[..|t| - 1];
      assert t == init + [t[|t| - 1]];
      Insert(UniqueIds(init), t[|t| - 1].id)
  }

  /** Every id offered in single mode or walked in batch mode selects a non-empty group. */
  lemma UniqueIdHasRows(t: Table, k: nat)
    requires k < |UniqueIds(t)|
    ensures |Group(t, UniqueIds(t)[k])| > 0
  {
    var id := UniqueIds(t)[k];
    assert id in IdSet(t);
    var r :| r in t && r.id == id;
    assert r in Group(t, id);
  }
}
