/**
 * The interactive driver's logic: the bounded menu choice (`get_choice`),
 * the output file name, the per-id single mode and the batch loop of `main`.
 * The PDF backend is a parameter: a verdict on the rendered keywords and the
 * file name it is asked to write.
 */
module Controller {
  import opened Wrappers
  import opened Numerals
  import opened Table
  import opened Render

  // ----- menu choice -----

  /** A typed answer `get_choice` accepts: an integer in [1, maxValue]. */
  predicate Accepts(text: string, maxValue: int) {
    match ParseInt(text)
    case Some(n) => 1 <= n <= maxValue
    case None => false
  }

  /**
   * `get_choice`: prompts until an answer is an integer in [1, maxValue].
   * `inputs` are the successive answers; `used` is how many were read.
   * When the answers run out first (EOF) the result is None.
   */
  method GetChoice(inputs: seq<string>, maxValue: int) returns (choice: Option<int>, used: nat)
    ensures used <= |inputs|
    ensures choice.Some? ==> 0 < used && ParseInt(inputs[used - 1]) == Some(choice.value) &&
                             1 <= choice.value <= maxValue
    ensures choice.None? ==> used == |inputs|
    ensures forall j :: 0 <= j < used && (choice.None? || j < used - 1) ==> !Accepts(inputs[j], maxValue)
  {
    var i := 0;
    while i < |inputs|
      invariant 0 <= i <= |inputs|
      invariant forall j :: 0 <= j < i ==> !Accepts(inputs[j], maxValue)
    {
      match ParseInt(inputs[i]) {
        case Some(n) =>
          if 1 <= n <= maxValue {
            return Some(n), i + 1;
          }
        case None =>
      }
      i := i + 1;
    }
    return None, |inputs|;
  }

  /**
   * As written, mode 1 on a table without rows offers the menu "1-0": no
   * answer is accepted, so `get_choice` prompts until input ends.
   */
  lemma EmptyTableRejectsEveryAnswer(t: Table, answer: string)
    requires t == []
    ensures !Accepts(answer, |UniqueIds(t)|)
  {
  }

  /**
   * The id menu as evidently intended: no menu (None) when the table has no
   * ids, and otherwise a bound under which the answer "1" is accepted.
   */
  function IdMenu(t: Table): (bound: Option<nat>)
    ensures bound.None? <==> t == []
    ensures bound.Some? ==> bound.value == |UniqueIds(t)| && Accepts("1", bound.value)
  {
    if |UniqueIds(t)| == 0 then
      assert t != [] ==> t[0].id in IdSet(t);
      None
    else
      assert IntToString(1) == "1";
      ParseIntRoundTrip(1);
      Some(|UniqueIds(t)|)
  }

  // ----- output names -----

  /** `f"{template_stem}_{csv_stem}_id{id}.pdf"`, shared by both modes. */
  function OutputFilename(templateStem: string, csvStem: string, id: int): (name: string)
    ensures |name| > |templateStem| + |csvStem| + 8
    ensures name[..|templateStem|] == templateStem && name[|templateStem|] == '_'
    ensures name[|templateStem| + 1..|templateStem| + 1 + |csvStem|] == csvStem
    ensures name[|templateStem| + 1 + |csvStem|..|templateStem| + |csvStem| + 4] == "_id"
    ensures name[|name| - 4..] == ".pdf"
  {
    templateStem + "_" + csvStem + "_id" + IntToString(id) + ".pdf"
  }

  /** The id printed inside an output name reads back as that id. */
  lemma OutputFilenameId(templateStem: string, csvStem: string, id: int)
    ensures var name := OutputFilename(templateStem, csvStem, id);
            var start := |templateStem| + |csvStem| + 4;
            start <= |name| - 4 && name[|name| - 4..] == ".pdf" &&
            ParseInt(name[start..|name| - 4]) == Some(id)
  {
    var name := OutputFilename(templateStem, csvStem, id);
    var start := |templateStem| + |csvStem| + 4;
    assert name[start..|name| - 4] == IntToString(id);
    ParseIntRoundTrip(id);
  }

  /** For one template and one data file, different ids never share an output file. */
  lemma OutputFilenameInjective(templateStem: string, csvStem: string, a: int, b: int)
    requires OutputFilename(templateStem, csvStem, a) == OutputFilename(templateStem, csvStem, b)
    ensures a == b
  {
    OutputFilenameId(templateStem, csvStem, a);
    OutputFilenameId(templateStem, csvStem, b);
  }

  /** `f"ID {selected_id}"`, the entry recorded for a failed id. */
  function ErrorLabel(id: int): (entry: string)
    ensures |entry| > 3 && entry[..3] == "ID "
    ensures ParseInt(entry[3..]) == Some(id)
  {
    var entry := "ID " + IntToString(id);
    assert entry[3..] == IntToString(id);
    ParseIntRoundTrip(id);
    entry
  }

  // ----- one id -----

  /** The PDF backend's verdict on writing rendered keywords to a file name. */
  type Backend = (Keywords, string) -> bool

  /** An id ends up as a created file: it renders and the backend writes its PDF. */
  predicate Succeeds(templateStem: string, csvStem: string, t: Table, emit: Backend, id: int) {
    match RenderTemplate(templateStem, t, id)
    case Success(k) => emit(k, OutputFilename(templateStem, csvStem, id))
    case Failure(_) => false
  }

  /**
   * Mode 1: the id picked by menu answer `idChoice` (1-based, as `get_choice`
   * returns it) is rendered and written; the name of the PDF created, if any.
   */
  function SingleMode(templateStem: string, csvStem: string, t: Table, emit: Backend, idChoice: int): (r: Option<string>)
    requires 1 <= idChoice <= |UniqueIds(t)|
    ensures var id := UniqueIds(t)[idChoice - 1];
            r.Some? <==> Succeeds(templateStem, csvStem, t, emit, id)
    ensures r.Some? ==> r.value == OutputFilename(templateStem, csvStem, UniqueIds(t)[idChoice - 1])
  {
    var selectedId := UniqueIds(t)[idChoice - 1];
    match RenderTemplate(templateStem, t, selectedId)
    case Failure(_) => None
    case Success(k) =>
      var outputFilename := OutputFilename(templateStem, csvStem, selectedId);
      if emit(k, outputFilename) then Some(outputFilename) else None
  }

  // ----- batch -----

  /** The verdict of the batch loop on each id. */
  function Verdict(templateStem: string, csvStem: string, t: Table, emit: Backend): int -> bool {
    id => Succeeds(templateStem, csvStem, t, emit, id)
  }

  /** The ids of `ids`, in order, on which `ok` holds. */
  function Keep(ids: seq<int>, ok: int -> bool): (r: seq<int>)
    ensures |r| <= |ids|
    ensures forall x :: x in r <==> x in ids && ok(x)
  {
    if ids == [] then []
    else
      var init := ids[..|ids| - 1];
      var last := ids[|ids| - 1];
      assert ids == init + [last];
      if ok(last) then Keep(init, ok) + [last] else Keep(init, ok)
  }

  /** The ids of `ids`, in order, on which `ok` fails. */
  function Drop(ids: seq<int>, ok: int -> bool): (r: seq<int>)
    ensures |r| <= |ids|
    ensures forall x :: x in r <==> x in ids && !ok(x)
  {
    if ids == [] then []
    else
      var init := ids[..|ids| - 1];
      var last := ids[|ids| - 1];
      assert ids == init + [last];
      if ok(last) then Drop(init, ok) else Drop(init, ok) + [last]
  }

  function FileNames(templateStem: string, csvStem: string, ids: seq<int>): (names: seq<string>)
    ensures |names| == |ids|
  {
    if ids == [] then []
    else FileNames(templateStem, csvStem, ids[..|ids| - 1]) + [OutputFilename(templateStem, csvStem, ids[|ids| - 1])]
  }

  function ErrorLabels(ids: seq<int>): (labels: seq<string>)
    ensures |labels| == |ids|
  {
    if ids == [] then [] else ErrorLabels(ids[..|ids| - 1]) + [ErrorLabel(ids[|ids| - 1])]
  }

  /** A turn of the batch loop on a succeeding id appends its file name and leaves the errors. */
  lemma KeptStep(templateStem: string, csvStem: string, ids: seq<int>, ok: int -> bool, idx: nat)
    requires idx < |ids| && ok(ids[idx])
    ensures FileNames(templateStem, csvStem, Keep(ids[..idx + 1], ok)) ==
              FileNames(templateStem, csvStem, Keep(ids[..idx], ok)) + [OutputFilename(templateStem, csvStem, ids[idx])]
    ensures Drop(ids[..idx + 1], ok) == Drop(ids[..idx], ok)
  {
    var front := ids[..idx + 1];
    assert front[..|front| - 1] == ids[..idx];
    var kept := Keep(ids[..idx], ok);
    assert (kept + [ids[idx]])[..|kept|] == kept;
  }

  /** A turn of the batch loop on a failing id appends its error entry and leaves the files. */
  lemma DroppedStep(ids: seq<int>, ok: int -> bool, idx: nat)
    requires idx < |ids| && !ok(ids[idx])
    ensures ErrorLabels(Drop(ids[..idx + 1], ok)) == ErrorLabels(Drop(ids[..idx], ok)) + [ErrorLabel(ids[idx])]
    ensures Keep(ids[..idx + 1], ok) == Keep(ids[..idx], ok)
  {
    var front := ids[..idx + 1];
    assert front[..|front| - 1] == ids[..idx];
    var dropped := Drop(ids[..idx], ok);
    assert (dropped + [ids[idx]])[..|dropped|] == dropped;
  }

  /**
   * Mode 2: every distinct id, in ascending order, is rendered and written on
   * its own; a failure is recorded and the loop goes on.
   */
  method RunBatch(templateStem: string, csvStem: string, t: Table, emit: Backend)
    returns (createdFiles: seq<string>, errors: seq<string>)
    ensures var ok := Verdict(templateStem, csvStem, t, emit);
            createdFiles == FileNames(templateStem, csvStem, Keep(UniqueIds(t), ok)) &&
            errors == ErrorLabels(Drop(UniqueIds(t), ok))
  {
    var uniqueIds := UniqueIds(t);
    ghost var ok := Verdict(templateStem, csvStem, t, emit);
    createdFiles, errors := [], [];
    var idx := 0;
    while idx < |uniqueIds|
      invariant 0 <= idx <= |uniqueIds|
      invariant createdFiles == FileNames(templateStem, csvStem, Keep(uniqueIds[..idx], ok))
      invariant errors == ErrorLabels(Drop(uniqueIds[..idx], ok))
    {
      var selectedId := uniqueIds[idx];
      var renderedHtml := RenderTemplate(templateStem, t, selectedId);
      if renderedHtml.Failure? {
        assert !ok(selectedId);
        DroppedStep(uniqueIds, ok, idx);
        errors := errors + [ErrorLabel(selectedId)];
      } else {
        var outputFilename := OutputFilename(templateStem, csvStem, selectedId);
        assert ok(selectedId) == emit(renderedHtml.value, outputFilename);
        if emit(renderedHtml.value, outputFilename) {
          KeptStep(templateStem, csvStem, uniqueIds, ok, idx);
          createdFiles := createdFiles + [outputFilename];
        } else {
          DroppedStep(uniqueIds, ok, idx);
          errors := errors + [ErrorLabel(selectedId)];
        }
      }
      idx := idx + 1;
    }
    assert uniqueIds[..idx] == uniqueIds;
  }

  // ----- properties of the batch -----

  /** Every id lands in exactly one of the two lists: K ids, M failures, K - M files. */
  lemma {:induction false} BatchPartition(ids: seq<int>, ok: int -> bool)
    ensures |Keep(ids, ok)| + |Drop(ids, ok)| == |ids|
  {
    if ids != [] {
      BatchPartition(ids[..|ids| - 1], ok);
    }
  }

  /** The kept ids follow the ids' ascending order. */
  lemma {:induction false} KeepAscending(ids: seq<int>, ok: int -> bool)
    requires StrictlyIncreasing(ids)
    ensures StrictlyIncreasing(Keep(ids, ok))
  {
    if ids != [] {
      var init := ids[..|ids| - 1];
      var last := ids[|ids| - 1];
      assert StrictlyIncreasing(init) by {
        forall i, j | 0 <= i < j < |init| ensures init[i] < init[j] {
          assert init[i] == ids[i] && init[j] == ids[j];
        }
      }
      var before := Keep(init, ok);
      KeepAscending(init, ok);
      forall k | 0 <= k < |before| ensures before[k] < last {
        assert before[k] in before;
        var i :| 0 <= i < |init| && init[i] == before[k];
        assert ids[i] == before[k];
      }
      assert Keep(ids, ok) == before || Keep(ids, ok) == before + [last];
    }
  }

  /** Dropping the failures of `ok` is keeping the successes of its negation. */
  lemma {:induction false} DropIsKeepOfNegation(ids: seq<int>, ok: int -> bool, notOk: int -> bool)
    requires forall x :: notOk(x) == !ok(x)
    ensures Drop(ids, ok) == Keep(ids, notOk)
  {
    if ids != [] {
      DropIsKeepOfNegation(ids[..|ids| - 1], ok, notOk);
    }
  }

  /** The failed ids, and so the error labels, keep the ascending order of the ids. */
  lemma DropAscending(ids: seq<int>, ok: int -> bool)
    requires StrictlyIncreasing(ids)
    ensures StrictlyIncreasing(Drop(ids, ok))
  {
    var notOk := (x: int) => !ok(x);
    DropIsKeepOfNegation(ids, ok, notOk);
    KeepAscending(ids, notOk);
  }

  lemma {:induction false} FileNamesAt(templateStem: string, csvStem: string, ids: seq<int>, i: nat)
    requires i < |ids|
    ensures FileNames(templateStem, csvStem, ids)[i] == OutputFilename(templateStem, csvStem, ids[i])
  {
    if i < |ids| - 1 {
      FileNamesAt(templateStem, csvStem, ids[..|ids| - 1], i);
    }
  }

  lemma {:induction false} ErrorLabelsAt(ids: seq<int>, i: nat)
    requires i < |ids|
    ensures ErrorLabels(ids)[i] == ErrorLabel(ids[i])
  {
    if i < |ids| - 1 {
      ErrorLabelsAt(ids[..|ids| - 1], i);
    }
  }

  /** Files named after strictly increasing ids are pairwise distinct: no PDF is overwritten. */
  lemma FileNamesDistinct(templateStem: string, csvStem: string, ids: seq<int>)
    requires StrictlyIncreasing(ids)
    ensures forall i, j :: 0 <= i < j < |ids| ==>
              FileNames(templateStem, csvStem, ids)[i] != FileNames(templateStem, csvStem, ids)[j]
  {
    forall i, j | 0 <= i < j < |ids|
      ensures FileNames(templateStem, csvStem, ids)[i] != FileNames(templateStem, csvStem, ids)[j]
    {
      FileNamesAt(templateStem, csvStem, ids, i);
      FileNamesAt(templateStem, csvStem, ids, j);
      if OutputFilename(templateStem, csvStem, ids[i]) == OutputFilename(templateStem, csvStem, ids[j]) {
        OutputFilenameInjective(templateStem, csvStem, ids[i], ids[j]);
      }
    }
  }

  /**
   * What `RunBatch` reports for a table: created files plus errors number the
   * distinct ids, the created and the failed ids ascend, and no two created
   * files share a name.
   */
  lemma BatchSummary(templateStem: string, csvStem: string, t: Table, emit: Backend)
    ensures var ids := UniqueIds(t);
            var ok := Verdict(templateStem, csvStem, t, emit);
            var files := FileNames(templateStem, csvStem, Keep(ids, ok));
            var errors := ErrorLabels(Drop(ids, ok));
            |files| + |errors| == |ids| &&
            StrictlyIncreasing(Keep(ids, ok)) && StrictlyIncreasing(Drop(ids, ok)) &&
            forall i, j :: 0 <= i < j < |files| ==> files[i] != files[j]
  {
    var ids := UniqueIds(t);
    var ok := Verdict(templateStem, csvStem, t, emit);
    BatchPartition(ids, ok);
    KeepAscending(ids, ok);
    DropAscending(ids, ok);
    FileNamesDistinct(templateStem, csvStem, Keep(ids, ok));
  }

  /** An id is kept exactly when it succeeds, and dropped exactly when it fails. */
  lemma BatchExactlyOne(templateStem: string, csvStem: string, t: Table, emit: Backend, id: int)
    requires id in UniqueIds(t)
    ensures var ok := Verdict(templateStem, csvStem, t, emit);
            (id in Keep(UniqueIds(t), ok) <==> Succeeds(templateStem, csvStem, t, emit, id)) &&
            (id in Drop(UniqueIds(t), ok) <==> !Succeeds(templateStem, csvStem, t, emit, id))
  {
  }

  lemma {:induction false} KeepNone(ids: seq<int>, ok: int -> bool)
    requires forall x :: !ok(x)
    ensures Keep(ids, ok) == [] && Drop(ids, ok) == ids
  {
    if ids != [] {
      KeepNone(ids[..|ids| - 1], ok);
      assert ids[..|ids| - 1] + [ids[|ids| - 1]] == ids;
    }
  }

  /** With a template stem other than `act` or `certificate` every id is an error. */
  lemma UnknownStemFailsAll(templateStem: string, csvStem: string, t: Table, emit: Backend)
    requires StrategyOf(templateStem) == None
    ensures var ok := Verdict(templateStem, csvStem, t, emit);
            Keep(UniqueIds(t), ok) == [] && Drop(UniqueIds(t), ok) == UniqueIds(t)
  {
    var ok := Verdict(templateStem, csvStem, t, emit);
    forall x ensures !ok(x) {
      assert RenderTemplate(templateStem, t, x).Failure?;
    }
    KeepNone(UniqueIds(t), ok);
  }

  /**
   * With a known template stem no id of the table fails to render, so an id
   * is an error exactly when the backend does not write its PDF.
   */
  lemma KnownStemFailsOnlyInBackend(templateStem: string, csvStem: string, t: Table, emit: Backend, k: nat)
    requires StrategyOf(templateStem) != None
    requires k < |UniqueIds(t)|
    ensures var id := UniqueIds(t)[k];
            var r := RenderTemplate(templateStem, t, id);
            r.Success? &&
            (Succeeds(templateStem, csvStem, t, emit, id) <==> emit(r.value, OutputFilename(templateStem, csvStem, id)))
  {
    UniqueIdHasRows(t, k);
  }

  /** The name of a kept id is among the batch's file names. */
  lemma KeptNameListed(templateStem: string, csvStem: string, ids: seq<int>, ok: int -> bool, id: int)
    requires id in ids && ok(id)
    ensures OutputFilename(templateStem, csvStem, id) in FileNames(templateStem, csvStem, Keep(ids, ok))
  {
    var kept := Keep(ids, ok);
    var i :| 0 <= i < |kept| && kept[i] == id;
    FileNamesAt(templateStem, csvStem, kept, i);
  }

  /** The name of a dropped id is not among the batch's file names. */
  lemma DroppedNameAbsent(templateStem: string, csvStem: string, ids: seq<int>, ok: int -> bool, id: int)
    requires !ok(id)
    ensures OutputFilename(templateStem, csvStem, id) !in FileNames(templateStem, csvStem, Keep(ids, ok))
  {
    var kept := Keep(ids, ok);
    var files := FileNames(templateStem, csvStem, kept);
    var name := OutputFilename(templateStem, csvStem, id);
    forall i | 0 <= i < |files| ensures files[i] != name {
      FileNamesAt(templateStem, csvStem, kept, i);
      assert kept[i] in kept;
      if files[i] == name {
        OutputFilenameInjective(templateStem, csvStem, kept[i], id);
      }
    }
  }

  /** Single mode creates the same file, under the same name, that batch mode creates for that id. */
  lemma SingleAgreesWithBatch(templateStem: string, csvStem: string, t: Table, emit: Backend, idChoice: int)
    requires 1 <= idChoice <= |UniqueIds(t)|
    ensures var ids := UniqueIds(t);
            var single := SingleMode(templateStem, csvStem, t, emit, idChoice);
            var files := FileNames(templateStem, csvStem, Keep(ids, Verdict(templateStem, csvStem, t, emit)));
            (single.Some? ==> single.value in files) &&
            (single.None? ==> OutputFilename(templateStem, csvStem, ids[idChoice - 1]) !in files)
  {
    var ids := UniqueIds(t);
    var id := ids[idChoice - 1];
    var ok := Verdict(templateStem, csvStem, t, emit);
    assert id in ids;
    if ok(id) {
      KeptNameListed(templateStem, csvStem, ids, ok, id);
    } else {
      DroppedNameAbsent(templateStem, csvStem, ids, ok, id);
    }
  }
}
