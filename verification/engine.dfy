/** The POST branch of the route (app.py lines 55-118) as one pure
    function: parse the selectors, then apply the chosen option to every
    sheet but the first. Loading and saving the workbook and the HTTP
    exchange stay outside; the random source is a parameter.
 */
module Engine {
  import opened Results
  import opened Text
  import opened Selectors
  import opened Workbook
  import opened Projects
  import opened Presence
  import opened Grading
  import opened Answers

  /** The form fields the route reads. `refColumn` is `None` when the
      field is absent, which `request.form.get` treats as empty. */
  datatype Form = Form(option: string, columns: string, rowRanges: string, marks: string, refColumn: Option<string>)

  /** The reference column of option 3: the stripped field, which must be
      non-blank and then one letter. */
  function RefColumn(field: Option<string>): (r: Result<int>)
    ensures var t := Trim(if field.Some? then field.value else "");
      (r == Err(MissingRefColumn) <==> |t| == 0)
      && (r.Ok? <==> |t| == 1 && IsLetter(t[0]))
      && (r.Ok? ==> 1 <= r.value <= 26 && ColumnLetter(r.value) == Upper(t[0]))
  {
    var t := Trim(if field.Some? then field.value else "");
    if |t| == 0 then Err(MissingRefColumn) else ColLetterToIndex(t)
  }

  /** Every draw hits. */
  ghost predicate AlwaysHit(rng: Rng) {
    forall j: nat :: rng(j).hit
  }

  /** No draw hits. */
  ghost predicate NeverHits(rng: Rng) {
    forall j: nat :: !rng(j).hit
  }

  /** The route's core: on success the workbook to send back. Columns are
      parsed before rows, and `marks` or the reference column only after
      both. */
  function Transform(wb: Book, form: Form, rng: Rng): (r: Result<Book>)
    ensures r.Ok? ==> |r.value| == |wb| && (|wb| > 0 ==> r.value[0] == wb[0])
    ensures ParseColumns(form.columns).Err? ==> r == Err(ParseColumns(form.columns).error)
    ensures ParseColumns(form.columns).Ok? && ParseRows(form.rowRanges).Err? ==> r == Err(ParseRows(form.rowRanges).error)
    ensures r.Err? <==>
      ParseColumns(form.columns).Err? || ParseRows(form.rowRanges).Err?
      || (form.option == "2" && ParseSigned(form.marks).Err?)
      || (form.option == "3" && RefColumn(form.refColumn).Err?)
  {
    var cols :- ParseColumns(form.columns);
    var rows :- ParseRows(form.rowRanges);
    Dispatch(wb, form, cols, rows, rng)
  }

  /** The option branch once the selectors are parsed: the chosen policy
      over every sheet but the first, from draw 0; an option other than
      "1", "2", "3" changes nothing. */
  function Dispatch(wb: Book, form: Form, cols: seq<int>, rows: seq<int>, rng: Rng): (r: Result<Book>)
    ensures r.Ok? ==> |r.value| == |wb| && (|wb| > 0 ==> r.value[0] == wb[0])
    ensures r.Err? <==>
      (form.option == "2" && ParseSigned(form.marks).Err?)
      || (form.option == "3" && RefColumn(form.refColumn).Err?)
    ensures form.option == "2" && ParseSigned(form.marks).Err? ==> r == Err(BadInteger(form.marks))
    ensures form.option == "3" && RefColumn(form.refColumn).Err? ==> r == Err(RefColumn(form.refColumn).error)
    ensures form.option !in {"1", "2", "3"} ==> r == Ok(wb)
  {
    var visits := Visits(cols, rows);
    if form.option == "1" then
      Ok(MarkBook(wb, visits, rng))
    else if form.option == "2" then
      var marks :- ParseSigned(form.marks);
      Ok(GradeBook(wb, visits, marks, rng))
    else if form.option == "3" then
      var ref :- RefColumn(form.refColumn);
      Ok(AnswerBook(wb, visits, ref, rng))
    else
      Ok(wb)
  }

  /** Once both selectors parse, the route is the option branch on them. */
  lemma TransformParsed(wb: Book, form: Form, rng: Rng)
    ensures var cols := ParseColumns(form.columns); var rows := ParseRows(form.rowRanges);
      cols.Ok? && rows.Ok? ==> Transform(wb, form, rng) == Dispatch(wb, form, cols.value, rows.value, rng)
  {
  }

  /** A cell the selectors pick: a selected row of a selected column. */
  predicate Selected(a: Addr, cols: seq<int>, rows: seq<int>) {
    a.0 in rows && a.1 in cols
  }

  /** Option 1 end to end, for target sheet `i` and cell `a`: a cell
      outside the selection is kept; any cell keeps its value or reads "v";
      a selected cell reads "v" when every draw hits. */
  lemma PresenceOutcome(wb: Book, form: Form, cols: seq<int>, rows: seq<int>, rng: Rng, i: nat, a: Addr)
    requires form.option == "1" && 1 <= i < |wb|
    ensures Dispatch(wb, form, cols, rows, rng).Ok?
    ensures var out := Dispatch(wb, form, cols, rows, rng).value;
      !Selected(a, cols, rows) ==> SameAt(wb[i], out[i], a)
    ensures var out := Dispatch(wb, form, cols, rows, rng).value;
      SameAt(wb[i], out[i], a) || Get(out[i], a) == Mark
    ensures var out := Dispatch(wb, form, cols, rows, rng).value;
      AlwaysHit(rng) && Selected(a, cols, rows) ==> Get(out[i], a) == Mark
  {
    var visits := Visits(cols, rows);
    assert Dispatch(wb, form, cols, rows, rng) == Ok(MarkBook(wb, visits, rng));
    var k := Blocks(i - 1, |visits|);
    MarkBookAt(wb, visits, rng, i, k);
    MarkSheetOutcome(wb[i], visits, rng, k);
    VisitsCover(cols, rows);
    assert AlwaysHit(rng) ==> AllHit(rng, k, |visits|);
  }

  /** Option 1 when no draw hits returns the workbook unchanged. */
  lemma PresenceNoHit(wb: Book, form: Form, cols: seq<int>, rows: seq<int>, rng: Rng)
    requires form.option == "1" && NeverHits(rng)
    ensures Dispatch(wb, form, cols, rows, rng) == Ok(wb)
  {
    var visits := Visits(cols, rows);
    assert Dispatch(wb, form, cols, rows, rng) == Ok(MarkBook(wb, visits, rng));
    var out := MarkBook(wb, visits, rng);
    forall i | 0 <= i < |wb|
      ensures out[i] == wb[i]
    {
      if i == 0 {
        assert out[0] == wb[0];
      } else {
        PresenceNoHitAt(wb, visits, rng, i);
      }
    }
    assert out == wb;
  }

  /** With no hits, target sheet `i` is unchanged by option 1. */
  lemma PresenceNoHitAt(wb: Book, visits: seq<Addr>, rng: Rng, i: nat)
    requires NeverHits(rng) && 1 <= i < |wb|
    ensures MarkBook(wb, visits, rng)[i] == wb[i]
  {
    var k := Blocks(i - 1, |visits|);
    MarkBookAt(wb, visits, rng, i, k);
    assert NoneHit(rng, k, |visits|);
    MarkSheetOutcome(wb[i], visits, rng, k);
  }

  /** Option 2 end to end, for target sheet `i` (position `i - 1` among the
      targets) and cell `a`. Among the first fifty targets, D4 and D5 get
      the team number `(i - 1) / 5 + 1` and its project title unless they
      are selected, and a selected cell gets a score between `marks - 3`
      and `marks`: full marks when every draw hits, less when none hits. Cells neither selected
      nor D4/D5 are kept, and so is every target from the fifty-first on. */
  lemma GradesOutcome(wb: Book, form: Form, cols: seq<int>, rows: seq<int>, rng: Rng, marks: int, i: nat, a: Addr)
    requires form.option == "2" && ParseSigned(form.marks) == Ok(marks) && 1 <= i < |wb|
    ensures Dispatch(wb, form, cols, rows, rng).Ok?
    ensures var out := Dispatch(wb, form, cols, rows, rng).value;
      i - 1 < TeamSize * MaxTeams ==>
        (!Selected(TeamCell, cols, rows) ==> Get(out[i], TeamCell) == IntV(TeamFor(i - 1)))
        && (!Selected(ProjectCell, cols, rows) ==> Get(out[i], ProjectCell) == StrV(Title(TeamFor(i - 1))))
        && (Selected(a, cols, rows) ==> Get(out[i], a).IntV? && marks - 3 <= Get(out[i], a).n <= marks)
        && (AlwaysHit(rng) && Selected(a, cols, rows) ==> Get(out[i], a) == IntV(marks))
        && (NeverHits(rng) && Selected(a, cols, rows) ==> Get(out[i], a).IntV? && marks - 3 <= Get(out[i], a).n <= marks - 1)
    ensures var out := Dispatch(wb, form, cols, rows, rng).value;
      !Selected(a, cols, rows) && a != TeamCell && a != ProjectCell ==> SameAt(wb[i], out[i], a)
    ensures var out := Dispatch(wb, form, cols, rows, rng).value;
      TeamSize * MaxTeams <= i - 1 ==> out[i] == wb[i]
  {
    var visits := Visits(cols, rows);
    assert Dispatch(wb, form, cols, rows, rng) == Ok(GradeBook(wb, visits, marks, rng));
    VisitsCover(cols, rows);
    if i - 1 < TeamSize * MaxTeams {
      var k := Blocks(i - 1, |visits|);
      GradeBookAt(wb, visits, marks, rng, i, TeamFor(i - 1), k);
      GradeSheetEffect(wb[i], TeamFor(i - 1), visits, marks, rng, k);
      assert AlwaysHit(rng) ==> AllHit(rng, k, |visits|);
      assert NeverHits(rng) ==> NoneHit(rng, k, |visits|);
    } else {
      GradeBookBeyond(wb, visits, marks, rng, i);
    }
  }

  /** Option 3 end to end, for target sheet `i` and cell `a`, when the
      reference column is not itself selected: a cell outside the
      selection, or whose row has no valid key, is kept; otherwise it ends
      with a choice, which is the key when every draw hits and another
      choice when none hits. */
  lemma AnswersOutcome(wb: Book, form: Form, cols: seq<int>, rows: seq<int>, rng: Rng, ref: int, i: nat, a: Addr)
    requires form.option == "3" && RefColumn(form.refColumn) == Ok(ref) && 1 <= i < |wb| && ref !in cols
    ensures Dispatch(wb, form, cols, rows, rng).Ok?
    ensures var out := Dispatch(wb, form, cols, rows, rng).value;
      !Selected(a, cols, rows) || !IsKey(KeyAt(wb[i], a, ref)) ==> SameAt(wb[i], out[i], a)
    ensures var out := Dispatch(wb, form, cols, rows, rng).value;
      Selected(a, cols, rows) && IsKey(KeyAt(wb[i], a, ref)) ==>
        IsKey(Get(out[i], a))
        && (AlwaysHit(rng) ==> Get(out[i], a) == KeyAt(wb[i], a, ref))
        && (NeverHits(rng) ==> Get(out[i], a) != KeyAt(wb[i], a, ref))
  {
    AnswersAnyReference(wb, form, cols, rows, rng, ref, i, a);
    var visits := Visits(cols, rows);
    VisitsCover(cols, rows);
    assert Dispatch(wb, form, cols, rows, rng) == Ok(AnswerBook(wb, visits, ref, rng));
    if NeverHits(rng) {
      KeysOutsideSelection(cols, rows, ref);
      AnswerBookNeverHits(wb, visits, ref, rng, i, a);
    }
  }

  /** With the keys apart from the visited cells and no draw hitting, a
      visited cell of sheet `i` with a valid key receives a choice other
      than its key. */
  lemma AnswerBookNeverHits(wb: Book, visits: seq<Addr>, ref: int, rng: Rng, i: nat, a: Addr)
    requires 1 <= i < |wb| && KeysApart(visits, ref) && NeverHits(rng)
    ensures a in visits && IsKey(KeyAt(wb[i], a, ref)) ==>
      IsKey(Get(AnswerBook(wb, visits, ref, rng)[i], a)) && Get(AnswerBook(wb, visits, ref, rng)[i], a) != KeyAt(wb[i], a, ref)
  {
    var k := KeyedBefore(Targets(wb), visits, ref, i - 1);
    AnswerBookAt(wb, visits, ref, rng, i, k);
    assert NoneHit(rng, k, |visits|);
    AnswerCellsExtremes(wb[i], visits, ref, rng, k);
  }

  /** Option 3 end to end for any reference column, including one among
      the selected columns: a cell outside the selection, or whose row has
      no valid key, is kept; otherwise it ends with a choice, which is the
      row's original key when every draw hits. */
  lemma AnswersAnyReference(wb: Book, form: Form, cols: seq<int>, rows: seq<int>, rng: Rng, ref: int, i: nat, a: Addr)
    requires form.option == "3" && RefColumn(form.refColumn) == Ok(ref) && 1 <= i < |wb|
    ensures Dispatch(wb, form, cols, rows, rng).Ok?
    ensures var out := Dispatch(wb, form, cols, rows, rng).value;
      !Selected(a, cols, rows) || !IsKey(KeyAt(wb[i], a, ref)) ==> SameAt(wb[i], out[i], a)
    ensures var out := Dispatch(wb, form, cols, rows, rng).value;
      Selected(a, cols, rows) && IsKey(KeyAt(wb[i], a, ref)) ==>
        IsKey(Get(out[i], a))
        && (AlwaysHit(rng) ==> Get(out[i], a) == KeyAt(wb[i], a, ref))
  {
    var visits := Visits(cols, rows);
    VisitsCover(cols, rows);
    assert Dispatch(wb, form, cols, rows, rng) == Ok(AnswerBook(wb, visits, ref, rng));
    var k := KeyedBefore(Targets(wb), visits, ref, i - 1);
    AnswerBookAt(wb, visits, ref, rng, i, k);
    AnswerCellsEffect(wb[i], visits, ref, rng, k);
    if AlwaysHit(rng) {
      assert AllHit(rng, k, |visits|);
      AnswerCellsAllHit(wb[i], visits, ref, rng, k);
    }
  }

  /** A reference column outside the selected columns is never visited. */
  lemma KeysOutsideSelection(cols: seq<int>, rows: seq<int>, ref: int)
    requires ref !in cols
    ensures KeysApart(Visits(cols, rows), ref)
  {
    var visits := Visits(cols, rows);
    VisitsCover(cols, rows);
    forall j | 0 <= j < |visits|
      ensures visits[j].1 != ref
    {
      assert visits[j] in visits;
    }
  }

  /** Option 3 without a reference column (absent or blank) is refused
      whatever the selectors are, and no workbook comes back. */
  lemma BlankRefRejected(wb: Book, form: Form, cols: seq<int>, rows: seq<int>, rng: Rng)
    requires form.option == "3"
    requires form.refColumn.None? || AllSpace(form.refColumn.value)
    ensures Dispatch(wb, form, cols, rows, rng) == Err(MissingRefColumn)
  {
    if form.refColumn.Some? {
      TrimBlank(form.refColumn.value, StrSpaces);
    }
  }
}
