/** The workbook as the route sees it once openpyxl has loaded it: sheets in
    tab order, each a grid of cells addressed by (row, column), plus the
    order in which the policies visit cells and the random draws they use.
 */
module Workbook {

  /** A cell value: empty, an integer or a text string. */
  datatype Cell = Empty | IntV(n: int) | StrV(s: string)

  /** A cell address `(row, column)`, as in `ws.cell(row=row, column=col)`. */
  type Addr = (int, int)

  /** A worksheet: the cells that hold a value, by address. */
  type Sheet = map<Addr, Cell>

  /** A workbook: its worksheets in tab order. */
  type Book = seq<Sheet>

  /** The value of a cell; a cell never written reads as empty. */
  function Get(ws: Sheet, a: Addr): Cell {
    if a in ws then ws[a] else Empty
  }

  /** Cell `a` is the same in both sheets: present in both with one value, or in neither. */
  predicate SameAt(ws: Sheet, ws': Sheet, a: Addr) {
    (a in ws <==> a in ws') && (a in ws ==> ws[a] == ws'[a])
  }

  /** `wb.sheetnames[1:]`: every sheet but the first, in order. */
  function Targets(wb: Book): (r: seq<Sheet>)
    ensures |r| == if |wb| == 0 then 0 else |wb| - 1
  {
    if |wb| == 0 then [] else wb[1..]
  }

  /** The workbook with its target sheets replaced; the first sheet is kept. */
  function WithTargets(wb: Book, ts: seq<Sheet>): (r: Book)
    requires |ts| == |Targets(wb)|
    ensures |r| == |wb|
    ensures |wb| > 0 ==> r[0] == wb[0]
  {
    if |wb| == 0 then wb else [wb[0]] + ts
  }

  /** Position `i` of the workbook is target `i - 1`, before and after the
      targets are replaced. */
  lemma TargetAt(wb: Book, ts: seq<Sheet>, i: nat)
    requires |ts| == |Targets(wb)| && 1 <= i < |wb|
    ensures Targets(wb)[i - 1] == wb[i]
    ensures WithTargets(wb, ts)[i] == ts[i - 1]
  {
  }

  /** The cells of one column, in row order. */
  function ColumnVisits(col: int, rows: seq<int>): (r: seq<Addr>)
    ensures |r| == |rows|
    ensures forall j :: 0 <= j < |rows| ==> r[j] == (rows[j], col)
  {
    seq(|rows|, j requires 0 <= j < |rows| => (rows[j], col))
  }

  /** The loop order of every policy: `for col in columns: for row in rows`. */
  function Visits(cols: seq<int>, rows: seq<int>): (r: seq<Addr>)
    ensures |r| == Blocks(|cols|, |rows|)
    decreases |cols|
  {
    if |cols| == 0 then [] else ColumnVisits(cols[0], rows) + Visits(cols[1..], rows)
  }

  /** The visited cells are exactly the selected rows of the selected columns. */
  lemma {:induction false} VisitsCover(cols: seq<int>, rows: seq<int>)
    ensures forall a :: a in Visits(cols, rows) <==> a.0 in rows && a.1 in cols
    decreases |cols|
  {
    if |cols| > 0 {
      VisitsCover(cols[1..], rows);
      var head := ColumnVisits(cols[0], rows);
      assert forall a :: a in head <==> a.0 in rows && a.1 == cols[0];
      assert forall c :: c in cols <==> c == cols[0] || c in cols[1..];
    }
  }

  /** Column `cols[i]` is visited as block `i`, rows in order within it. */
  lemma {:induction false} VisitOrder(cols: seq<int>, rows: seq<int>, i: nat, j: nat)
    requires i < |cols| && j < |rows|
    ensures Blocks(i, |rows|) + j < |Visits(cols, rows)|
    ensures Visits(cols, rows)[Blocks(i, |rows|) + j] == (rows[j], cols[i])
    decreases |cols|
  {
    var n := |rows|;
    var v := Visits(cols, rows);
    var head := ColumnVisits(cols[0], rows);
    var rest := Visits(cols[1..], rows);
    assert v == head + rest;
    if i == 0 {
      assert v[j] == head[j];
    } else {
      VisitOrder(cols[1..], rows, i - 1, j);
      var m := Blocks(i - 1, n) + j;
      assert Blocks(i, n) + j == n + m;
      assert v[n + m] == rest[m];
    }
  }

  /** `i` consecutive blocks of `n` cells or draws: `i * n`, written out so
      that the offsets stay linear for the solver. */
  function Blocks(i: nat, n: nat): nat
    decreases i
  {
    if i == 0 then 0 else Blocks(i - 1, n) + n
  }

  /** Block `i` of `n` draws starts at draw `i * n`: option 1 and option 2
      use `n` draws per sheet, one per visited cell, so sheet `i` starts
      after the `i * n` draws of the sheets before it. */
  lemma {:induction false} BlocksIsProduct(i: nat, n: nat)
    ensures Blocks(i, n) == i * n
    decreases i
  {
    if i > 0 {
      BlocksIsProduct(i - 1, n);
      assert (i - 1) * n + n == i * n;
    }
  }

  /** What the random source returns at one draw: whether
      `random.random() < p` held, and a uniform pick among three, used as
      the offset of `random.randint(marks - 3, marks - 1)` or the index of
      `random.choice(wrong)`. */
  type Pick = k: int | 0 <= k < 3
  datatype Draw = Draw(hit: bool, pick: Pick)

  /** The random source: draw number `j` of the request. */
  type Rng = nat -> Draw

  /** Draws `from` to `from + n - 1` all hit. */
  predicate AllHit(rng: Rng, from: nat, n: nat) {
    forall j :: from <= j < from + n ==> rng(j).hit
  }

  /** Draws `from` to `from + n - 1` all miss. */
  predicate NoneHit(rng: Rng, from: nat, n: nat) {
    forall j :: from <= j < from + n ==> !rng(j).hit
  }

  /** A sheet after one pass, and the number of the next unused draw. */
  datatype Pass = Pass(sheet: Sheet, next: nat)
}
