/** Option 1 (app.py lines 62-68): on every target sheet, each visited cell
    becomes the text "v" when its draw hits and is left as it was otherwise.
 */
module Presence {
  import opened Workbook

  /** The text option 1 writes. */
  const Mark: Cell := StrV("v")

  /** One sheet: for each visited cell in loop order, one draw; a hit writes
      "v". Every visited cell uses up exactly one draw. */
  function MarkSheet(ws: Sheet, visits: seq<Addr>, rng: Rng, k: nat): (r: Pass)
    ensures r.next == k + |visits|
    decreases |visits|
  {
    if |visits| == 0 then Pass(ws, k)
    else
      var ws' := if rng(k).hit then ws[visits[0] := Mark] else ws;
      MarkSheet(ws', visits[1..], rng, k + 1)
  }

  /** Exactly what one pass leaves in each cell: a cell whose draw hit at
      any of its visits reads "v"; a cell none of whose visits hit (in
      particular a cell never visited) is as it was. */
  lemma {:induction false} MarkSheetEffect(ws: Sheet, visits: seq<Addr>, rng: Rng, k: nat)
    ensures var r := MarkSheet(ws, visits, rng, k).sheet;
      forall j :: 0 <= j < |visits| && rng(k + j).hit ==> Get(r, visits[j]) == Mark
    ensures var r := MarkSheet(ws, visits, rng, k).sheet;
      forall a :: NeverHit(a, visits, rng, k) ==> SameAt(ws, r, a)
    decreases |visits|
  {
    if |visits| > 0 {
      var ws' := if rng(k).hit then ws[visits[0] := Mark] else ws;
      var r := MarkSheet(ws, visits, rng, k).sheet;
      assert r == MarkSheet(ws', visits[1..], rng, k + 1).sheet;
      MarkSheetEffect(ws', visits[1..], rng, k + 1);
      forall j | 0 <= j < |visits| && rng(k + j).hit
        ensures Get(r, visits[j]) == Mark
      {
        if j == 0 {
          if NeverHit(visits[0], visits[1..], rng, k + 1) {
            assert SameAt(ws', r, visits[0]);
          } else {
            var j' :| 0 <= j' < |visits| - 1 && visits[1..][j'] == visits[0] && rng(k + 1 + j').hit;
            assert Get(r, visits[1..][j']) == Mark;
          }
        } else {
          assert visits[1..][j - 1] == visits[j];
          assert rng(k + 1 + (j - 1)).hit;
        }
      }
      forall a | NeverHit(a, visits, rng, k)
        ensures SameAt(ws, r, a)
      {
        forall j | 0 <= j < |visits| - 1 && visits[1..][j] == a
          ensures !rng(k + 1 + j).hit
        {
          assert visits[j + 1] == a;
        }
        assert NeverHit(a, visits[1..], rng, k + 1);
        if a == visits[0] {
          assert !rng(k + 0).hit;
        }
        assert SameAt(ws, ws', a) && SameAt(ws', r, a);
      }
    }
  }

  /** What a pass means cell by cell: cells not visited are as they were,
      every cell is as it was or reads "v", every visited cell reads "v"
      when all draws hit, and nothing changes when none hits. */
  lemma MarkSheetOutcome(ws: Sheet, visits: seq<Addr>, rng: Rng, k: nat)
    ensures var r := MarkSheet(ws, visits, rng, k).sheet;
      forall a :: a !in visits ==> SameAt(ws, r, a)
    ensures var r := MarkSheet(ws, visits, rng, k).sheet;
      forall a :: SameAt(ws, r, a) || Get(r, a) == Mark
    ensures AllHit(rng, k, |visits|) ==>
      forall a :: a in visits ==> Get(MarkSheet(ws, visits, rng, k).sheet, a) == Mark
    ensures NoneHit(rng, k, |visits|) ==> MarkSheet(ws, visits, rng, k).sheet == ws
  {
    var r := MarkSheet(ws, visits, rng, k).sheet;
    MarkSheetEffect(ws, visits, rng, k);
    forall a | a !in visits
      ensures SameAt(ws, r, a)
    {
      assert NeverHit(a, visits, rng, k);
    }
    forall a
      ensures SameAt(ws, r, a) || Get(r, a) == Mark
    {
      if !NeverHit(a, visits, rng, k) {
        var j :| 0 <= j < |visits| && visits[j] == a && rng(k + j).hit;
      }
    }
    if AllHit(rng, k, |visits|) {
      forall a | a in visits
        ensures Get(r, a) == Mark
      {
        var j :| 0 <= j < |visits| && visits[j] == a;
        assert rng(k + j).hit;
      }
    }
    if NoneHit(rng, k, |visits|) {
      forall a
        ensures (a in ws <==> a in r) && (a in ws ==> ws[a] == r[a])
      {
        assert NeverHit(a, visits, rng, k);
        assert SameAt(ws, r, a);
      }
    }
  }

  /** No visit of cell `a` among `visits` (draws from `k` on) hits. */
  predicate NeverHit(a: Addr, visits: seq<Addr>, rng: Rng, k: nat) {
    forall j :: 0 <= j < |visits| && visits[j] == a ==> !rng(k + j).hit
  }

  /** Every target sheet in order, the draws continuing from sheet to sheet
      where the previous one stopped. */
  function MarkSheets(sheets: seq<Sheet>, visits: seq<Addr>, rng: Rng, k: nat): (r: seq<Sheet>)
    ensures |r| == |sheets|
    decreases |sheets|
  {
    if |sheets| == 0 then []
    else
      var first := MarkSheet(sheets[0], visits, rng, k);
      [first.sheet] + MarkSheets(sheets[1..], visits, rng, first.next)
  }

  /** Sheet `i` is marked on its own, with the `i`-th block of draws
      after `k`, which starts at draw `at`. `at` is fixed by a `requires`
      rather than written out in the `ensures`, to keep the proof small. */
  lemma {:induction false} MarkSheetsAt(sheets: seq<Sheet>, visits: seq<Addr>, rng: Rng, k: nat, i: nat, at: nat)
    requires i < |sheets| && at == k + Blocks(i, |visits|)
    ensures MarkSheets(sheets, visits, rng, k)[i] == MarkSheet(sheets[i], visits, rng, at).sheet
    decreases i
  {
    if i > 0 {
      MarkSheetsAt(sheets[1..], visits, rng, k + |visits|, i - 1, at);
      assert sheets[1..][i - 1] == sheets[i];
    }
  }

  /** Option 1 on a workbook: every sheet but the first is marked, the
      draws running on from sheet to sheet. */
  function MarkBook(wb: Book, visits: seq<Addr>, rng: Rng): (r: Book)
    ensures |r| == |wb| && (|wb| > 0 ==> r[0] == wb[0])
  {
    WithTargets(wb, MarkSheets(Targets(wb), visits, rng, 0))
  }

  /** Sheet `i` of the marked workbook is sheet `i` of the input marked
      with the `(i - 1)`-th block of draws, which starts at draw `k`
      (fixed by a `requires`, to keep the proof small). */
  lemma MarkBookAt(wb: Book, visits: seq<Addr>, rng: Rng, i: nat, k: nat)
    requires 1 <= i < |wb| && k == Blocks(i - 1, |visits|)
    ensures MarkBook(wb, visits, rng)[i] == MarkSheet(wb[i], visits, rng, k).sheet
  {
    var sheets := Targets(wb);
    TargetAt(wb, MarkSheets(sheets, visits, rng, 0), i);
    MarkSheetsAt(sheets, visits, rng, 0, i - 1, k);
  }
}
