/** Option 3 (app.py lines 99-118): each visited cell is filled from the
    answer key found in the reference column of its row. A key that is not
    one of 1, 2, 3, 4 skips the cell without using a draw; otherwise a hit
    copies the key and a miss writes one of the three other choices.
 */
module Answers {
  import opened Workbook

  /** The multiple-choice keys `[1, 2, 3, 4]`. */
  const Choices: seq<int> := [1, 2, 3, 4]

  /** A cell that holds a valid key. */
  predicate IsKey(c: Cell) {
    c.IntV? && c.n in Choices
  }

  /** The elements of `xs` other than `c`, in their order. */
  function Without(xs: seq<int>, c: int): (r: seq<int>)
    ensures forall x :: x in r <==> x in xs && x != c
    ensures |r| <= |xs|
  {
    if |xs| == 0 then []
    else if xs[0] == c then Without(xs[1..], c)
    else [xs[0]] + Without(xs[1..], c)
  }

  /** `[x for x in [1, 2, 3, 4] if x != correct]`: the wrong answers, in
      increasing order; there are three of them for a valid key. */
  function WrongAnswers(correct: int): (r: seq<int>)
    ensures forall x :: x in r <==> x in Choices && x != correct
    ensures correct in Choices ==> |r| == 3
    ensures forall i, j :: 0 <= i < j < |r| ==> r[i] < r[j]
  {
    WithoutChoices(correct);
    Without(Choices, correct)
  }

  /** The filter over the four choices, case by case. */
  lemma WithoutChoices(c: int)
    ensures Without(Choices, c) ==
      if c == 1 then [2, 3, 4]
      else if c == 2 then [1, 3, 4]
      else if c == 3 then [1, 2, 4]
      else if c == 4 then [1, 2, 3]
      else Choices
  {
    assert [4][1..] == [];
    assert Without([4], c) == if c == 4 then [] else [4];
    assert [3, 4][1..] == [4];
    assert Without([3, 4], c) == if c == 3 then [4] else [3] + Without([4], c);
    assert [2, 3, 4][1..] == [3, 4];
    assert Without([2, 3, 4], c) == if c == 2 then [3, 4] else [2] + Without([3, 4], c);
    assert Choices[1..] == [2, 3, 4];
  }

  /** The answer one draw gives for a valid key: the key on a hit, and the
      wrong answer the pick selects on a miss. */
  function Answer(correct: int, d: Draw): (v: int)
    requires correct in Choices
    ensures v in Choices
    ensures d.hit <==> v == correct
  {
    if d.hit then correct else WrongAnswers(correct)[d.pick]
  }

  /** Every choice is some draw's answer, and on a miss distinct picks give
      distinct wrong answers, so a uniform pick is a uniform wrong answer. */
  lemma AnswerCovers(correct: int, v: int)
    requires correct in Choices && v in Choices
    ensures exists d :: Answer(correct, d) == v
  {
    if v == correct {
      assert Answer(correct, Draw(true, 0)) == v;
    } else {
      var w := WrongAnswers(correct);
      assert v in w;
      var i :| 0 <= i < |w| && w[i] == v;
      assert Answer(correct, Draw(false, i)) == v;
    }
  }

  lemma WrongPicksDiffer(correct: int, d1: Draw, d2: Draw)
    requires correct in Choices && !d1.hit && !d2.hit && d1.pick != d2.pick
    ensures Answer(correct, d1) != Answer(correct, d2)
  {
    var w := WrongAnswers(correct);
    if d1.pick < d2.pick {
      assert w[d1.pick] < w[d2.pick];
    } else {
      assert w[d2.pick] < w[d1.pick];
    }
  }

  /** The key for the visit of `a`: the current value of the reference
      column in `a`'s row. */
  function KeyAt(ws: Sheet, a: Addr, ref: int): Cell {
    Get(ws, (a.0, ref))
  }

  /** One sheet: for each visited cell in loop order, read the key from the
      sheet as it is at that moment; skip the cell if the key is not valid,
      otherwise use one draw and write the answer. */
  function AnswerCells(ws: Sheet, visits: seq<Addr>, ref: int, rng: Rng, k: nat): (r: Pass)
    ensures k <= r.next <= k + |visits|
    decreases |visits|
  {
    if |visits| == 0 then Pass(ws, k)
    else
      var key := KeyAt(ws, visits[0], ref);
      if IsKey(key) then
        AnswerCells(ws[visits[0] := IntV(Answer(key.n, rng(k)))], visits[1..], ref, rng, k + 1)
      else
        AnswerCells(ws, visits[1..], ref, rng, k)
  }

  /** The number of visits whose row has a valid key in `ws`. */
  function Keyed(ws: Sheet, visits: seq<Addr>, ref: int): (c: nat)
    ensures c <= |visits|
  {
    if |visits| == 0 then 0
    else (if IsKey(KeyAt(ws, visits[0], ref)) then 1 else 0) + Keyed(ws, visits[1..], ref)
  }

  /** No visited cell lies in the reference column, so the keys stay put. */
  predicate KeysApart(visits: seq<Addr>, ref: int) {
    forall j :: 0 <= j < |visits| ==> visits[j].1 != ref
  }

  /** Option 3 on one sheet, whatever the reference column, even one among
      the visited columns: a write lands only on a cell whose key is valid
      and puts a valid key there, so which rows have a valid key never
      changes. Hence exactly one draw per visit with a valid key and none
      for the others; cells not visited, and visited cells whose key is not
      valid, are as they were; a visited cell with a valid key ends with a
      choice. */
  lemma {:induction false} AnswerCellsEffect(ws: Sheet, visits: seq<Addr>, ref: int, rng: Rng, k: nat)
    ensures var r := AnswerCells(ws, visits, ref, rng, k);
      r.next == k + Keyed(ws, visits, ref)
    ensures var r := AnswerCells(ws, visits, ref, rng, k).sheet;
      forall a :: IsKey(KeyAt(r, a, ref)) <==> IsKey(KeyAt(ws, a, ref))
    ensures var r := AnswerCells(ws, visits, ref, rng, k).sheet;
      forall a :: (a !in visits || !IsKey(KeyAt(ws, a, ref))) ==> SameAt(ws, r, a)
    ensures var r := AnswerCells(ws, visits, ref, rng, k).sheet;
      forall a :: a in visits && IsKey(KeyAt(ws, a, ref)) ==> IsKey(Get(r, a))
    decreases |visits|
  {
    if |visits| > 0 {
      var a0 := visits[0];
      var key := KeyAt(ws, a0, ref);
      var ws' := if IsKey(key) then ws[a0 := IntV(Answer(key.n, rng(k)))] else ws;
      var k' := if IsKey(key) then k + 1 else k;
      var r := AnswerCells(ws, visits, ref, rng, k);
      assert r == AnswerCells(ws', visits[1..], ref, rng, k');
      AnswerCellsEffect(ws', visits[1..], ref, rng, k');
      assert forall a :: IsKey(KeyAt(ws', a, ref)) <==> IsKey(KeyAt(ws, a, ref));
      KeyedSameKeys(ws, ws', visits[1..], ref);
      forall a | a !in visits || !IsKey(KeyAt(ws, a, ref))
        ensures SameAt(ws, r.sheet, a)
      {
        assert a != a0 || !IsKey(key);
        assert SameAt(ws, ws', a);
        assert a !in visits[1..] || !IsKey(KeyAt(ws', a, ref));
      }
      forall a | a in visits && IsKey(KeyAt(ws, a, ref))
        ensures IsKey(Get(r.sheet, a))
      {
        if a !in visits[1..] {
          assert a == a0 && SameAt(ws', r.sheet, a);
        }
      }
    }
  }

  /** `Keyed` looks only at which rows have a valid key. */
  lemma {:induction false} KeyedSameKeys(ws: Sheet, ws': Sheet, visits: seq<Addr>, ref: int)
    requires forall a :: IsKey(KeyAt(ws', a, ref)) <==> IsKey(KeyAt(ws, a, ref))
    ensures Keyed(ws', visits, ref) == Keyed(ws, visits, ref)
    decreases |visits|
  {
    if |visits| > 0 {
      KeyedSameKeys(ws, ws', visits[1..], ref);
    }
  }

  /** Every draw hits, whatever the reference column: each visited cell
      with a valid key receives the key its row held at the start, since a
      hit on a key cell writes back the key it read. */
  lemma {:induction false} AnswerCellsAllHit(ws: Sheet, visits: seq<Addr>, ref: int, rng: Rng, k: nat)
    requires AllHit(rng, k, |visits|)
    ensures var r := AnswerCells(ws, visits, ref, rng, k).sheet;
      forall a :: a in visits && IsKey(KeyAt(ws, a, ref)) ==> Get(r, a) == KeyAt(ws, a, ref)
    decreases |visits|
  {
    if |visits| > 0 {
      var a0 := visits[0];
      var key := KeyAt(ws, a0, ref);
      var ws' := if IsKey(key) then ws[a0 := IntV(Answer(key.n, rng(k)))] else ws;
      var k' := if IsKey(key) then k + 1 else k;
      var r := AnswerCells(ws, visits, ref, rng, k).sheet;
      assert r == AnswerCells(ws', visits[1..], ref, rng, k').sheet;
      assert IsKey(key) ==> rng(k + 0).hit;
      assert forall a :: KeyAt(ws', a, ref) == KeyAt(ws, a, ref);
      assert AllHit(rng, k', |visits| - 1);
      AnswerCellsAllHit(ws', visits[1..], ref, rng, k');
      AnswerCellsEffect(ws', visits[1..], ref, rng, k');
      forall a | a in visits && IsKey(KeyAt(ws, a, ref))
        ensures Get(r, a) == KeyAt(ws, a, ref)
      {
        if a !in visits[1..] {
          assert a == a0 && SameAt(ws', r, a);
        }
      }
    }
  }

  /** Every draw hits: each visited cell with a valid key receives its key.
      No draw hits: each such cell receives a choice other than its key. */
  lemma {:induction false} AnswerCellsExtremes(ws: Sheet, visits: seq<Addr>, ref: int, rng: Rng, k: nat)
    requires KeysApart(visits, ref)
    ensures var r := AnswerCells(ws, visits, ref, rng, k).sheet;
      AllHit(rng, k, |visits|) ==>
        forall a :: a in visits && IsKey(KeyAt(ws, a, ref)) ==> Get(r, a) == KeyAt(ws, a, ref)
    ensures var r := AnswerCells(ws, visits, ref, rng, k).sheet;
      NoneHit(rng, k, |visits|) ==>
        forall a :: a in visits && IsKey(KeyAt(ws, a, ref)) ==> IsKey(Get(r, a)) && Get(r, a) != KeyAt(ws, a, ref)
    decreases |visits|
  {
    if |visits| > 0 {
      var a0 := visits[0];
      var key := KeyAt(ws, a0, ref);
      var ws' := if IsKey(key) then ws[a0 := IntV(Answer(key.n, rng(k)))] else ws;
      var k' := if IsKey(key) then k + 1 else k;
      var r := AnswerCells(ws, visits, ref, rng, k).sheet;
      assert r == AnswerCells(ws', visits[1..], ref, rng, k').sheet;
      assert KeysApart(visits[1..], ref) by {
        forall j | 0 <= j < |visits| - 1
          ensures visits[1..][j].1 != ref
        {
          assert visits[1..][j] == visits[j + 1];
        }
      }
      AnswerCellsExtremes(ws', visits[1..], ref, rng, k');
      AnswerCellsEffect(ws', visits[1..], ref, rng, k');
      assert a0.1 != ref;
      assert forall a :: KeyAt(ws', a, ref) == KeyAt(ws, a, ref);
      if AllHit(rng, k, |visits|) {
        assert AllHit(rng, k', |visits| - 1);
        assert IsKey(key) ==> rng(k + 0).hit;
        forall a | a in visits && IsKey(KeyAt(ws, a, ref))
          ensures Get(r, a) == KeyAt(ws, a, ref)
        {
          if a !in visits[1..] {
            assert a == a0 && SameAt(ws', r, a);
          }
        }
      }
      if NoneHit(rng, k, |visits|) {
        assert NoneHit(rng, k', |visits| - 1);
        assert IsKey(key) ==> !rng(k + 0).hit;
        forall a | a in visits && IsKey(KeyAt(ws, a, ref))
          ensures IsKey(Get(r, a)) && Get(r, a) != KeyAt(ws, a, ref)
        {
          if a !in visits[1..] {
            assert a == a0 && SameAt(ws', r, a);
          }
        }
      }
    }
  }

  /** Every target sheet in order, the draws continuing from sheet to sheet
      where the previous one stopped. */
  function AnswerSheets(sheets: seq<Sheet>, visits: seq<Addr>, ref: int, rng: Rng, k: nat): (r: seq<Sheet>)
    ensures |r| == |sheets|
    decreases |sheets|
  {
    if |sheets| == 0 then []
    else
      var first := AnswerCells(sheets[0], visits, ref, rng, k);
      [first.sheet] + AnswerSheets(sheets[1..], visits, ref, rng, first.next)
  }

  /** Sheet `i` is answered on its own, starting at the draw where the
      previous sheets stopped, which is `k` plus their keyed visits. `at`
      is fixed by a
      `requires` rather than written out in the `ensures`, to keep the
      proof small. */
  lemma {:induction false} AnswerSheetsAt(sheets: seq<Sheet>, visits: seq<Addr>, ref: int, rng: Rng, k: nat, i: nat, at: nat)
    requires i < |sheets| && at == k + KeyedBefore(sheets, visits, ref, i)
    ensures AnswerSheets(sheets, visits, ref, rng, k)[i] == AnswerCells(sheets[i], visits, ref, rng, at).sheet
    decreases i
  {
    if i > 0 {
      var first := AnswerCells(sheets[0], visits, ref, rng, k);
      AnswerCellsEffect(sheets[0], visits, ref, rng, k);
      AnswerSheetsAt(sheets[1..], visits, ref, rng, first.next, i - 1, at);
      assert sheets[1..][i - 1] == sheets[i];
    }
  }

  /** The keyed visits of the sheets before position `i`. */
  function KeyedBefore(sheets: seq<Sheet>, visits: seq<Addr>, ref: int, i: nat): nat
    requires i <= |sheets|
  {
    if i == 0 then 0 else Keyed(sheets[0], visits, ref) + KeyedBefore(sheets[1..], visits, ref, i - 1)
  }

  /** Option 3 on a workbook: every sheet but the first is answered, the
      draws running on from sheet to sheet. */
  function AnswerBook(wb: Book, visits: seq<Addr>, ref: int, rng: Rng): (r: Book)
    ensures |r| == |wb| && (|wb| > 0 ==> r[0] == wb[0])
  {
    WithTargets(wb, AnswerSheets(Targets(wb), visits, ref, rng, 0))
  }

  /** Sheet `i` of the answered workbook is sheet `i` of the input answered
      from the draw where the earlier target sheets stopped, `k` (fixed by
      a `requires`, to keep the proof small). */
  lemma AnswerBookAt(wb: Book, visits: seq<Addr>, ref: int, rng: Rng, i: nat, k: nat)
    requires 1 <= i < |wb| && k == KeyedBefore(Targets(wb), visits, ref, i - 1)
    ensures AnswerBook(wb, visits, ref, rng)[i] == AnswerCells(wb[i], visits, ref, rng, k).sheet
  {
    var sheets := Targets(wb);
    TargetAt(wb, AnswerSheets(sheets, visits, ref, rng, 0), i);
    AnswerSheetsAt(sheets, visits, ref, rng, 0, i - 1, k);
  }

  /** Row 1 of columns A and B is visited as A1, then B1. */
  lemma RowOneOfAB()
    ensures Visits([1, 2], [1]) == [(1, 1), (1, 2)]
  {
    assert ColumnVisits(1, [1]) == [(1, 1)];
    assert ColumnVisits(2, [1]) == [(1, 2)];
    assert [1, 2][1..] == [2];
    assert Visits([2], [1]) == [(1, 2)] + Visits([], [1]);
  }

  /** When the reference column is selected, its own cell is answered
      first and later columns read the new key. Row 1 has key 2 in column
      A, and the selection is A then B: a miss turns A1 into 1, and B1,
      although its draw hits, then copies that 1 instead of the original 2. */
  lemma SelectedKeyExample()
    ensures var ws: Sheet := map[(1, 1) := IntV(2)];
      var rng: Rng := j => if j == 0 then Draw(false, 0) else Draw(true, 0);
      var r := AnswerCells(ws, Visits([1, 2], [1]), 1, rng, 0).sheet;
      Get(r, (1, 1)) == IntV(1) && Get(r, (1, 2)) == IntV(1) && rng(1).hit
  {
    var ws: Sheet := map[(1, 1) := IntV(2)];
    var rng: Rng := j => if j == 0 then Draw(false, 0) else Draw(true, 0);
    var visits := Visits([1, 2], [1]);
    RowOneOfAB();
    WithoutChoices(2);
    var ws1 := ws[(1, 1) := IntV(1)];
    assert AnswerCells(ws, visits, 1, rng, 0) == AnswerCells(ws1, visits[1..], 1, rng, 1);
    assert visits[1..] == [(1, 2)];
    WithoutChoices(1);
    assert AnswerCells(ws1, [(1, 2)], 1, rng, 1) == AnswerCells(ws1[(1, 2) := IntV(1)], [], 1, rng, 2);
  }

  /** Why the all-miss half of `AnswerCellsExtremes` needs the keys apart
      from the visited cells: with key 2 in A1 and the selection A then B,
      two misses turn A1 into 1 and then give B1 a choice other than 1,
      which can be the original key 2. */
  lemma SelectedKeyMissExample()
    ensures var ws: Sheet := map[(1, 1) := IntV(2)];
      var rng: Rng := j => Draw(false, 0);
      var r := AnswerCells(ws, Visits([1, 2], [1]), 1, rng, 0).sheet;
      NoneHit(rng, 0, 2) && Get(r, (1, 1)) == IntV(1) && Get(r, (1, 2)) == KeyAt(ws, (1, 2), 1)
  {
    var ws: Sheet := map[(1, 1) := IntV(2)];
    var rng: Rng := j => Draw(false, 0);
    var visits := Visits([1, 2], [1]);
    RowOneOfAB();
    WithoutChoices(2);
    var ws1 := ws[(1, 1) := IntV(1)];
    assert AnswerCells(ws, visits, 1, rng, 0) == AnswerCells(ws1, visits[1..], 1, rng, 1);
    assert visits[1..] == [(1, 2)];
    WithoutChoices(1);
    assert AnswerCells(ws1, [(1, 2)], 1, rng, 1) == AnswerCells(ws1[(1, 2) := IntV(2)], [], 1, rng, 2);
  }
}
