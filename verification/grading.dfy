/** Option 2 (app.py lines 71-96): target sheets are handed out five per
    team for at most ten teams; each handed-out sheet gets its team number
    in D4, the team's project title in D5, and a score in every visited
    cell.
 */
module Grading {
  import opened Workbook
  import opened Projects

  /** Cell D4, which receives the team number. */
  const TeamCell: Addr := (4, 4)
  /** Cell D5, which receives the project title. */
  const ProjectCell: Addr := (5, 4)

  /** The score one draw gives: full marks on a hit, otherwise
      `randint(marks - 3, marks - 1)`, which the pick selects. */
  function Score(marks: int, d: Draw): (v: int)
    ensures marks - 3 <= v <= marks
    ensures d.hit <==> v == marks
  {
    if d.hit then marks else marks - 3 + d.pick
  }

  /** Every score between `marks - 3` and `marks` is given by some draw. */
  lemma ScoreCovers(marks: int, v: int)
    requires marks - 3 <= v <= marks
    ensures exists d :: Score(marks, d) == v
  {
    if v == marks {
      assert Score(marks, Draw(true, 0)) == v;
    } else {
      assert Score(marks, Draw(false, v - marks + 3)) == v;
    }
  }

  /** The visited cells of one sheet in loop order, each overwritten with
      the score of its own draw. */
  function ScoreCells(ws: Sheet, visits: seq<Addr>, marks: int, rng: Rng, k: nat): (r: Pass)
    ensures r.next == k + |visits|
    decreases |visits|
  {
    if |visits| == 0 then Pass(ws, k)
    else ScoreCells(ws[visits[0] := IntV(Score(marks, rng(k)))], visits[1..], marks, rng, k + 1)
  }

  /** Scoring leaves every cell it does not visit as it was. */
  lemma {:induction false} ScoreCellsFrame(ws: Sheet, visits: seq<Addr>, marks: int, rng: Rng, k: nat)
    ensures var r := ScoreCells(ws, visits, marks, rng, k).sheet;
      forall a :: a !in visits ==> SameAt(ws, r, a)
    decreases |visits|
  {
    if |visits| > 0 {
      var ws' := ws[visits[0] := IntV(Score(marks, rng(k)))];
      ScoreCellsFrame(ws', visits[1..], marks, rng, k + 1);
      assert forall a :: a !in visits ==> a != visits[0] && a !in visits[1..];
    }
  }

  /** A visited cell holds the score drawn at its last visit. */
  lemma {:induction false} ScoreCellsLastWrite(ws: Sheet, visits: seq<Addr>, marks: int, rng: Rng, k: nat, j: nat)
    requires j < |visits| && LastVisit(visits, j)
    ensures Get(ScoreCells(ws, visits, marks, rng, k).sheet, visits[j]) == IntV(Score(marks, rng(k + j)))
    decreases |visits|
  {
    var ws' := ws[visits[0] := IntV(Score(marks, rng(k)))];
    var r := ScoreCells(ws, visits, marks, rng, k).sheet;
    assert r == ScoreCells(ws', visits[1..], marks, rng, k + 1).sheet;
    if j == 0 {
      ScoreCellsFrame(ws', visits[1..], marks, rng, k + 1);
      assert visits[0] !in visits[1..] by {
        forall i | 0 <= i < |visits| - 1
          ensures visits[1..][i] != visits[0]
        {
          assert visits[1..][i] == visits[i + 1];
        }
      }
      assert SameAt(ws', r, visits[0]);
    } else {
      assert visits[1..][j - 1] == visits[j];
      assert LastVisit(visits[1..], j - 1) by {
        forall i | j - 1 < i < |visits| - 1
          ensures visits[1..][i] != visits[1..][j - 1]
        {
          assert visits[1..][i] == visits[i + 1];
        }
      }
      ScoreCellsLastWrite(ws', visits[1..], marks, rng, k + 1, j - 1);
      assert k + 1 + (j - 1) == k + j;
    }
  }

  /** Visit `j` is the last visit of its cell. */
  predicate LastVisit(visits: seq<Addr>, j: nat)
    requires j < |visits|
  {
    forall i :: j < i < |visits| ==> visits[i] != visits[j]
  }

  /** Every visited cell ends with a score in `marks - 3 .. marks`; when
      every draw hits, every visited cell holds full marks, and when every
      draw misses, every visited cell holds less. */
  lemma {:induction false} ScoreCellsRange(ws: Sheet, visits: seq<Addr>, marks: int, rng: Rng, k: nat)
    ensures var r := ScoreCells(ws, visits, marks, rng, k).sheet;
      forall a :: a in visits ==> Get(r, a).IntV? && marks - 3 <= Get(r, a).n <= marks
    ensures var r := ScoreCells(ws, visits, marks, rng, k).sheet;
      AllHit(rng, k, |visits|) ==> forall a :: a in visits ==> Get(r, a) == IntV(marks)
    ensures var r := ScoreCells(ws, visits, marks, rng, k).sheet;
      NoneHit(rng, k, |visits|) ==> forall a :: a in visits ==> Get(r, a).IntV? && marks - 3 <= Get(r, a).n <= marks - 1
    decreases |visits|
  {
    if |visits| > 0 {
      var ws' := ws[visits[0] := IntV(Score(marks, rng(k)))];
      var r := ScoreCells(ws, visits, marks, rng, k).sheet;
      assert r == ScoreCells(ws', visits[1..], marks, rng, k + 1).sheet;
      ScoreCellsRange(ws', visits[1..], marks, rng, k + 1);
      ScoreCellsFrame(ws', visits[1..], marks, rng, k + 1);
      assert visits[0] !in visits[1..] ==> SameAt(ws', r, visits[0]);
      assert forall a :: a in visits ==> a == visits[0] || a in visits[1..];
      assert AllHit(rng, k, |visits|) ==> AllHit(rng, k + 1, |visits| - 1) && rng(k + 0).hit;
      assert NoneHit(rng, k, |visits|) ==> NoneHit(rng, k + 1, |visits| - 1) && !rng(k + 0).hit;
    }
  }

  /** One handed-out sheet: team number into D4, project title into D5,
      then the scores. A visited cell that is D4 or D5 ends with a score. */
  function GradeSheet(ws: Sheet, team: int, visits: seq<Addr>, marks: int, rng: Rng, k: nat): (r: Pass)
    requires 1 <= team <= MaxTeams
    ensures r.next == k + |visits|
  {
    ScoreCells(ws[TeamCell := IntV(team)][ProjectCell := StrV(Title(team))], visits, marks, rng, k)
  }

  /** What a handed-out sheet holds afterwards: D4 and D5 carry the team and
      its title unless they are visited, visited cells hold scores in range
      (full marks when every draw hits, less when every draw misses), and
      every other cell is as it was. */
  lemma GradeSheetEffect(ws: Sheet, team: int, visits: seq<Addr>, marks: int, rng: Rng, k: nat)
    requires 1 <= team <= MaxTeams
    ensures var r := GradeSheet(ws, team, visits, marks, rng, k).sheet;
      TeamCell !in visits ==> Get(r, TeamCell) == IntV(team)
    ensures var r := GradeSheet(ws, team, visits, marks, rng, k).sheet;
      ProjectCell !in visits ==> Get(r, ProjectCell) == StrV(Title(team))
    ensures var r := GradeSheet(ws, team, visits, marks, rng, k).sheet;
      forall a :: a in visits ==> Get(r, a).IntV? && marks - 3 <= Get(r, a).n <= marks
    ensures var r := GradeSheet(ws, team, visits, marks, rng, k).sheet;
      forall a :: a !in visits && a != TeamCell && a != ProjectCell ==> SameAt(ws, r, a)
    ensures var r := GradeSheet(ws, team, visits, marks, rng, k).sheet;
      AllHit(rng, k, |visits|) ==> forall a :: a in visits ==> Get(r, a) == IntV(marks)
    ensures var r := GradeSheet(ws, team, visits, marks, rng, k).sheet;
      NoneHit(rng, k, |visits|) ==> forall a :: a in visits ==> Get(r, a).IntV? && marks - 3 <= Get(r, a).n <= marks - 1
  {
    var ws1 := ws[TeamCell := IntV(team)][ProjectCell := StrV(Title(team))];
    ScoreCellsFrame(ws1, visits, marks, rng, k);
    ScoreCellsRange(ws1, visits, marks, rng, k);
    var r := GradeSheet(ws, team, visits, marks, rng, k).sheet;
    assert TeamCell !in visits ==> SameAt(ws1, r, TeamCell);
    assert ProjectCell !in visits ==> SameAt(ws1, r, ProjectCell);
  }

  /** Grading one handed-out sheet as the loops see it: the sheet, its
      team and the next unused draw go in; the sheet and the next unused
      draw come out. */
  type Grader = (Sheet, int, nat) --> Pass

  /** `grade` accepts every team the loop can reach and uses up `n` draws per sheet. */
  ghost predicate Steady(grade: Grader, n: nat) {
    forall ws: Sheet, t: int, k: nat {:trigger grade.requires(ws, t, k)} :: 1 <= t <= MaxTeams ==>
      grade.requires(ws, t, k) && grade(ws, t, k).next == k + n
  }

  /** How option 2 grades one handed-out sheet. */
  function SheetGrader(visits: seq<Addr>, marks: int, rng: Rng): (g: Grader)
    ensures Steady(g, |visits|)
  {
    (ws: Sheet, t: int, k: nat) requires 1 <= t <= MaxTeams => GradeSheet(ws, t, visits, marks, rng, k)
  }

  /** The state of the two nested loops: the sheets so far, the position
      `sheet_index` and the next unused draw. */
  datatype Run = Run(sheets: seq<Sheet>, index: nat, next: nat)

  /** The inner `for _ in range(5)` loop of team `team`, at member `m`:
      grade the sheet at `index` and move on, or break when the sheets are
      used up. */
  function MemberLoop(sheets: seq<Sheet>, index: nat, m: nat, team: int,
                      grade: Grader, n: nat, k: nat): (r: Run)
    requires Steady(grade, n) && 1 <= team <= MaxTeams
    requires m <= TeamSize && index <= |sheets|
    ensures |r.sheets| == |sheets| && index <= r.index <= |sheets|
    decreases TeamSize - m
  {
    if m < TeamSize && index < |sheets| then
      var p := grade(sheets[index], team, k);
      MemberLoop(sheets[index := p.sheet], index + 1, m + 1, team, grade, n, p.next)
    else
      Run(sheets, index, k)
  }

  /** The outer `while` loop: one team per round while sheets remain and
      the team number is at most ten. */
  function TeamLoop(sheets: seq<Sheet>, index: nat, team: int,
                    grade: Grader, n: nat, k: nat): (r: seq<Sheet>)
    requires Steady(grade, n) && 1 <= team && index <= |sheets|
    ensures |r| == |sheets|
    decreases MaxTeams + 1 - team
  {
    if index < |sheets| && team <= MaxTeams then
      var run := MemberLoop(sheets, index, 0, team, grade, n, k);
      TeamLoop(run.sheets, run.index, team + 1, grade, n, run.next)
    else
      sheets
  }

  /** Option 2 over the target sheets, from draw 0. */
  function GradeSheets(sheets: seq<Sheet>, visits: seq<Addr>, marks: int, rng: Rng): (r: seq<Sheet>)
    ensures |r| == |sheets|
  {
    TeamLoop(sheets, 0, 1, SheetGrader(visits, marks, rng), |visits|, 0)
  }

  /** Reference definition of the loops, sheet by sheet: the sheet at
      position `j` belongs to team `j / 5 + 1` and uses the `j`-th block
      of draws; from the fifty-first sheet on nothing is written. */
  ghost function Expected(ws: Sheet, j: nat, grade: Grader, n: nat): Sheet
    requires Steady(grade, n)
  {
    if j < TeamSize * MaxTeams then grade(ws, TeamFor(j), Blocks(j, n)).sheet else ws
  }

  /** One team's round: it stops at the next team's first sheet or at the
      end, with the draws in step, and each sheet it hands out is graded as
      the reference says while the others are untouched. */
  lemma {:induction false} MemberLoopAt(cur: seq<Sheet>, index: nat, m: nat, team: int,
                                        grade: Grader, n: nat, k: nat, j: nat)
    requires Steady(grade, n) && 1 <= team <= MaxTeams && m <= TeamSize
    requires index == TeamSize * (team - 1) + m && index <= |cur|
    requires k == Blocks(index, n) && j < |cur|
    ensures var r := MemberLoop(cur, index, m, team, grade, n, k);
      r.index == (if TeamSize * team <= |cur| then TeamSize * team else |cur|)
      && r.next == Blocks(r.index, n)
      && r.sheets[j] == if j < index || r.index <= j then cur[j] else Expected(cur[j], j, grade, n)
    decreases TeamSize - m
  {
    if m < TeamSize && index < |cur| {
      var p := grade(cur[index], team, k);
      assert TeamFor(index) == team;
      assert p.next == Blocks(index + 1, n);
      MemberLoopAt(cur[index := p.sheet], index + 1, m + 1, team, grade, n, p.next, j);
    }
  }

  /** The outer loop, from the first sheet of team `team`: sheets before
      `index` are kept and every later sheet ends as the reference says. */
  lemma {:induction false} TeamLoopAt(cur: seq<Sheet>, index: nat, team: int,
                                      grade: Grader, n: nat, k: nat, j: nat)
    requires Steady(grade, n) && 1 <= team <= MaxTeams + 1
    requires index == if TeamSize * (team - 1) <= |cur| then TeamSize * (team - 1) else |cur|
    requires k == Blocks(index, n) && j < |cur|
    ensures TeamLoop(cur, index, team, grade, n, k)[j] ==
      if j < index then cur[j] else Expected(cur[j], j, grade, n)
    decreases MaxTeams + 1 - team
  {
    if index < |cur| && team <= MaxTeams {
      MemberLoopAt(cur, index, 0, team, grade, n, k, j);
      var run := MemberLoop(cur, index, 0, team, grade, n, k);
      TeamLoopAt(run.sheets, run.index, team + 1, grade, n, run.next, j);
    } else if index <= j {
      assert j >= TeamSize * MaxTeams;
    }
  }

  /** Option 2 in closed form: the sheet at position `j < 50` gets team
      `j / 5 + 1`, that team's title and the `j`-th block of draws. The
      sheet `ws` is named by a `requires` rather than written as `sheets[j]`
      in the `ensures`, which keeps the proof obligation small. */
  lemma GradeSheetsAt(sheets: seq<Sheet>, visits: seq<Addr>, marks: int, rng: Rng, j: nat, ws: Sheet)
    requires j < |sheets| && j < TeamSize * MaxTeams && sheets[j] == ws
    ensures GradeSheets(sheets, visits, marks, rng)[j] ==
      GradeSheet(ws, TeamFor(j), visits, marks, rng, Blocks(j, |visits|)).sheet
  {
    assert Blocks(0, |visits|) == 0;
    TeamLoopAt(sheets, 0, 1, SheetGrader(visits, marks, rng), |visits|, 0, j);
  }

  /** From the fifty-first sheet on, option 2 leaves every sheet as it was. */
  lemma GradeSheetsBeyond(sheets: seq<Sheet>, visits: seq<Addr>, marks: int, rng: Rng, j: nat)
    requires TeamSize * MaxTeams <= j < |sheets|
    ensures GradeSheets(sheets, visits, marks, rng)[j] == sheets[j]
  {
    assert Blocks(0, |visits|) == 0;
    TeamLoopAt(sheets, 0, 1, SheetGrader(visits, marks, rng), |visits|, 0, j);
  }

  /** Option 2 on a workbook: the target sheets are every sheet but the first. */
  function GradeBook(wb: Book, visits: seq<Addr>, marks: int, rng: Rng): (r: Book)
    ensures |r| == |wb| && (|wb| > 0 ==> r[0] == wb[0])
  {
    WithTargets(wb, GradeSheets(Targets(wb), visits, marks, rng))
  }

  /** Target `i - 1` among the first fifty is graded as its team
      `(i - 1) / 5 + 1`, with the `(i - 1)`-th block of draws. `team` and
      `k` are fixed by `requires` to those values rather than written out in
      the `ensures`, which keeps the division out of the proof obligation. */
  lemma GradeBookAt(wb: Book, visits: seq<Addr>, marks: int, rng: Rng, i: nat, team: int, k: nat)
    requires 1 <= i < |wb| && i - 1 < TeamSize * MaxTeams
    requires team == TeamFor(i - 1) && k == Blocks(i - 1, |visits|)
    ensures GradeBook(wb, visits, marks, rng)[i] == GradeSheet(wb[i], team, visits, marks, rng, k).sheet
  {
    var sheets := Targets(wb);
    TargetAt(wb, GradeSheets(sheets, visits, marks, rng), i);
    GradeSheetsAt(sheets, visits, marks, rng, i - 1, wb[i]);
  }

  /** Targets from the fifty-first on are returned as they were. */
  lemma GradeBookBeyond(wb: Book, visits: seq<Addr>, marks: int, rng: Rng, i: nat)
    requires 1 + TeamSize * MaxTeams <= i < |wb|
    ensures GradeBook(wb, visits, marks, rng)[i] == wb[i]
  {
    var sheets := Targets(wb);
    var graded := GradeSheets(sheets, visits, marks, rng);
    TargetAt(wb, graded, i);
    GradeSheetsBeyond(sheets, visits, marks, rng, i - 1);
  }
}
