/**
 What `print_inst` of `util/o3-pipeview.py` draws, said in ticks and letters: which line and
 column each stage is found in, and what stands everywhere else.
 */
module TimelineInTicks {
  import opened Alphabet
  import opened Sorting
  import opened ReorderBuffer
  import opened Timeline

  /** The letters of the header line. */
  ghost predicate Letter(s: Stage, c: char) {
    || (s == Fetch && c == 'f') || (s == Decode && c == 'd') || (s == Rename && c == 'n') || (s == Dispatch && c == 'p')
    || (s == Issue && c == 'i') || (s == Complete && c == 'c') || (s == Retire && c == 'r') || (s == StoreComplete && c == 's')
  }

  lemma LetterIsShorthand(s: Stage, c: char)
    ensures Letter(s, c) <==> c == Shorthand(s)
  {
  }

  /** Store completions are drawn only on request. */
  ghost predicate IsStage(l: Layout, s: Stage) {
    s == StoreComplete ==> l.storeCompletions
  }

  lemma StagesExactly(l: Layout, s: Stage)
    ensures s in l.Stages() <==> IsStage(l, s)
  {
    var first := [Fetch, Decode, Rename, Dispatch, Issue, Complete, Retire];
    assert s != StoreComplete ==> s == first[0] || s == first[1] || s == first[2] || s == first[3] || s == first[4] || s == first[5] || s == first[6];
  }

  ghost predicate Printable(l: Layout, inst: Inst) {
    l.width > 0 && l.cycleTime > 0 && forall s :: IsStage(l, s) ==> s in inst.ticks
  }

  lemma PrintableExactly(l: Layout, inst: Inst)
    ensures Printable(l, inst) <==> l.Valid() && HasTicks(l, inst)
  {
    forall s
      ensures s in l.Stages() <==> IsStage(l, s)
    {
      StagesExactly(l, s);
    }
  }

  /** Every stage happens less than a line's worth of ticks after the fetch. */
  ghost predicate FitsOneLine(l: Layout, inst: Inst)
    requires Printable(l, inst)
  {
    forall s :: IsStage(l, s) ==> inst.ticks[s] - inst.ticks[Fetch] < l.width * l.cycleTime
  }

  /** The stages line `i` is for: on the only line, all that do not lie on an earlier one. */
  ghost predicate Belongs(l: Layout, inst: Inst, i: nat, s: Stage)
    requires Printable(l, inst) && IsStage(l, s)
  {
    var perLine := l.width * l.cycleTime;
    var first, line := inst.ticks[Fetch] / perLine, inst.ticks[s] / perLine;
    inst.ticks[s] > 0 && if FitsOneLine(l, inst) then line >= first else line == first + i
  }

  lemma FitsOneLineExactly(l: Layout, inst: Inst)
    requires Printable(l, inst)
    ensures l.Valid() && HasTicks(l, inst)
    ensures FitsOneLine(l, inst) <==> NumLines(l, inst) == 1
  {
    PrintableExactly(l, inst);
    if !Compact(l, inst) {
      SeveralLines(l, inst);
      LastIsSome(inst, l.Stages());
      var s :| s in l.Stages() && inst.ticks[s] == LastEvent(l, inst);
      StagesExactly(l, s);
    } else {
      forall s | IsStage(l, s)
        ensures inst.ticks[s] - inst.ticks[Fetch] < l.width * l.cycleTime
      {
        StagesExactly(l, s);
        LastOfIsUpper(inst, l.Stages(), s);
      }
    }
  }

  lemma {:induction false} LastIsSome(inst: Inst, stages: seq<Stage>)
    requires stages != [] && forall s :: s in stages ==> s in inst.ticks
    ensures exists s :: s in stages && inst.ticks[s] == LastOf(inst, stages)
  {
    var n := |stages| - 1;
    assert stages[n] in stages;
    if n == 0 {
      assert LastOf(inst, stages[..0]) == 0;
    } else {
      LastIsSome(inst, stages[..n]);
      var s :| s in stages[..n] && inst.ticks[s] == LastOf(inst, stages[..n]);
      assert s in stages;
    }
  }

  lemma BelongsExactly(l: Layout, inst: Inst, i: nat, s: Stage)
    requires Printable(l, inst) && IsStage(l, s)
    ensures l.Valid() && HasTicks(l, inst)
    ensures i < NumLines(l, inst) ==> (OnLine(l, inst, i, s) <==> Belongs(l, inst, i, s))
  {
    FitsOneLineExactly(l, inst);
    TimeWidthPositive(l);
    if i < NumLines(l, inst) {
      if FitsOneLine(l, inst) {
        OnOnlyLine(l, inst, s);
      } else {
        WithinLine(inst.ticks[s], inst.ticks[Fetch], l.TimeWidth(), i);
      }
    }
  }

  lemma OnOnlyLine(l: Layout, inst: Inst, s: Stage)
    requires Printable(l, inst) && IsStage(l, s) && FitsOneLine(l, inst)
    requires l.Valid() && HasTicks(l, inst) && NumLines(l, inst) == 1
    ensures OnLine(l, inst, 0, s) <==> Belongs(l, inst, 0, s)
  {
    TimeWidthPositive(l);
    WithinOnlyLine(inst.ticks[s], inst.ticks[Fetch], l.TimeWidth());
  }

  lemma WithinOnlyLine(tick: nat, fetch: nat, tw: nat)
    requires tw > 0 && tick < fetch + tw
    ensures var base := fetch / tw * tw;
            base + 0 * tw <= tick < base + 0 * tw + tw + (fetch - base) <==> fetch / tw <= tick / tw
  {
    AtOrBehind(tick, fetch / tw, tw);
  }

  lemma WithinLine(tick: nat, fetch: nat, tw: nat, i: nat)
    requires tw > 0
    ensures var start := fetch / tw * tw + i * tw;
            start <= tick < start + tw + 0 <==> tick / tw == fetch / tw + i
  {
    StartsAtLine(fetch, tw, i);
    QuotientExactly(tick, tw, fetch / tw + i);
  }

  lemma StartsAtLine(fetch: nat, tw: nat, i: nat)
    requires tw > 0
    ensures fetch / tw * tw + i * tw == (fetch / tw + i) * tw
  {
  }

  lemma AtOrBehind(tick: nat, q: nat, tw: nat)
    requires tw > 0
    ensures q * tw <= tick <==> q <= tick / tw
  {
    DivisionBounds(tick, tw);
    if q <= tick / tw {
      MultiplyMonotone(q, tick / tw, tw);
    } else {
      MultiplyMonotone(tick / tw + 1, q, tw);
    }
  }

  /** One line if everything fits; otherwise as many as the latest stage is lines behind the fetch, and one. */
  lemma NumberOfLines(l: Layout, inst: Inst, latest: Stage)
    requires Printable(l, inst) && IsStage(l, latest)
    requires forall s :: IsStage(l, s) ==> inst.ticks[s] <= inst.ticks[latest]
    ensures l.Valid() && HasTicks(l, inst)
    ensures NumLines(l, inst)
         == var perLine := l.width * l.cycleTime;
            if FitsOneLine(l, inst) then 1 else inst.ticks[latest] / perLine - inst.ticks[Fetch] / perLine + 1
  {
    FitsOneLineExactly(l, inst);
    StagesExactly(l, latest);
    TimeWidthPositive(l);
    LastOfIsUpper(inst, l.Stages(), latest);
    forall s | s in l.Stages()
      ensures inst.ticks[s] <= inst.ticks[latest]
    {
      StagesExactly(l, s);
    }
    LastOfBound(inst, l.Stages(), inst.ticks[latest]);
    if !FitsOneLine(l, inst) {
      BaseTickBelow(l, inst);
      LinesBetween(inst.ticks[latest], inst.ticks[Fetch], l.TimeWidth());
    }
  }

  lemma LinesBetween(last: nat, fetch: nat, tw: nat)
    requires tw > 0 && fetch <= last
    ensures fetch / tw * tw <= last && (last - fetch / tw * tw) / tw == last / tw - fetch / tw
  {
    var a, b := last / tw, fetch / tw;
    DivisionBounds(last, tw);
    DivisionBounds(fetch, tw);
    DivisionMonotone(fetch, last, tw);
    assert (a - b) * tw == a * tw - b * tw;
    QuotientUnique(last - b * tw, tw, a - b);
  }

  /** A dispatch in the very tick of the issue is left to the issue's letter. */
  ghost predicate LeftToIssue(inst: Inst, s: Stage) {
    s == Dispatch && Dispatch in inst.ticks && Issue in inst.ticks && inst.ticks[Dispatch] == inst.ticks[Issue]
  }

  /** The line a stage's letter stands on. */
  ghost function LineNumber(l: Layout, inst: Inst, s: Stage): int
    requires Printable(l, inst) && IsStage(l, s)
  {
    var perLine := l.width * l.cycleTime;
    if FitsOneLine(l, inst) then 0 else inst.ticks[s] / perLine - inst.ticks[Fetch] / perLine
  }

  /**
   The letter of a stage that happened, at or after the fetch, stands on its line and on no other,
   unless it is a dispatch in the tick of the issue: then it stands nowhere, and the issue's letter
   stands on that line.
   */
  lemma LetterOnItsLine(l: Layout, inst: Inst, s: Stage, c: char, i: nat)
    requires Printable(l, inst) && IsStage(l, s) && Letter(s, c)
    ensures l.Valid() && HasTicks(l, inst)
    ensures i < NumLines(l, inst) && inst.ticks[s] != 0 && inst.ticks[s] >= inst.ticks[Fetch] ==>
              (c in TimelineLine(l, inst, i) <==> i == LineNumber(l, inst, s) && !LeftToIssue(inst, s))
    ensures i < NumLines(l, inst) && inst.ticks[s] == 0 ==> c !in TimelineLine(l, inst, i)
  {
    PrintableExactly(l, inst);
    LetterIsShorthand(s, c);
    StagesExactly(l, s);
    if i < NumLines(l, inst) {
      if inst.ticks[s] == 0 {
        NotDrawn(l, inst, s, i);
      } else if inst.ticks[s] >= inst.ticks[Fetch] {
        DrawnOnExactlyOneLine(l, inst, s, i);
        SameLine(l, inst, s);
        SameMerge(l, inst, s);
      }
    }
  }

  lemma SameLine(l: Layout, inst: Inst, s: Stage)
    requires Printable(l, inst) && IsStage(l, s) && l.Valid() && HasTicks(l, inst) && inst.ticks[s] >= inst.ticks[Fetch]
    ensures LineOf(l, inst, s) == LineNumber(l, inst, s)
  {
    FitsOneLineExactly(l, inst);
    TimeWidthPositive(l);
    LinesBetween(inst.ticks[s], inst.ticks[Fetch], l.TimeWidth());
  }

  lemma SameMerge(l: Layout, inst: Inst, s: Stage)
    requires HasTicks(l, inst)
    ensures Dispatch in inst.ticks && Issue in inst.ticks && (Merged(inst, s) <==> LeftToIssue(inst, s))
  {
    assert l.Stages()[3] == Dispatch && l.Stages()[4] == Issue;
  }

  lemma NotDrawn(l: Layout, inst: Inst, s: Stage, i: nat)
    requires l.Valid() && HasTicks(l, inst) && s in l.Stages() && inst.ticks[s] == 0
    ensures Shorthand(s) !in TimelineLine(l, inst, i)
  {
    if Shorthand(s) in TimelineLine(l, inst, i) {
      var p :| 0 <= p < |TimelineLine(l, inst, i)| && TimelineLine(l, inst, i)[p] == Shorthand(s);
      var k := LetterMeansEvent(l, inst, i, s, p);
      DrawnEventsExactly(l, inst, i, DrawnEvents(l, inst, i)[k]);
    }
  }

  /** Stage `s` is to be seen in column `p` of line `i`. */
  ghost predicate Shows(l: Layout, inst: Inst, i: nat, s: Stage, p: int)
    requires Printable(l, inst)
  {
    && IsStage(l, s) && Belongs(l, inst, i, s) && !LeftToIssue(inst, s)
    && p == inst.ticks[s] % (l.width * l.cycleTime) / l.cycleTime
  }

  /**
   On a line of the right width every column shows the letter of its stage, and a dot, or an equals
   sign for an abandoned instruction, where there is none.
   */
  lemma LineInFull(l: Layout, inst: Inst, i: nat, p: nat)
    requires Printable(l, inst) && p < l.width
    ensures l.Valid() && HasTicks(l, inst)
    ensures i < NumLines(l, inst) && |TimelineLine(l, inst, i)| == l.width ==>
              && (forall s, c :: Shows(l, inst, i, s, p) && Letter(s, c) ==> TimelineLine(l, inst, i)[p] == c)
              && ((forall s :: !Shows(l, inst, i, s, p)) ==>
                    TimelineLine(l, inst, i)[p] == if inst.ticks[Retire] == 0 then '=' else '.')
  {
    PrintableExactly(l, inst);
    TimeWidthPositive(l);
    LineLength(l, inst, i);
    assert l.Stages()[6] == Retire;
    if i < NumLines(l, inst) && |TimelineLine(l, inst, i)| == l.width {
      forall s, c | Shows(l, inst, i, s, p) && Letter(s, c)
        ensures TimelineLine(l, inst, i)[p] == c
      {
        ShownLetter(l, inst, i, s, p);
        LetterIsShorthand(s, c);
      }
      if forall s :: !Shows(l, inst, i, s, p) {
        EmptyColumn(l, inst, i, p);
      }
    }
  }

  lemma ShownLetter(l: Layout, inst: Inst, i: nat, s: Stage, p: nat)
    requires Printable(l, inst) && l.Valid() && HasTicks(l, inst) && i < NumLines(l, inst)
    requires p < |TimelineLine(l, inst, i)| == l.width && Shows(l, inst, i, s, p)
    ensures TimelineLine(l, inst, i)[p] == Shorthand(s)
  {
    TimeWidthPositive(l);
    LineLength(l, inst, i);
    StagesExactly(l, s);
    BelongsExactly(l, inst, i, s);
    LetterExactlyAtColumn(l, inst, i, s, p);
  }

  lemma EmptyColumn(l: Layout, inst: Inst, i: nat, p: nat)
    requires Printable(l, inst) && l.Valid() && HasTicks(l, inst) && Retire in inst.ticks && i < NumLines(l, inst)
    requires p < |TimelineLine(l, inst, i)| == l.width && forall s :: !Shows(l, inst, i, s, p)
    ensures TimelineLine(l, inst, i)[p] == if inst.ticks[Retire] == 0 then '=' else '.'
  {
    assert l.Stages()[6] == Retire && l.Stages()[3] == Dispatch && l.Stages()[4] == Issue;
    var events, dot := DrawnEvents(l, inst, i), Dot(inst);
    DrawnEventsAscend(l, inst, i);
    LineLength(l, inst, i);
    if p < |Painted(l, dot, events)| && Painted(l, dot, events)[p] != dot {
      var k := PaintedCells(l, dot, events, p);
      var s := events[k].stage;
      DrawnEventsExactly(l, inst, i, events[k]);
      NoCollisionsBefore(l, inst, i, k);
      StagesExactly(l, s);
      BelongsExactly(l, inst, i, s);
      assert Shows(l, inst, i, s, p);
    }
  }

  /** Two stages that happen in one cycle, or exactly `width` cycles apart, want the same column of line `i`. */
  ghost predicate Collide(l: Layout, inst: Inst, i: nat, s: Stage, t: Stage)
    requires Printable(l, inst)
  {
    && s != t && IsStage(l, s) && IsStage(l, t) && !LeftToIssue(inst, s) && !LeftToIssue(inst, t)
    && Belongs(l, inst, i, s) && Belongs(l, inst, i, t)
    && (inst.ticks[s] / l.cycleTime == inst.ticks[t] / l.cycleTime
        || inst.ticks[s] / l.cycleTime == inst.ticks[t] / l.cycleTime + l.width)
  }

  /** A line has exactly `width` characters if and only if no two stages collide on it. */
  lemma WidthInTicks(l: Layout, inst: Inst, i: nat)
    requires Printable(l, inst)
    ensures l.Valid() && HasTicks(l, inst)
    ensures i < NumLines(l, inst) ==>
              (|TimelineLine(l, inst, i)| == l.width <==> !exists s, t :: Collide(l, inst, i, s, t))
  {
    PrintableExactly(l, inst);
    if i < NumLines(l, inst) {
      WidthExactly(l, inst, i);
      forall s, t
        ensures Clash(l, inst, i, s, t) <==> Collide(l, inst, i, s, t)
      {
        ClashExactly(l, inst, i, s, t);
      }
    }
  }

  lemma ClashExactly(l: Layout, inst: Inst, i: nat, s: Stage, t: Stage)
    requires Printable(l, inst) && l.Valid() && HasTicks(l, inst) && i < NumLines(l, inst)
    ensures Clash(l, inst, i, s, t) <==> Collide(l, inst, i, s, t)
  {
    StagesExactly(l, s);
    StagesExactly(l, t);
    if IsStage(l, s) && IsStage(l, t) {
      SameMerge(l, inst, s);
      SameMerge(l, inst, t);
      BelongsExactly(l, inst, i, s);
      BelongsExactly(l, inst, i, t);
    }
  }

  // ----- Letters that collide -----

  /** The names the script gives its stages. */
  function StageName(s: Stage): string {
    match s
    case Fetch => "fetch"
    case Decode => "decode"
    case Rename => "rename"
    case Dispatch => "dispatch"
    case Issue => "issue"
    case Complete => "complete"
    case Retire => "retire"
    case StoreComplete => "store"
  }

  lemma RankIsAlphabetical(s: Stage, t: Stage)
    requires NameRank(s) <= NameRank(t)
    ensures Precedes(StageName(s), StageName(t))
  {
    var a, b := StageName(s), StageName(t);
    if s == t {
      assert AgreesUpTo(a, b, |a|);
    } else if a[0] != b[0] {
      assert a[..0] == b[..0] && AgreesUpTo(a, b, 0);
    } else if a[1] != b[1] {
      assert a[..1] == b[..1] && AgreesUpTo(a, b, 1);
    } else {
      assert a == "rename" && b == "retire";
      assert a[..2] == b[..2] && AgreesUpTo(a, b, 2);
    }
  }

  /** On every line, letters stand in the order of their places in the line and, at one place, of their names. */
  lemma LettersInOrder(l: Layout, inst: Inst, i: nat, s: Stage, t: Stage, c: char, d: char, p: nat, q: nat)
    requires Printable(l, inst) && IsStage(l, s) && IsStage(l, t) && Letter(s, c) && Letter(t, d) && p < q
    ensures l.Valid() && HasTicks(l, inst)
    ensures q < |TimelineLine(l, inst, i)| && TimelineLine(l, inst, i)[p] == c && TimelineLine(l, inst, i)[q] == d ==>
              var perLine := l.width * l.cycleTime;
              || inst.ticks[s] % perLine < inst.ticks[t] % perLine
              || (inst.ticks[s] % perLine == inst.ticks[t] % perLine && Precedes(StageName(s), StageName(t)))
  {
    PrintableExactly(l, inst);
    LetterIsShorthand(s, c);
    LetterIsShorthand(t, d);
    if q < |TimelineLine(l, inst, i)| && TimelineLine(l, inst, i)[p] == c && TimelineLine(l, inst, i)[q] == d {
      var events := DrawnEvents(l, inst, i);
      var j := LetterMeansEvent(l, inst, i, s, p);
      var k := LetterMeansEvent(l, inst, i, t, q);
      DrawnEventsExactly(l, inst, i, events[j]);
      DrawnEventsExactly(l, inst, i, events[k]);
      EventsInOrder(l, inst, i, j, k);
      if NameRank(s) <= NameRank(t) {
        RankIsAlphabetical(s, t);
      }
    }
  }

  lemma EventsInOrder(l: Layout, inst: Inst, i: nat, j: nat, k: nat)
    requires l.Valid() && HasTicks(l, inst) && j < |DrawnEvents(l, inst, i)| && k < |DrawnEvents(l, inst, i)|
    requires Cell(l, DrawnEvents(l, inst, i), j) < Cell(l, DrawnEvents(l, inst, i), k)
    ensures EventLe(DrawnEvents(l, inst, i)[j], DrawnEvents(l, inst, i)[k])
  {
    assert l.Stages()[3] == Dispatch && l.Stages()[4] == Issue;
    var events := DrawnEvents(l, inst, i);
    EventLeIsTotal();
    SortIsSorted(EventLe, EventsAmong(l, inst, i, l.Stages()));
    DrawnSorted(inst, LineEvents(l, inst, i));
    DrawnEventsAscend(l, inst, i);
    if k < j {
      CellsRise(l, events, k, j);
    }
  }

  lemma {:induction false} CellsRise(l: Layout, events: seq<Event>, j: nat, k: nat)
    requires l.Valid() && ColumnsAscend(l, events) && j <= k < |events|
    ensures Cell(l, events, j) <= Cell(l, events, k)
  {
    if j < k {
      CellsRise(l, events, j, k - 1);
      assert events[..k + 1][..k] == events[..k];
      assert Column(l, events[k - 1]) <= Column(l, events[k]);
    }
  }
}
