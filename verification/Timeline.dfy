/**
 The timeline of one instruction in `util/o3-pipeview.py`: the characters `print_inst`
 writes between the brackets, over one line in compact form or over several lines.
 */
module Timeline {
  import opened Sorting
  import opened ReorderBuffer

  datatype Layout = Layout(width: nat, cycleTime: nat, storeCompletions: bool) {
    predicate Valid() {
      width > 0 && cycleTime > 0
    }

    function TimeWidth(): nat {
      width * cycleTime
    }

    function Stages(): seq<Stage> {
      [Fetch, Decode, Rename, Dispatch, Issue, Complete, Retire] + (if storeCompletions then [StoreComplete] else [])
    }
  }

  function Shorthand(s: Stage): char {
    match s
    case Fetch => 'f'
    case Decode => 'd'
    case Rename => 'n'
    case Dispatch => 'p'
    case Issue => 'i'
    case Complete => 'c'
    case Retire => 'r'
    case StoreComplete => 's'
  }

  /** The place of the stage's name in alphabetical order, by which simultaneous events are sorted. */
  function NameRank(s: Stage): nat {
    match s
    case Complete => 0
    case Decode => 1
    case Dispatch => 2
    case Fetch => 3
    case Issue => 4
    case Rename => 5
    case Retire => 6
    case StoreComplete => 7
  }

  predicate HasTicks(l: Layout, inst: Inst) {
    forall s :: s in l.Stages() ==> s in inst.ticks
  }

  // ----- Which lines there are -----

  function LastOf(inst: Inst, stages: seq<Stage>): nat
    requires forall s :: s in stages ==> s in inst.ticks
  {
    if stages == [] then 0
    else
      var rest, t := LastOf(inst, stages[..|stages| - 1]), inst.ticks[stages[|stages| - 1]];
      if t > rest then t else rest
  }

  function LastEvent(l: Layout, inst: Inst): nat
    requires HasTicks(l, inst)
  {
    LastOf(inst, l.Stages())
  }

  function BaseTick(l: Layout, inst: Inst): nat
    requires l.Valid() && HasTicks(l, inst)
  {
    TimeWidthPositive(l);
    inst.ticks[Fetch] / l.TimeWidth() * l.TimeWidth()
  }

  /** Everything fits in one line's worth of ticks from the fetch on. */
  predicate Compact(l: Layout, inst: Inst)
    requires HasTicks(l, inst)
  {
    LastEvent(l, inst) - inst.ticks[Fetch] < l.TimeWidth()
  }

  function NumLines(l: Layout, inst: Inst): nat
    requires l.Valid() && HasTicks(l, inst)
  {
    TimeWidthPositive(l);
    BaseTickBelow(l, inst);
    if Compact(l, inst) then 1 else (LastEvent(l, inst) - BaseTick(l, inst)) / l.TimeWidth() + 1
  }

  predicate OnLine(l: Layout, inst: Inst, i: nat, s: Stage)
    requires l.Valid() && HasTicks(l, inst) && s in inst.ticks
  {
    var start := BaseTick(l, inst) + i * l.TimeWidth();
    var end := start + l.TimeWidth() + (if NumLines(l, inst) == 1 then inst.ticks[Fetch] - BaseTick(l, inst) else 0);
    inst.ticks[s] != 0 && start <= inst.ticks[s] < end
  }

  lemma TimeWidthPositive(l: Layout)
    requires l.Valid()
    ensures l.TimeWidth() > 0
  {
  }

  lemma DivisionBounds(x: nat, d: nat)
    requires d > 0
    ensures x / d * d <= x < x / d * d + d
  {
  }

  lemma QuotientUnique(x: nat, d: nat, q: nat)
    requires d > 0 && q * d <= x < q * d + d
    ensures x / d == q
  {
    DivisionBounds(x, d);
    var r := x / d;
    if q < r {
      MultiplyMonotone(q + 1, r, d);
    } else if r < q {
      MultiplyMonotone(r + 1, q, d);
    }
  }

  lemma QuotientExactly(x: nat, d: nat, q: nat)
    requires d > 0
    ensures q * d <= x < q * d + d <==> q == x / d
  {
    DivisionBounds(x, d);
    if q * d <= x < q * d + d {
      QuotientUnique(x, d, q);
    }
  }

  lemma MultiplyMonotone(a: nat, b: nat, d: nat)
    requires a <= b
    ensures a * d <= b * d
  {
  }

  lemma BaseTickBelow(l: Layout, inst: Inst)
    requires l.Valid() && HasTicks(l, inst)
    ensures BaseTick(l, inst) <= inst.ticks[Fetch] < BaseTick(l, inst) + l.TimeWidth()
    ensures inst.ticks[Fetch] <= LastEvent(l, inst)
  {
    TimeWidthPositive(l);
    DivisionBounds(inst.ticks[Fetch], l.TimeWidth());
    assert l.Stages()[0] == Fetch;
    LastOfIsUpper(inst, l.Stages(), Fetch);
  }

  lemma {:induction false} LastOfIsUpper(inst: Inst, stages: seq<Stage>, s: Stage)
    requires (forall s :: s in stages ==> s in inst.ticks) && s in stages
    ensures inst.ticks[s] <= LastOf(inst, stages)
  {
    if s != stages[|stages| - 1] {
      LastOfIsUpper(inst, stages[..|stages| - 1], s);
    }
  }

  /** The line a stage belongs on. */
  function LineOf(l: Layout, inst: Inst, s: Stage): nat
    requires l.Valid() && HasTicks(l, inst) && s in inst.ticks && inst.ticks[s] >= inst.ticks[Fetch]
  {
    TimeWidthPositive(l);
    BaseTickBelow(l, inst);
    if NumLines(l, inst) == 1 then 0 else (inst.ticks[s] - BaseTick(l, inst)) / l.TimeWidth()
  }

  /** A stage that happened, at or after the fetch, is on one line and no other. */
  lemma OnExactlyOneLine(l: Layout, inst: Inst, s: Stage, i: nat)
    requires l.Valid() && HasTicks(l, inst) && s in l.Stages()
    requires inst.ticks[s] != 0 && inst.ticks[s] >= inst.ticks[Fetch] && i < NumLines(l, inst)
    ensures LineOf(l, inst, s) < NumLines(l, inst)
    ensures OnLine(l, inst, i, s) <==> i == LineOf(l, inst, s)
  {
    var tw, base, tick := l.TimeWidth(), BaseTick(l, inst), inst.ticks[s];
    TimeWidthPositive(l);
    BaseTickBelow(l, inst);
    LastOfIsUpper(inst, l.Stages(), s);
    if Compact(l, inst) {
      assert i == 0;
    } else {
      SeveralLines(l, inst);
      DivisionMonotone(tick - base, LastEvent(l, inst) - base, tw);
      QuotientExactly(tick - base, tw, i);
    }
  }

  lemma DivisionMonotone(x: nat, y: nat, d: nat)
    requires d > 0 && x <= y
    ensures x / d <= y / d
  {
    DivisionBounds(x, d);
    DivisionBounds(y, d);
    if y / d < x / d {
      MultiplyMonotone(y / d + 1, x / d, d);
    }
  }

  lemma SeveralLines(l: Layout, inst: Inst)
    requires l.Valid() && HasTicks(l, inst) && !Compact(l, inst)
    ensures NumLines(l, inst) >= 2
  {
    TimeWidthPositive(l);
    BaseTickBelow(l, inst);
    DivisionMonotone(l.TimeWidth(), LastEvent(l, inst) - BaseTick(l, inst), l.TimeWidth());
    QuotientUnique(l.TimeWidth(), l.TimeWidth(), 1);
  }

  // ----- The events of a line -----

  datatype Event = Event(offset: nat, stage: Stage)

  predicate EventLe(a: Event, b: Event) {
    a.offset < b.offset || (a.offset == b.offset && NameRank(a.stage) <= NameRank(b.stage))
  }

  function EventsAmong(l: Layout, inst: Inst, i: nat, stages: seq<Stage>): seq<Event>
    requires l.Valid() && HasTicks(l, inst) && forall s :: s in stages ==> s in inst.ticks
  {
    if stages == [] then []
    else
      TimeWidthPositive(l);
      var s := stages[|stages| - 1];
      EventsAmong(l, inst, i, stages[..|stages| - 1])
      + (if OnLine(l, inst, i, s) then [Event(inst.ticks[s] % l.TimeWidth(), s)] else [])
  }

  function LineEvents(l: Layout, inst: Inst, i: nat): seq<Event>
    requires l.Valid() && HasTicks(l, inst)
  {
    Sort(EventLe, EventsAmong(l, inst, i, l.Stages()))
  }

  /** A dispatch in the very tick of the issue is not drawn. */
  predicate Merged(inst: Inst, s: Stage)
    requires Dispatch in inst.ticks && Issue in inst.ticks
  {
    s == Dispatch && inst.ticks[Dispatch] == inst.ticks[Issue]
  }

  function Drawn(inst: Inst, events: seq<Event>): seq<Event>
    requires Dispatch in inst.ticks && Issue in inst.ticks
  {
    if events == [] then []
    else
      var e := events[|events| - 1];
      Drawn(inst, events[..|events| - 1]) + (if Merged(inst, e.stage) then [] else [e])
  }

  lemma {:induction false} EventsAmongExactly(l: Layout, inst: Inst, i: nat, stages: seq<Stage>, e: Event)
    requires l.Valid() && HasTicks(l, inst) && forall s :: s in stages ==> s in inst.ticks
    ensures e in EventsAmong(l, inst, i, stages) <==>
            e.stage in stages && OnLine(l, inst, i, e.stage) && l.TimeWidth() > 0 && e.offset == inst.ticks[e.stage] % l.TimeWidth()
  {
    TimeWidthPositive(l);
    if stages != [] {
      EventsAmongExactly(l, inst, i, stages[..|stages| - 1], e);
      assert stages == stages[..|stages| - 1] + [stages[|stages| - 1]];
    }
  }

  lemma {:induction false} DrawnExactly(inst: Inst, events: seq<Event>, e: Event)
    requires Dispatch in inst.ticks && Issue in inst.ticks
    ensures e in Drawn(inst, events) <==> e in events && !Merged(inst, e.stage)
  {
    if events != [] {
      DrawnExactly(inst, events[..|events| - 1], e);
      assert events == events[..|events| - 1] + [events[|events| - 1]];
    }
  }

  lemma DrawnStep(inst: Inst, events: seq<Event>, k: nat)
    requires Dispatch in inst.ticks && Issue in inst.ticks && k < |events|
    ensures var before := Drawn(inst, events[..k]);
            Drawn(inst, events[..k + 1]) == if Merged(inst, events[k].stage) then before else before + [events[k]]
  {
    assert events[..k + 1][..k] == events[..k];
  }

  lemma {:induction false} DrawnSorted(inst: Inst, events: seq<Event>)
    requires Dispatch in inst.ticks && Issue in inst.ticks && SortedBy(EventLe, events)
    ensures SortedBy(EventLe, Drawn(inst, events))
  {
    if events != [] {
      var front, last := events[..|events| - 1], events[|events| - 1];
      var kept := Drawn(inst, front);
      assert Drawn(inst, events) == if Merged(inst, last.stage) then kept else kept + [last];
      DrawnSorted(inst, front);
      forall e | e in kept
        ensures EventLe(e, last)
      {
        DrawnExactly(inst, front, e);
        var j :| 0 <= j < |front| && front[j] == e;
        assert events[j] == e;
      }
    }
  }

  // ----- The characters of a line -----

  function Dots(dot: char, n: int): (s: string)
    ensures |s| == (if n > 0 then n else 0) && forall p :: 0 <= p < |s| ==> s[p] == dot
  {
    if n <= 0 then [] else Dots(dot, n - 1) + [dot]
  }

  function Column(l: Layout, e: Event): nat
    requires l.Valid()
  {
    e.offset / l.cycleTime
  }

  /** Where the next event would be drawn. */
  function Position(l: Layout, events: seq<Event>): nat
    requires l.Valid()
  {
    if events == [] then 0 else Column(l, events[|events| - 1]) + 1
  }

  function Painted(l: Layout, dot: char, events: seq<Event>): string
    requires l.Valid()
  {
    if events == [] then []
    else
      var front, e := events[..|events| - 1], events[|events| - 1];
      Painted(l, dot, front) + Dots(dot, Column(l, e) - Position(l, front)) + [Shorthand(e.stage)]
  }

  function LineText(l: Layout, dot: char, events: seq<Event>): string
    requires l.Valid()
  {
    Painted(l, dot, events) + Dots(dot, l.width - Position(l, events))
  }

  ghost predicate ColumnsAscend(l: Layout, events: seq<Event>)
    requires l.Valid()
  {
    forall j, k :: 0 <= j < k < |events| ==> Column(l, events[j]) <= Column(l, events[k])
  }

  /** How many events have the column of the event before them. */
  function Collisions(l: Layout, events: seq<Event>): nat
    requires l.Valid()
  {
    if |events| < 2 then 0
    else
      var n := |events| - 1;
      Collisions(l, events[..n]) + (if Column(l, events[n]) == Column(l, events[n - 1]) then 1 else 0)
  }

  /** The cell event `k` is drawn in: each collision so far has pushed it one to the right. */
  function Cell(l: Layout, events: seq<Event>, k: nat): nat
    requires l.Valid() && k < |events|
  {
    Column(l, events[k]) + Collisions(l, events[..k + 1])
  }

  lemma {:induction false} PaintedLength(l: Layout, dot: char, events: seq<Event>)
    requires l.Valid() && ColumnsAscend(l, events)
    ensures |Painted(l, dot, events)| == Position(l, events) + Collisions(l, events)
  {
    if events != [] {
      var n := |events| - 1;
      PaintedLength(l, dot, events[..n]);
      if n > 0 {
        assert Column(l, events[n - 1]) <= Column(l, events[n]);
      }
    }
  }

  /** Event `k` puts letter `c` into cell `p`. */
  ghost predicate Puts(l: Layout, events: seq<Event>, k: nat, p: nat, c: char)
    requires l.Valid()
  {
    k < |events| && p == Cell(l, events, k) && c == Shorthand(events[k].stage)
  }

  lemma PutsInLonger(l: Layout, events: seq<Event>, n: nat, k: nat, p: nat, c: char)
    requires l.Valid() && n <= |events| && Puts(l, events[..n], k, p, c)
    ensures Puts(l, events, k, p, c)
  {
    assert events[..n][..k + 1] == events[..k + 1];
  }

  /** A painted cell holds a dot or the letter of the event that is put there. */
  lemma {:induction false} PaintedCells(l: Layout, dot: char, events: seq<Event>, p: nat) returns (k: nat)
    requires l.Valid() && ColumnsAscend(l, events) && p < |Painted(l, dot, events)|
    requires Painted(l, dot, events)[p] != dot
    ensures Puts(l, events, k, p, Painted(l, dot, events)[p])
  {
    var n := |events| - 1;
    var before, dots := Painted(l, dot, events[..n]), Dots(dot, Column(l, events[n]) - Position(l, events[..n]));
    assert Painted(l, dot, events) == before + dots + [Shorthand(events[n].stage)];
    if p < |before| {
      k := PaintedCells(l, dot, events[..n], p);
      PutsInLonger(l, events, n, k, p, before[p]);
    } else {
      PaintedLength(l, dot, events);
      assert events[..n + 1] == events;
      k := n;
    }
  }

  lemma {:induction false} EventIsPainted(l: Layout, dot: char, events: seq<Event>, k: nat)
    requires l.Valid() && ColumnsAscend(l, events) && k < |events|
    ensures var p := Cell(l, events, k);
            p < |Painted(l, dot, events)| && Painted(l, dot, events)[p] == Shorthand(events[k].stage)
  {
    var n := |events| - 1;
    PaintedLength(l, dot, events);
    if k == n {
      assert events[..n + 1] == events;
    } else {
      EventIsPainted(l, dot, events[..n], k);
      assert events[..n][..k + 1] == events[..k + 1];
    }
  }

  lemma PaintedSnoc(l: Layout, dot: char, events: seq<Event>, e: Event)
    requires l.Valid()
    ensures Painted(l, dot, events + [e]) ==
            Painted(l, dot, events) + Dots(dot, Column(l, e) - Position(l, events)) + [Shorthand(e.stage)]
    ensures Position(l, events + [e]) == Column(l, e) + 1
  {
    assert (events + [e])[..|events|] == events;
  }

  // ----- The timeline -----

  function Dot(inst: Inst): char
    requires Retire in inst.ticks
  {
    if inst.ticks[Retire] == 0 then '=' else '.'
  }

  function DrawnEvents(l: Layout, inst: Inst, i: nat): seq<Event>
    requires l.Valid() && HasTicks(l, inst)
  {
    assert l.Stages()[3] == Dispatch && l.Stages()[4] == Issue;
    Drawn(inst, LineEvents(l, inst, i))
  }

  function TimelineLine(l: Layout, inst: Inst, i: nat): string
    requires l.Valid() && HasTicks(l, inst)
  {
    assert l.Stages()[6] == Retire;
    LineText(l, Dot(inst), DrawnEvents(l, inst, i))
  }

  lemma EventLeIsTotal()
    ensures TotalPreorder(EventLe)
  {
  }

  /** What is drawn on a line: the stages of that line that are not merged, in order of column. */
  lemma DrawnEventsExactly(l: Layout, inst: Inst, i: nat, e: Event)
    requires l.Valid() && HasTicks(l, inst)
    ensures e in DrawnEvents(l, inst, i) <==>
            && e.stage in l.Stages() && OnLine(l, inst, i, e.stage) && !Merged(inst, e.stage)
            && l.TimeWidth() > 0 && e.offset == inst.ticks[e.stage] % l.TimeWidth()
  {
    assert l.Stages()[3] == Dispatch && l.Stages()[4] == Issue;
    var among := EventsAmong(l, inst, i, l.Stages());
    EventsAmongExactly(l, inst, i, l.Stages(), e);
    SortKeepsElements(EventLe, among);
    assert e in multiset(among) <==> e in multiset(Sort(EventLe, among));
    DrawnExactly(inst, LineEvents(l, inst, i), e);
  }

  lemma DrawnEventsAscend(l: Layout, inst: Inst, i: nat)
    requires l.Valid() && HasTicks(l, inst)
    ensures ColumnsAscend(l, DrawnEvents(l, inst, i))
    ensures forall e :: e in DrawnEvents(l, inst, i) ==> Column(l, e) < l.width
  {
    assert l.Stages()[3] == Dispatch && l.Stages()[4] == Issue;
    var events := DrawnEvents(l, inst, i);
    EventLeIsTotal();
    SortIsSorted(EventLe, EventsAmong(l, inst, i, l.Stages()));
    DrawnSorted(inst, LineEvents(l, inst, i));
    forall j, k | 0 <= j < k < |events|
      ensures Column(l, events[j]) <= Column(l, events[k])
    {
      assert EventLe(events[j], events[k]);
      DivisionMonotone(events[j].offset, events[k].offset, l.cycleTime);
    }
    forall e | e in events
      ensures Column(l, e) < l.width
    {
      DrawnEventsExactly(l, inst, i, e);
      ColumnInside(l, e.offset);
    }
  }

  lemma ColumnInside(l: Layout, offset: nat)
    requires l.Valid() && offset < l.TimeWidth()
    ensures offset / l.cycleTime < l.width
  {
    DivisionBounds(offset, l.cycleTime);
    if l.width <= offset / l.cycleTime {
      MultiplyMonotone(l.width, offset / l.cycleTime, l.cycleTime);
    }
  }

  ghost predicate DistinctColumns(l: Layout, events: seq<Event>)
    requires l.Valid()
  {
    forall j, k :: 0 <= j < k < |events| ==> Column(l, events[j]) != Column(l, events[k])
  }

  lemma {:induction false} NoCollisionExactly(l: Layout, events: seq<Event>)
    requires l.Valid() && ColumnsAscend(l, events)
    ensures Collisions(l, events) == 0 <==> DistinctColumns(l, events)
  {
    if |events| >= 2 {
      var n := |events| - 1;
      NoCollisionExactly(l, events[..n]);
      if DistinctColumns(l, events) {
        assert Column(l, events[n - 1]) != Column(l, events[n]);
      }
      if Collisions(l, events) == 0 {
        forall j, k | 0 <= j < k < |events|
          ensures Column(l, events[j]) != Column(l, events[k])
        {
          if k < n {
            assert events[..n][j] == events[j] && events[..n][k] == events[k];
          } else {
            assert Column(l, events[j]) <= Column(l, events[n - 1]) < Column(l, events[n]);
          }
        }
      }
    }
  }

  /** A line is as long as the width, plus one for each collision; so exactly `width` without any. */
  lemma LineLength(l: Layout, inst: Inst, i: nat)
    requires l.Valid() && HasTicks(l, inst)
    ensures |TimelineLine(l, inst, i)| == l.width + Collisions(l, DrawnEvents(l, inst, i))
    ensures |TimelineLine(l, inst, i)| == l.width <==> DistinctColumns(l, DrawnEvents(l, inst, i))
  {
    assert l.Stages()[6] == Retire;
    var events := DrawnEvents(l, inst, i);
    DrawnEventsAscend(l, inst, i);
    PaintedLength(l, Dot(inst), events);
    NoCollisionExactly(l, events);
    assert events != [] ==> events[|events| - 1] in events;
  }

  lemma ShorthandInjective(s: Stage, t: Stage)
    ensures Shorthand(s) == Shorthand(t) ==> s == t
    ensures Shorthand(s) != '.' && Shorthand(s) != '='
  {
  }

  /** A stage's letter stands in a cell of the line only if its event is drawn there. */
  lemma LetterMeansEvent(l: Layout, inst: Inst, i: nat, s: Stage, p: nat) returns (k: nat)
    requires l.Valid() && HasTicks(l, inst) && p < |TimelineLine(l, inst, i)|
    requires TimelineLine(l, inst, i)[p] == Shorthand(s)
    ensures k < |DrawnEvents(l, inst, i)| && DrawnEvents(l, inst, i)[k].stage == s && p == Cell(l, DrawnEvents(l, inst, i), k)
  {
    assert l.Stages()[6] == Retire;
    var events, dot := DrawnEvents(l, inst, i), Dot(inst);
    DrawnEventsAscend(l, inst, i);
    ShorthandInjective(s, s);
    assert p < |Painted(l, dot, events)|;
    k := PaintedCells(l, dot, events, p);
    ShorthandInjective(s, events[k].stage);
  }

  lemma EventMeansLetter(l: Layout, inst: Inst, i: nat, k: nat)
    requires l.Valid() && HasTicks(l, inst) && k < |DrawnEvents(l, inst, i)|
    ensures var p := Cell(l, DrawnEvents(l, inst, i), k);
            p < |TimelineLine(l, inst, i)| && TimelineLine(l, inst, i)[p] == Shorthand(DrawnEvents(l, inst, i)[k].stage)
  {
    assert l.Stages()[6] == Retire;
    DrawnEventsAscend(l, inst, i);
    EventIsPainted(l, Dot(inst), DrawnEvents(l, inst, i), k);
  }

  /** Where no two drawn stages share a column, each stage's letter is in its own column and nowhere else. */
  lemma LetterExactlyAtColumn(l: Layout, inst: Inst, i: nat, s: Stage, p: nat)
    requires l.Valid() && HasTicks(l, inst) && s in l.Stages() && p < |TimelineLine(l, inst, i)|
    requires DistinctColumns(l, DrawnEvents(l, inst, i)) && l.TimeWidth() > 0
    ensures TimelineLine(l, inst, i)[p] == Shorthand(s) <==>
            OnLine(l, inst, i, s) && !Merged(inst, s) && p == inst.ticks[s] % l.TimeWidth() / l.cycleTime
  {
    var events := DrawnEvents(l, inst, i);
    if TimelineLine(l, inst, i)[p] == Shorthand(s) {
      var k := LetterMeansEvent(l, inst, i, s, p);
      DrawnEventsExactly(l, inst, i, events[k]);
      NoCollisionsBefore(l, inst, i, k);
    }
    if OnLine(l, inst, i, s) && !Merged(inst, s) && p == inst.ticks[s] % l.TimeWidth() / l.cycleTime {
      var e := Event(inst.ticks[s] % l.TimeWidth(), s);
      DrawnEventsExactly(l, inst, i, e);
      var k :| 0 <= k < |events| && events[k] == e;
      EventMeansLetter(l, inst, i, k);
      NoCollisionsBefore(l, inst, i, k);
    }
  }

  lemma NoCollisionsBefore(l: Layout, inst: Inst, i: nat, k: nat)
    requires l.Valid() && HasTicks(l, inst) && k < |DrawnEvents(l, inst, i)|
    requires DistinctColumns(l, DrawnEvents(l, inst, i))
    ensures Cell(l, DrawnEvents(l, inst, i), k) == Column(l, DrawnEvents(l, inst, i)[k])
  {
    DrawnEventsAscend(l, inst, i);
    var part := DrawnEvents(l, inst, i)[..k + 1];
    NoCollisionExactly(l, part);
  }

  /**
   Every stage that happened is drawn on exactly one line, whether or not letters collide,
   except a dispatch merged into its issue, which is drawn on none.
   */
  lemma DrawnOnExactlyOneLine(l: Layout, inst: Inst, s: Stage, i: nat)
    requires l.Valid() && HasTicks(l, inst) && s in l.Stages() && i < NumLines(l, inst)
    requires inst.ticks[s] != 0 && inst.ticks[s] >= inst.ticks[Fetch]
    ensures Shorthand(s) in TimelineLine(l, inst, i) <==> i == LineOf(l, inst, s) && !Merged(inst, s)
  {
    TimeWidthPositive(l);
    OnExactlyOneLine(l, inst, s, i);
    var events := DrawnEvents(l, inst, i);
    if Shorthand(s) in TimelineLine(l, inst, i) {
      var p :| 0 <= p < |TimelineLine(l, inst, i)| && TimelineLine(l, inst, i)[p] == Shorthand(s);
      var k := LetterMeansEvent(l, inst, i, s, p);
      DrawnEventsExactly(l, inst, i, events[k]);
    }
    if i == LineOf(l, inst, s) && !Merged(inst, s) {
      var e := Event(inst.ticks[s] % l.TimeWidth(), s);
      DrawnEventsExactly(l, inst, i, e);
      var k :| 0 <= k < |events| && events[k] == e;
      EventMeansLetter(l, inst, i, k);
    }
  }

  // ----- When two stages share a column -----

  function Cycle(l: Layout, tick: nat): nat
    requires l.Valid()
  {
    tick / l.cycleTime
  }

  /** The cycles of a tick: whole lines of `width` cycles, then the column. */
  lemma CycleSplit(l: Layout, tick: nat)
    requires l.Valid() && l.TimeWidth() > 0
    ensures Cycle(l, tick) == tick / l.TimeWidth() * l.width + tick % l.TimeWidth() / l.cycleTime
    ensures 0 <= tick % l.TimeWidth() / l.cycleTime < l.width
  {
    var c, q, r := l.cycleTime, tick / l.TimeWidth(), tick % l.TimeWidth();
    ColumnInside(l, r);
    DivisionBounds(r, c);
    ScaledSum(q, l.width, c, r / c);
    QuotientUnique(tick, c, q * l.width + r / c);
  }

  lemma ScaledSum(q: nat, w: nat, c: nat, k: nat)
    ensures (q * w + k) * c == q * (w * c) + k * c
  {
  }

  lemma LineQuotients(l: Layout, inst: Inst, i: nat, s: Stage)
    requires l.Valid() && HasTicks(l, inst) && s in l.Stages() && l.TimeWidth() > 0
    requires OnLine(l, inst, i, s) && i < NumLines(l, inst)
    ensures var q := inst.ticks[Fetch] / l.TimeWidth() + i;
            q <= inst.ticks[s] / l.TimeWidth() <= q + 1
    ensures !Compact(l, inst) ==> inst.ticks[s] / l.TimeWidth() == inst.ticks[Fetch] / l.TimeWidth() + i
  {
    var tw, m, tick := l.TimeWidth(), inst.ticks[Fetch] / l.TimeWidth(), inst.ticks[s];
    BaseTickBelow(l, inst);
    assert BaseTick(l, inst) + i * tw == (m + i) * tw;
    if !Compact(l, inst) {
      SeveralLines(l, inst);
    }
    if tick < (m + i) * tw + tw {
      QuotientUnique(tick, tw, m + i);
    } else {
      assert (m + i + 1) * tw == (m + i) * tw + tw;
      QuotientUnique(tick, tw, m + i + 1);
    }
  }

  /** On one line, two stages share a column when they share a cycle or are `width` cycles apart. */
  lemma SharedColumnExactly(l: Layout, inst: Inst, i: nat, s: Stage, t: Stage)
    requires l.Valid() && HasTicks(l, inst) && s in l.Stages() && t in l.Stages()
    ensures i < NumLines(l, inst) && OnLine(l, inst, i, s) && OnLine(l, inst, i, t) ==>
              var a, b := Cycle(l, inst.ticks[s]), Cycle(l, inst.ticks[t]);
              ColumnOf(l, inst.ticks[s]) == ColumnOf(l, inst.ticks[t]) <==> a == b || a == b + l.width || b == a + l.width
  {
    if i < NumLines(l, inst) && OnLine(l, inst, i, s) && OnLine(l, inst, i, t) {
      TimeWidthPositive(l);
      LineQuotients(l, inst, i, s);
      LineQuotients(l, inst, i, t);
      SharedColumnTicks(l, inst.ticks[Fetch] / l.TimeWidth() + i, inst.ticks[s], inst.ticks[t]);
    }
  }

  /** The column of a tick in its line. */
  function ColumnOf(l: Layout, tick: nat): nat
    requires l.Valid()
  {
    TimeWidthPositive(l);
    tick % l.TimeWidth() / l.cycleTime
  }

  lemma SharedColumnTicks(l: Layout, m: nat, x: nat, y: nat)
    requires l.Valid() && l.TimeWidth() > 0
    requires m <= x / l.TimeWidth() <= m + 1 && m <= y / l.TimeWidth() <= m + 1
    ensures x % l.TimeWidth() / l.cycleTime == y % l.TimeWidth() / l.cycleTime
            <==> Cycle(l, x) == Cycle(l, y) || Cycle(l, x) == Cycle(l, y) + l.width || Cycle(l, y) == Cycle(l, x) + l.width
  {
    CycleSplit(l, x);
    CycleSplit(l, y);
    OneLineApart(l.width, m, x / l.TimeWidth(), x % l.TimeWidth() / l.cycleTime,
                 y / l.TimeWidth(), y % l.TimeWidth() / l.cycleTime, Cycle(l, x), Cycle(l, y));
  }

  lemma OneLineApart(w: int, m: int, p: int, c: int, q: int, d: int, a: int, b: int)
    requires 0 <= c < w && 0 <= d < w && m <= p <= m + 1 && m <= q <= m + 1 && a == p * w + c && b == q * w + d
    ensures c == d <==> a == b || a == b + w || b == a + w
  {
    LineStarts(w, m, p);
    LineStarts(w, m, q);
    ColumnsApart(w, m * w, p * w, c, q * w, d);
  }

  lemma LineStarts(w: int, m: int, q: int)
    requires m <= q <= m + 1
    ensures q * w == m * w || q * w == m * w + w
  {
    if q == m + 1 {
      assert q * w == (m + 1) * w == m * w + w;
    }
  }

  lemma ColumnsApart(w: int, base: int, x: int, c: int, y: int, d: int)
    requires 0 <= c < w && 0 <= d < w && (x == base || x == base + w) && (y == base || y == base + w)
    ensures c == d <==> x + c == y + d || x + c == y + d + w || y + d == x + c + w
  {
  }

  ghost predicate DistinctStages(events: seq<Event>) {
    forall j, k :: 0 <= j < k < |events| ==> events[j].stage != events[k].stage
  }

  lemma {:induction false} EventsAmongDistinct(l: Layout, inst: Inst, i: nat, stages: seq<Stage>)
    requires l.Valid() && HasTicks(l, inst) && forall s :: s in stages ==> s in inst.ticks
    requires forall j, k :: 0 <= j < k < |stages| ==> stages[j] != stages[k]
    ensures DistinctStages(EventsAmong(l, inst, i, stages))
  {
    if stages != [] {
      var front, s := stages[..|stages| - 1], stages[|stages| - 1];
      EventsAmongDistinct(l, inst, i, front);
      forall e | e in EventsAmong(l, inst, i, front)
        ensures e.stage != s
      {
        EventsAmongExactly(l, inst, i, front, e);
      }
    }
  }

  lemma {:induction false} DrawnDistinct(inst: Inst, events: seq<Event>)
    requires Dispatch in inst.ticks && Issue in inst.ticks
    requires forall j, k :: 0 <= j < k < |events| ==> events[j] != events[k]
    ensures forall j, k :: 0 <= j < k < |Drawn(inst, events)| ==> Drawn(inst, events)[j] != Drawn(inst, events)[k]
  {
    if events != [] {
      var front, last := events[..|events| - 1], events[|events| - 1];
      DrawnDistinct(inst, front);
      DrawnExactly(inst, front, last);
      assert last !in front;
    }
  }

  lemma LineEventsDistinct(l: Layout, inst: Inst, i: nat)
    requires l.Valid() && HasTicks(l, inst)
    ensures forall j, k :: 0 <= j < k < |LineEvents(l, inst, i)| ==> LineEvents(l, inst, i)[j] != LineEvents(l, inst, i)[k]
  {
    var among := EventsAmong(l, inst, i, l.Stages());
    EventsAmongDistinct(l, inst, i, l.Stages());
    SortKeepsElements(EventLe, among);
    RearrangedDistinct(among, Sort(EventLe, among));
  }

  lemma DrawnEventsDistinct(l: Layout, inst: Inst, i: nat)
    requires l.Valid() && HasTicks(l, inst)
    ensures DistinctStages(DrawnEvents(l, inst, i))
  {
    assert l.Stages()[3] == Dispatch && l.Stages()[4] == Issue;
    var events := DrawnEvents(l, inst, i);
    LineEventsDistinct(l, inst, i);
    DrawnDistinct(inst, LineEvents(l, inst, i));
    forall j, k | 0 <= j < k < |events|
      ensures events[j].stage != events[k].stage
    {
      DrawnEventsDiffer(l, inst, i, events[j], events[k]);
    }
  }

  lemma DrawnEventsDiffer(l: Layout, inst: Inst, i: nat, e: Event, f: Event)
    requires l.Valid() && HasTicks(l, inst) && e in DrawnEvents(l, inst, i) && f in DrawnEvents(l, inst, i) && e != f
    ensures e.stage != f.stage
  {
    DrawnEventsExactly(l, inst, i, e);
    DrawnEventsExactly(l, inst, i, f);
  }

  /** Two different stages drawn on line `i` in one cycle, or in cycles exactly `width` apart. */
  ghost predicate Clash(l: Layout, inst: Inst, i: nat, s: Stage, t: Stage)
    requires l.Valid() && HasTicks(l, inst)
  {
    && s in l.Stages() && t in l.Stages() && s != t
    && OnLine(l, inst, i, s) && OnLine(l, inst, i, t) && !Merged(inst, s) && !Merged(inst, t)
    && var a, b := Cycle(l, inst.ticks[s]), Cycle(l, inst.ticks[t]); a == b || a == b + l.width
  }

  /** A line has exactly `width` characters if and only if no two of its stages clash. */
  lemma WidthExactly(l: Layout, inst: Inst, i: nat)
    requires l.Valid() && HasTicks(l, inst) && i < NumLines(l, inst)
    ensures |TimelineLine(l, inst, i)| == l.width <==> !exists s, t :: Clash(l, inst, i, s, t)
  {
    TimeWidthPositive(l);
    LineLength(l, inst, i);
    DrawnEventsDistinct(l, inst, i);
    var events := DrawnEvents(l, inst, i);
    if s, t :| Clash(l, inst, i, s, t) {
      var e, f := Event(inst.ticks[s] % l.TimeWidth(), s), Event(inst.ticks[t] % l.TimeWidth(), t);
      DrawnEventsExactly(l, inst, i, e);
      DrawnEventsExactly(l, inst, i, f);
      SharedColumnExactly(l, inst, i, s, t);
      SameColumnTwice(l, events, e, f);
    }
    if !DistinctColumns(l, events) {
      var j, k :| 0 <= j < k < |events| && Column(l, events[j]) == Column(l, events[k]);
      assert events[j] in events && events[k] in events;
      DrawnEventsExactly(l, inst, i, events[j]);
      DrawnEventsExactly(l, inst, i, events[k]);
      SharedColumnExactly(l, inst, i, events[j].stage, events[k].stage);
      assert Clash(l, inst, i, events[j].stage, events[k].stage) || Clash(l, inst, i, events[k].stage, events[j].stage);
    }
  }

  lemma SameColumnTwice(l: Layout, events: seq<Event>, e: Event, f: Event)
    requires l.Valid() && e in events && f in events && e != f && Column(l, e) == Column(l, f)
    ensures !DistinctColumns(l, events)
  {
    var j :| 0 <= j < |events| && events[j] == e;
    var k :| 0 <= k < |events| && events[k] == f;
    assert if j < k then Column(l, events[j]) == Column(l, events[k]) else Column(l, events[k]) == Column(l, events[j]);
  }

  /**
   Stages in different cycles do not suffice: in compact form, a fetch at tick 5 and a retire
   at tick 24 with lines of 2 cycles of 10 ticks are in cycles 0 and 2 but both in column 0.
   */
  lemma WrappedStagesClash()
    ensures var l := Layout(2, 10, false);
            var inst := Inst(1, map[Fetch := 5, Decode := 0, Rename := 0, Dispatch := 0, Issue := 0, Complete := 0, Retire := 24]);
            && HasTicks(l, inst) && NumLines(l, inst) == 1
            && Cycle(l, inst.ticks[Fetch]) != Cycle(l, inst.ticks[Retire])
            && |TimelineLine(l, inst, 0)| != l.width
  {
    var l := Layout(2, 10, false);
    var inst := Inst(1, map[Fetch := 5, Decode := 0, Rename := 0, Dispatch := 0, Issue := 0, Complete := 0, Retire := 24]);
    assert l.Stages() == [Fetch, Decode, Rename, Dispatch, Issue, Complete, Retire];
    LastOfIsUpper(inst, l.Stages(), Retire);
    LastOfBound(inst, l.Stages(), 24);
    assert BaseTick(l, inst) == 0;
    assert Fetch in l.Stages() && Retire in l.Stages();
    assert Clash(l, inst, 0, Retire, Fetch);
    WidthExactly(l, inst, 0);
  }

  lemma {:induction false} LastOfBound(inst: Inst, stages: seq<Stage>, bound: nat)
    requires forall s :: s in stages ==> s in inst.ticks && inst.ticks[s] <= bound
    ensures LastOf(inst, stages) <= bound
  {
    if stages != [] {
      LastOfBound(inst, stages[..|stages| - 1], bound);
    }
  }

  // ----- The printing loop -----

  datatype PrintResult = Lines(lines: seq<string>) | KeyError | ZeroDivisionError | IndexError

  /** The events of one line, gathered stage by stage and then sorted. */
  method GatherEvents(l: Layout, inst: Inst, i: nat, baseTick: nat, numLines: nat) returns (events: seq<Event>)
    requires l.Valid() && HasTicks(l, inst) && baseTick == BaseTick(l, inst) && numLines == NumLines(l, inst)
    ensures events == LineEvents(l, inst, i)
  {
    TimeWidthPositive(l);
    events := [];
    var stages := l.Stages();
    var timeWidth := l.width * l.cycleTime;
    var startTick := baseTick + i * timeWidth;
    var endTick := startTick + timeWidth;
    if numLines == 1 {
      endTick := endTick + (inst.ticks[Fetch] - baseTick);
    }
    for k := 0 to |stages|
      invariant events == EventsAmong(l, inst, i, stages[..k])
    {
      assert stages[..k + 1][..k] == stages[..k];
      var tick := inst.ticks[stages[k]];
      if tick != 0 && tick >= startTick && tick < endTick {
        events := events + [Event(tick % timeWidth, stages[k])];
      }
    }
    assert stages[..|stages|] == stages;
    events := Sort(EventLe, events);
  }

  method DrawLine(l: Layout, inst: Inst, i: nat, events: seq<Event>) returns (text: string)
    requires l.Valid() && HasTicks(l, inst) && events == LineEvents(l, inst, i)
    ensures text == TimelineLine(l, inst, i)
  {
    assert l.Stages()[3] == Dispatch && l.Stages()[4] == Issue && l.Stages()[6] == Retire;
    text := DrawEvents(l, inst, if inst.ticks[Retire] == 0 then '=' else '.', events);
  }

  method DrawEvents(l: Layout, inst: Inst, dot: char, events: seq<Event>) returns (text: string)
    requires l.Valid() && Dispatch in inst.ticks && Issue in inst.ticks
    ensures text == LineText(l, dot, Drawn(inst, events))
  {
    var pos := 0;
    text := [];
    for k := 0 to |events|
      invariant text == Painted(l, dot, Drawn(inst, events[..k])) && pos == Position(l, Drawn(inst, events[..k]))
    {
      var e := events[k];
      DrawnStep(inst, events, k);
      if e.stage == Dispatch && inst.ticks[Dispatch] == inst.ticks[Issue] {
        continue;
      }
      PaintedSnoc(l, dot, Drawn(inst, events[..k]), e);
      text := text + Dots(dot, e.offset / l.cycleTime - pos) + [Shorthand(e.stage)];
      pos := e.offset / l.cycleTime + 1;
    }
    assert events[..|events|] == events;
    text := text + Dots(dot, l.width - pos);
  }

  ghost predicate NoTicks(l: Layout, inst: Inst) {
    forall s :: s in l.Stages() ==> s in inst.ticks && inst.ticks[s] == 0
  }

  ghost predicate IsTimeline(l: Layout, inst: Inst, lines: seq<string>) {
    && l.Valid() && HasTicks(l, inst) && |lines| == NumLines(l, inst)
    && forall i :: 0 <= i < |lines| ==> lines[i] == TimelineLine(l, inst, i)
  }

  /**
   The fetch tick is looked up first and divided by the width of a line in ticks; then the other
   stages are looked up. After that printing fails only for an instruction without any tick.
   */
  method PrintInst(l: Layout, inst: Inst) returns (r: PrintResult)
    ensures r.KeyError? <==> Fetch !in inst.ticks || (l.Valid() && !HasTicks(l, inst))
    ensures r.ZeroDivisionError? <==> Fetch in inst.ticks && !l.Valid()
    ensures r.IndexError? <==> l.Valid() && NoTicks(l, inst)
    ensures r.Lines? ==> IsTimeline(l, inst, r.lines)
  {
    assert l.Stages()[0] == Fetch;
    if Fetch !in inst.ticks {
      return KeyError;
    }
    if l.TimeWidth() == 0 {
      ZeroTimeWidth(l);
      return ZeroDivisionError;
    }
    if !HasTicks(l, inst) {
      return KeyError;
    }
    r := DrawTimeline(l, inst);
  }

  lemma ZeroTimeWidth(l: Layout)
    requires l.TimeWidth() == 0
    ensures !l.Valid()
  {
    if l.Valid() {
      TimeWidthPositive(l);
    }
  }

  method DrawTimeline(l: Layout, inst: Inst) returns (r: PrintResult)
    requires l.Valid() && HasTicks(l, inst)
    ensures r.IndexError? || r.Lines?
    ensures r.IndexError? <==> NoTicks(l, inst)
    ensures r.Lines? ==> IsTimeline(l, inst, r.lines)
  {
    NothingToDraw(l, inst);
    var lines: seq<string> := [];
    var baseTick, numLines := CountLines(l, inst);
    for i := 0 to numLines
      invariant DrawnSoFar(l, inst, lines, i)
      invariant i > 0 ==> !NoTicks(l, inst)
    {
      var events := GatherEvents(l, inst, i, baseTick, numLines);
      if numLines == 1 && events == [] {
        return IndexError;
      }
      var text := DrawLine(l, inst, i, events);
      lines := lines + [text];
    }
    return Lines(lines);
  }

  /** The first tick of the first line, and the number of lines. */
  method CountLines(l: Layout, inst: Inst) returns (baseTick: nat, numLines: nat)
    requires l.Valid() && HasTicks(l, inst)
    ensures baseTick == BaseTick(l, inst) && numLines == NumLines(l, inst)
  {
    TimeWidthPositive(l);
    BaseTickBelow(l, inst);
    var timeWidth := l.width * l.cycleTime;
    var fetch := inst.ticks[Fetch];
    baseTick := fetch / timeWidth * timeWidth;
    var lastEventTime := LastTick(inst, l.Stages());
    if lastEventTime - fetch < timeWidth {
      numLines := 1;
    } else {
      numLines := (lastEventTime - baseTick) / timeWidth + 1;
    }
  }

  method LastTick(inst: Inst, stages: seq<Stage>) returns (last: nat)
    requires forall s :: s in stages ==> s in inst.ticks
    ensures last == LastOf(inst, stages)
  {
    last := 0;
    for k := 0 to |stages|
      invariant last == LastOf(inst, stages[..k])
    {
      assert stages[..k + 1][..k] == stages[..k];
      if inst.ticks[stages[k]] > last {
        last := inst.ticks[stages[k]];
      }
    }
    assert stages[..|stages|] == stages;
  }

  ghost predicate DrawnSoFar(l: Layout, inst: Inst, lines: seq<string>, i: nat)
    requires l.Valid() && HasTicks(l, inst)
  {
    |lines| == i && forall j :: 0 <= j < i ==> lines[j] == TimelineLine(l, inst, j)
  }

  /** There is a line and, if it is the only one, it has an event, unless all ticks are zero. */
  lemma NothingToDraw(l: Layout, inst: Inst)
    requires l.Valid() && HasTicks(l, inst)
    ensures NoTicks(l, inst) <==> NumLines(l, inst) == 1 && LineEvents(l, inst, 0) == []
    ensures NumLines(l, inst) >= 1
  {
    FirstLineEvents(l, inst);
    ManyLinesHaveTicks(l, inst);
    if !Compact(l, inst) {
      SeveralLines(l, inst);
    }
  }

  lemma FirstLineEvents(l: Layout, inst: Inst)
    requires l.Valid() && HasTicks(l, inst)
    ensures NumLines(l, inst) == 1 ==> (LineEvents(l, inst, 0) == [] <==> forall s :: s in l.Stages() ==> inst.ticks[s] == 0)
  {
    TimeWidthPositive(l);
    var among := EventsAmong(l, inst, 0, l.Stages());
    SortKeepsElements(EventLe, among);
    if NumLines(l, inst) == 1 {
      if !Compact(l, inst) {
        SeveralLines(l, inst);
      }
      if among == [] {
        FetchOnFirstLine(l, inst);
        forall s | s in l.Stages()
          ensures inst.ticks[s] == 0
        {
          EventsAmongExactly(l, inst, 0, l.Stages(), Event(inst.ticks[s] % l.TimeWidth(), s));
          BaseTickBelow(l, inst);
          LastOfIsUpper(inst, l.Stages(), s);
        }
      } else {
        EventsAmongExactly(l, inst, 0, l.Stages(), among[0]);
      }
    }
  }

  lemma FetchOnFirstLine(l: Layout, inst: Inst)
    requires l.Valid() && HasTicks(l, inst) && l.TimeWidth() > 0
    requires EventsAmong(l, inst, 0, l.Stages()) == []
    ensures inst.ticks[Fetch] == 0
  {
    assert l.Stages()[0] == Fetch;
    BaseTickBelow(l, inst);
    EventsAmongExactly(l, inst, 0, l.Stages(), Event(inst.ticks[Fetch] % l.TimeWidth(), Fetch));
  }

  lemma ManyLinesHaveTicks(l: Layout, inst: Inst)
    requires l.Valid() && HasTicks(l, inst)
    ensures NumLines(l, inst) != 1 ==> exists s :: s in l.Stages() && inst.ticks[s] != 0
  {
    if forall s :: s in l.Stages() ==> inst.ticks[s] == 0 {
      LastOfBound(inst, l.Stages(), 0);
      TimeWidthPositive(l);
    }
  }
}
