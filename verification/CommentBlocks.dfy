/**
 `find_copyright_block` of `util/find_copyrights.py`: the blocks of comment lines at the
 head of a file. Lines are given by what the scanner's regular expressions say of them.
 */
module CommentBlocks {
  import opened Wrappers

  /** A block of lines, both ends included. */
  datatype Block = Block(first: nat, last: nat)

  ghost predicate Ascending(blocks: seq<Block>) {
    forall j, k :: 0 <= j < k < |blocks| ==> blocks[j].last < blocks[k].first
  }

  // ----- Line comments: shell-like languages and lisp -----

  /** `skip` is the test made on the first line only: an interpreter or editor mode line. */
  datatype Line = Line(skip: bool, comment: bool, blank: bool)

  predicate Skipped(lines: seq<Line>, i: nat)
    requires i < |lines|
  {
    i == 0 && lines[i].skip
  }

  predicate Comment(lines: seq<Line>, i: int) {
    0 <= i < |lines| && !Skipped(lines, i) && lines[i].comment
  }

  /** A line of code that is not directly behind a comment. */
  predicate Stops(lines: seq<Line>, i: nat)
    requires i < |lines|
  {
    !Skipped(lines, i) && !lines[i].comment && !lines[i].blank && !Comment(lines, i - 1)
  }

  /** The first line, from `i` on, that stops the scan. */
  function StopFrom(lines: seq<Line>, i: nat): (stop: nat)
    requires i <= |lines|
    ensures i <= stop <= |lines| && (stop < |lines| ==> Stops(lines, stop))
    ensures forall j :: i <= j < stop ==> !Stops(lines, j)
    decreases |lines| - i
  {
    if i == |lines| || Stops(lines, i) then i else StopFrom(lines, i + 1)
  }

  ghost predicate MaximalRun(lines: seq<Line>, b: Block) {
    && b.first <= b.last < |lines|
    && (forall i :: b.first <= i <= b.last ==> Comment(lines, i))
    && !Comment(lines, b.first - 1) && !Comment(lines, b.last + 1)
  }

  /** The runs that end before line `i - 1`: those that a line before `i` has closed. */
  ghost predicate ClosedRuns(lines: seq<Line>, blocks: seq<Block>, i: nat) {
    && Ascending(blocks)
    && (forall b :: b in blocks <==> MaximalRun(lines, b) && b.last + 1 < i)
  }

  /** The run that reaches up to line `i`, if line `i - 1` is a comment. */
  ghost predicate OpenRun(lines: seq<Line>, start: Option<nat>, i: nat)
    requires i <= |lines|
  {
    match start
    case None => !Comment(lines, i - 1)
    case Some(s) => s < i && !Comment(lines, s - 1) && forall j :: s <= j < i ==> Comment(lines, j)
  }

  lemma CloseRun(lines: seq<Line>, blocks: seq<Block>, s: nat, i: nat)
    requires i < |lines| && !Comment(lines, i) && OpenRun(lines, Some(s), i) && ClosedRuns(lines, blocks, i)
    ensures ClosedRuns(lines, blocks + [Block(s, i - 1)], i + 1)
  {
    var b := Block(s, i - 1);
    assert MaximalRun(lines, b);
    forall c | c in blocks
      ensures c.last < s
    {
      assert MaximalRun(lines, c);
    }
    forall c | MaximalRun(lines, c) && c.last + 1 == i
      ensures c == b
    {
    }
  }

  lemma KeepRuns(lines: seq<Line>, blocks: seq<Block>, i: nat)
    requires i < |lines| && ClosedRuns(lines, blocks, i) && (Comment(lines, i) || !Comment(lines, i - 1))
    ensures ClosedRuns(lines, blocks, i + 1)
  {
    forall c | MaximalRun(lines, c)
      ensures c.last + 1 != i
    {
    }
  }

  /**
   The blocks are exactly the maximal runs of comment lines that another line closes, up to
   the first line of code that is not directly behind a comment.
   */
  method ScanLineComments(lines: seq<Line>) returns (blocks: seq<Block>)
    ensures ClosedRuns(lines, blocks, StopFrom(lines, 0))
  {
    blocks := [];
    var start: Option<nat> := None;
    for i := 0 to |lines|
      invariant StopFrom(lines, 0) == StopFrom(lines, i)
      invariant ClosedRuns(lines, blocks, i) && OpenRun(lines, start, i)
    {
      var line := lines[i];
      if i == 0 && line.skip {
        KeepRuns(lines, blocks, i);
      } else if line.comment {
        KeepRuns(lines, blocks, i);
        if start.None? {
          start := Some(i);
        }
      } else if start.None? {
        if !line.blank {
          return;
        }
        KeepRuns(lines, blocks, i);
      } else {
        CloseRun(lines, blocks, start.value, i);
        blocks := blocks + [Block(start.value, i - 1)];
        start := None;
      }
    }
  }

  // ----- C-like languages -----

  /**
   What is asked of a line: a mode line, a `//` and a `/*` and a `*/` in it, something in front
   of the `//`, "Copyright" behind it, and whether it is blank.
   */
  datatype CLine = CLine(
    modeLine: bool, cpp: bool, cStart: bool, cEnd: bool, codeBefore: bool, copyright: bool, blank: bool)

  datatype Mode = NoMode | InC | InCpp

  datatype ScanResult = Finished | BothCommentKinds(line: nat)

  predicate ModeLine(lines: seq<CLine>, i: nat) {
    i == 0 && lines != [] && lines[0].modeLine
  }

  /** A line with nothing but a `//` comment. */
  predicate Notice(line: CLine) {
    line.cpp && !line.cStart && !line.codeBefore
  }

  /** A line that opens a C comment. */
  predicate Opens(line: CLine) {
    line.cStart && !line.cpp
  }

  predicate Idle(line: CLine) {
    line.blank && !line.cpp && !line.cStart
  }

  /** A line that ends the scan: code, or code in front of a `//`, or two kinds of comment. */
  predicate EndsScan(line: CLine) {
    if line.cpp then !Notice(line) else !line.cStart && !line.blank
  }

  /** From the line that opens a C comment to the first later one that closes it. */
  ghost predicate CComment(lines: seq<CLine>, b: Block) {
    && b.first < b.last < |lines|
    && !ModeLine(lines, b.first) && Opens(lines[b.first]) && lines[b.last].cEnd
    && forall i :: b.first < i < b.last ==> !lines[i].cEnd
  }

  /** Lines `first` to `last` begin a notice: a `//` line, then blank lines and further `//` lines of it. */
  ghost predicate CppRun(lines: seq<CLine>, first: nat, last: nat) {
    && first <= last < |lines| && !ModeLine(lines, first) && Notice(lines[first])
    && forall i :: first < i <= last ==>
         if lines[i].cpp then Notice(lines[i]) && !lines[i].copyright else lines[i].blank
  }

  /** Such a run up to the next copyright notice, or up to the first line of something else. */
  ghost predicate CppComments(lines: seq<CLine>, b: Block) {
    && CppRun(lines, b.first, b.last) && b.last + 1 < |lines|
    && var next := lines[b.last + 1];
       if next.cpp then Notice(next) && next.copyright else !next.blank
  }

  ghost predicate WholeComment(lines: seq<CLine>, b: Block) {
    CComment(lines, b) || CppComments(lines, b)
  }

  /** A comment that begins at `open` and that nothing has closed where the scan stops. */
  ghost predicate Pending(lines: seq<CLine>, open: nat, stop: nat) {
    && open < stop <= |lines|
    && (|| (CppRun(lines, open, stop - 1) && (stop < |lines| ==> lines[stop].cpp && !Notice(lines[stop])))
        || (&& stop == |lines| && !ModeLine(lines, open) && Opens(lines[open])
            && forall j :: open < j < stop ==> !lines[j].cEnd))
  }

  ghost predicate GoodBlocks(lines: seq<CLine>, blocks: seq<Block>, i: nat, limit: nat) {
    && Ascending(blocks)
    && forall b :: b in blocks ==> i <= b.first && b.last < limit && WholeComment(lines, b)
  }

  /** Line `j` needs no block or has one. */
  ghost predicate Accounted(lines: seq<CLine>, blocks: seq<Block>, j: nat)
    requires j < |lines|
  {
    ModeLine(lines, j) || Idle(lines[j]) || exists b :: b in blocks && b.first <= j <= b.last
  }

  /** Lines `i` to `j - 1` are accounted for, or belong to the comment opened at `open`. */
  ghost predicate AllAccounted(lines: seq<CLine>, blocks: seq<Block>, open: Option<nat>, i: nat, j: nat)
    requires j <= |lines|
  {
    forall k :: i <= k < j ==> (open.Some? && open.value <= k) || Accounted(lines, blocks, k)
  }

  /**
   What a scan from line `i` on yields, when it has stopped before line `stop` with a comment
   pending from `open` on: blocks in order, each a whole C comment or a whole `//` notice, that
   leave out nothing but blank lines, the mode line and the pending comment.
   */
  ghost predicate ScanFrom(lines: seq<CLine>, i: nat, blocks: seq<Block>, stop: nat, open: Option<nat>) {
    && i <= stop <= |lines|
    && GoodBlocks(lines, blocks, i, if open.Some? then open.value else stop)
    && AllAccounted(lines, blocks, open, i, stop)
    && (stop < |lines| ==> EndsScan(lines[stop]) && !ModeLine(lines, stop))
    && (open.Some? ==> i <= open.value && Pending(lines, open.value, stop))
  }

  ghost predicate ScanIs(lines: seq<CLine>, blocks: seq<Block>, result: ScanResult) {
    exists stop: nat, open: Option<nat> ::
      && ScanFrom(lines, 0, blocks, stop, open)
      && result == if stop < |lines| && lines[stop].cpp && lines[stop].cStart then BothCommentKinds(stop) else Finished
  }

  // ----- There is only one such outcome -----

  lemma SkipLine(lines: seq<CLine>, i: nat, blocks: seq<Block>, stop: nat, open: Option<nat>)
    requires ScanFrom(lines, i, blocks, stop, open) && i < |lines| && (ModeLine(lines, i) || Idle(lines[i]))
    ensures ScanFrom(lines, i + 1, blocks, stop, open)
  {
    forall b | b in blocks
      ensures i < b.first
    {
      assert WholeComment(lines, b);
    }
  }

  lemma EndLine(lines: seq<CLine>, i: nat, blocks: seq<Block>, stop: nat, open: Option<nat>)
    requires ScanFrom(lines, i, blocks, stop, open) && i < |lines| && !ModeLine(lines, i) && EndsScan(lines[i])
    ensures stop == i && open == None && blocks == []
  {
    forall b | b in blocks
      ensures i < b.first
    {
      assert WholeComment(lines, b);
    }
    assert i < stop ==> (open.Some? && open.value <= i) || Accounted(lines, blocks, i);
    HasMember(blocks);
  }

  lemma AtEnd(lines: seq<CLine>, blocks: seq<Block>, stop: nat, open: Option<nat>)
    requires ScanFrom(lines, |lines|, blocks, stop, open)
    ensures stop == |lines| && open == None && blocks == []
  {
    HasMember(blocks);
  }

  lemma HasMember(blocks: seq<Block>)
    ensures blocks != [] ==> exists b :: b in blocks
  {
    if blocks != [] {
      assert blocks[0] in blocks;
    }
  }

  /** At a line that begins a comment the scan has a block, and goes on behind it, or the pending comment. */
  lemma CommentLine(lines: seq<CLine>, i: nat, blocks: seq<Block>, stop: nat, open: Option<nat>)
    requires ScanFrom(lines, i, blocks, stop, open)
    requires i < |lines| && !ModeLine(lines, i) && !EndsScan(lines[i]) && !Idle(lines[i])
    ensures if blocks == [] then open == Some(i)
            else blocks[0].first == i && WholeComment(lines, blocks[0])
                 && ScanFrom(lines, blocks[0].last + 1, blocks[1..], stop, open)
  {
    assert i < stop;
    assert (open.Some? && open.value <= i) || Accounted(lines, blocks, i);
    if blocks != [] {
      assert blocks[0] in blocks;
      assert WholeComment(lines, blocks[0]);
      assert forall b :: b in blocks ==> WholeComment(lines, b) && b.first <= b.last;
      FirstBlock(lines, i, blocks);
      RestGood(lines, blocks, i, if open.Some? then open.value else stop);
      RestAccounted(lines, blocks, open, stop);
    }
  }

  lemma RestGood(lines: seq<CLine>, blocks: seq<Block>, i: nat, limit: nat)
    requires blocks != [] && GoodBlocks(lines, blocks, i, limit)
    ensures blocks[0].last < limit && GoodBlocks(lines, blocks[1..], blocks[0].last + 1, limit)
  {
    var rest := blocks[1..];
    assert blocks[0] in blocks;
    assert forall k :: 0 <= k < |rest| ==> rest[k] == blocks[k + 1];
    forall b | b in rest
      ensures b in blocks && blocks[0].last < b.first
    {
      var k :| 0 <= k < |rest| && rest[k] == b;
      assert blocks[k + 1] == b;
    }
  }

  lemma FirstBlock(lines: seq<CLine>, i: nat, blocks: seq<Block>)
    requires blocks != [] && Ascending(blocks) && i < |lines| && !ModeLine(lines, i) && !Idle(lines[i])
    requires Accounted(lines, blocks, i) && forall b :: b in blocks ==> i <= b.first <= b.last
    ensures blocks[0].first == i
  {
    var b :| b in blocks && b.first <= i <= b.last;
    var k :| 0 <= k < |blocks| && blocks[k] == b;
    assert blocks[0] in blocks;
  }

  lemma RestAccounted(lines: seq<CLine>, blocks: seq<Block>, open: Option<nat>, stop: nat)
    requires blocks != [] && stop <= |lines| && AllAccounted(lines, blocks, open, blocks[0].first, stop)
    requires blocks[0].first <= blocks[0].last
    ensures AllAccounted(lines, blocks[1..], open, blocks[0].last + 1, stop)
  {
    forall k | blocks[0].last + 1 <= k < stop && !(open.Some? && open.value <= k)
      ensures Accounted(lines, blocks[1..], k)
    {
      if !ModeLine(lines, k) && !Idle(lines[k]) {
        assert Accounted(lines, blocks, k);
        var b :| b in blocks && b.first <= k <= b.last;
        assert b in blocks[1..];
      }
    }
  }

  /** A comment that begins at a line ends in one way only. */
  lemma BlockUnique(lines: seq<CLine>, b: Block, c: Block)
    requires WholeComment(lines, b) && WholeComment(lines, c) && b.first == c.first
    ensures b == c
  {
  }

  lemma BlockNotPending(lines: seq<CLine>, b: Block, stop: nat)
    requires WholeComment(lines, b)
    ensures !Pending(lines, b.first, stop)
  {
  }

  lemma PendingUnique(lines: seq<CLine>, open: nat, stop: nat, other: nat)
    requires Pending(lines, open, stop) && Pending(lines, open, other)
    ensures stop == other
  {
  }

  /** Blocks, pending comment and stop are determined by the lines. */
  lemma {:induction false} ScanUnique(lines: seq<CLine>, i: nat, blocks: seq<Block>, stop: nat, open: Option<nat>,
                                      blocks': seq<Block>, stop': nat, open': Option<nat>)
    requires ScanFrom(lines, i, blocks, stop, open) && ScanFrom(lines, i, blocks', stop', open')
    ensures blocks == blocks' && stop == stop' && open == open'
    decreases |lines| - i
  {
    if i == |lines| {
      AtEnd(lines, blocks, stop, open);
      AtEnd(lines, blocks', stop', open');
    } else if ModeLine(lines, i) || Idle(lines[i]) {
      SkipLine(lines, i, blocks, stop, open);
      SkipLine(lines, i, blocks', stop', open');
      ScanUnique(lines, i + 1, blocks, stop, open, blocks', stop', open');
    } else if EndsScan(lines[i]) {
      EndLine(lines, i, blocks, stop, open);
      EndLine(lines, i, blocks', stop', open');
    } else {
      CommentLine(lines, i, blocks, stop, open);
      CommentLine(lines, i, blocks', stop', open');
      CommentUnique(lines, i, blocks, stop, open, blocks', stop', open');
      if blocks != [] {
        ScanUnique(lines, blocks[0].last + 1, blocks[1..], stop, open, blocks'[1..], stop', open');
        SameHeadAndTail(blocks, blocks');
      }
    }
  }

  lemma SameHeadAndTail(a: seq<Block>, b: seq<Block>)
    requires a != [] && b != [] && a[0] == b[0] && a[1..] == b[1..]
    ensures a == b
  {
    assert a == [a[0]] + a[1..] && b == [b[0]] + b[1..];
  }

  lemma CommentUnique(lines: seq<CLine>, i: nat, blocks: seq<Block>, stop: nat, open: Option<nat>,
                      blocks': seq<Block>, stop': nat, open': Option<nat>)
    requires if blocks == [] then open == Some(i) else blocks[0].first == i && WholeComment(lines, blocks[0])
    requires if blocks' == [] then open' == Some(i) else blocks'[0].first == i && WholeComment(lines, blocks'[0])
    requires open.Some? ==> Pending(lines, open.value, stop)
    requires open'.Some? ==> Pending(lines, open'.value, stop')
    ensures blocks == [] <==> blocks' == []
    ensures if blocks == [] then stop == stop' && open == open' else blocks' != [] && blocks[0] == blocks'[0]
  {
    if blocks == [] && blocks' == [] {
      PendingUnique(lines, i, stop, stop');
    } else if blocks == [] {
      BlockNotPending(lines, blocks'[0], stop);
    } else if blocks' == [] {
      BlockNotPending(lines, blocks[0], stop');
    } else {
      BlockUnique(lines, blocks[0], blocks'[0]);
    }
  }

  /** So the lines determine what is yielded and whether the scan fails. */
  lemma ScanDetermined(lines: seq<CLine>, blocks: seq<Block>, result: ScanResult, blocks': seq<Block>, result': ScanResult)
    requires ScanIs(lines, blocks, result) && ScanIs(lines, blocks', result')
    ensures blocks == blocks' && result == result'
  {
    var stop: nat, open: Option<nat> :|
      && ScanFrom(lines, 0, blocks, stop, open)
      && result == if stop < |lines| && lines[stop].cpp && lines[stop].cStart then BothCommentKinds(stop) else Finished;
    var stop': nat, open': Option<nat> :|
      && ScanFrom(lines, 0, blocks', stop', open')
      && result' == if stop' < |lines| && lines[stop'].cpp && lines[stop'].cStart then BothCommentKinds(stop') else Finished;
    ScanUnique(lines, 0, blocks, stop, open, blocks', stop', open');
  }

  // ----- The scan itself -----

  /** What the mode says about the lines since `start`. */
  ghost predicate ModeHolds(lines: seq<CLine>, mode: Mode, start: Option<nat>, blocks: seq<Block>, i: nat)
    requires i <= |lines|
  {
    match mode
    case NoMode => GoodBlocks(lines, blocks, 0, i) && AllAccounted(lines, blocks, None, 0, i)
    case InC =>
      && start.Some? && start.value < i && GoodBlocks(lines, blocks, 0, start.value)
      && AllAccounted(lines, blocks, start, 0, i)
      && !ModeLine(lines, start.value) && Opens(lines[start.value])
      && forall j :: start.value < j < i ==> !lines[j].cEnd
    case InCpp =>
      && start.Some? && start.value < i && GoodBlocks(lines, blocks, 0, start.value)
      && AllAccounted(lines, blocks, start, 0, i)
      && CppRun(lines, start.value, i - 1)
  }

  /** The pending comment becomes a block that accounts for its lines. */
  lemma AddBlock(lines: seq<CLine>, blocks: seq<Block>, b: Block, i: nat)
    requires GoodBlocks(lines, blocks, 0, b.first) && WholeComment(lines, b)
    requires b.first <= i <= b.last + 1 && AllAccounted(lines, blocks, Some(b.first), 0, i)
    ensures GoodBlocks(lines, blocks + [b], 0, b.last + 1)
    ensures AllAccounted(lines, blocks + [b], None, 0, b.last + 1)
  {
    forall j | 0 <= j < b.last + 1
      ensures Accounted(lines, blocks + [b], j)
    {
      if j < b.first {
        assert Accounted(lines, blocks, j);
        assert forall c :: c in blocks ==> c in blocks + [b];
      } else {
        assert b in blocks + [b];
      }
    }
  }

  /** The scan stops before line `i`, with the comment of its mode pending. */
  lemma Stopped(lines: seq<CLine>, mode: Mode, start: Option<nat>, blocks: seq<Block>, i: nat, result: ScanResult)
    requires i <= |lines| && ModeHolds(lines, mode, start, blocks, i)
    requires i < |lines| ==> EndsScan(lines[i]) && !ModeLine(lines, i) && mode != InC && (mode == InCpp ==> lines[i].cpp)
    requires result == if i < |lines| && lines[i].cpp && lines[i].cStart then BothCommentKinds(i) else Finished
    ensures ScanIs(lines, blocks, result)
  {
    var open := if mode == NoMode then None else start;
    assert ScanFrom(lines, 0, blocks, i, open);
  }

  /**
   Scanning C-like code. The source's three assertions about the mode are assertions here too,
   so they never fail; the one about two comment kinds fails only on a line that has both.
   */
  method ScanCComments(lines: seq<CLine>) returns (blocks: seq<Block>, result: ScanResult)
    ensures ScanIs(lines, blocks, result)
  {
    blocks := [];
    var mode := NoMode;
    var start: Option<nat> := None;
    for i := 0 to |lines|
      invariant ModeHolds(lines, mode, start, blocks, i)
    {
      var line := lines[i];
      if i == 0 && line.modeLine {
        continue;
      }
      if mode == InC {
        assert start.Some?;
        if line.cEnd {
          AddBlock(lines, blocks, Block(start.value, i), i);
          blocks := blocks + [Block(start.value, i)];
          mode := NoMode;
        }
        continue;
      }
      if line.cpp {
        if line.cStart {
          Stopped(lines, mode, start, blocks, i, BothCommentKinds(i));
          return blocks, BothCommentKinds(i);
        }
        if line.codeBefore {
          Stopped(lines, mode, start, blocks, i, Finished);
          return blocks, Finished;
        }
        if mode == NoMode {
          mode, start := InCpp, Some(i);
        } else if line.copyright {
          AddBlock(lines, blocks, Block(start.value, i - 1), i);
          blocks := blocks + [Block(start.value, i - 1)];
          start := Some(i);
        }
        continue;
      } else if mode == InCpp {
        assert start.Some?;
        if line.blank {
          continue;
        }
        AddBlock(lines, blocks, Block(start.value, i - 1), i);
        blocks := blocks + [Block(start.value, i - 1)];
        mode := NoMode;
        if !line.cStart {
          Stopped(lines, mode, start, blocks, i, Finished);
          return blocks, Finished;
        }
      }
      if line.cStart {
        assert mode == NoMode;
        mode, start := InC, Some(i);
      }
      if mode == NoMode && !line.blank {
        Stopped(lines, mode, start, blocks, i, Finished);
        return blocks, Finished;
      }
    }
    Stopped(lines, mode, start, blocks, |lines|, Finished);
    return blocks, Finished;
  }
}
