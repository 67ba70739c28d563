/**
 The print queue of `util/o3-pipeview.py`: instructions arrive in retirement order and
 are printed by sequence number from a queue of bounded length.
 */
module ReorderBuffer {
  import opened Sorting

  datatype Stage = Fetch | Decode | Rename | Dispatch | Issue | Complete | Retire | StoreComplete

  datatype Inst = Inst(sn: nat, ticks: map<Stage, nat>)

  predicate SnLe(a: Inst, b: Inst) {
    a.sn <= b.sn
  }

  function SortBySn(s: seq<Inst>): seq<Inst> {
    Sort(SnLe, s)
  }

  ghost predicate DistinctSns(s: seq<Inst>) {
    forall i, j :: 0 <= i < j < |s| ==> s[i].sn != s[j].sn
  }

  datatype Thresholds = Thresholds(max: nat, min: nat)

  // ----- What is popped, and when -----

  /** The queue, and everything popped from it so far. */
  datatype Buffer = Buffer(queue: seq<Inst>, popped: seq<Inst>)

  /** `print_insts`: sort, then pop from the front down to `lower` instructions. */
  function Flush(b: Buffer, lower: nat): Buffer {
    var sorted := SortBySn(b.queue);
    var k := if |sorted| > lower then |sorted| - lower else 0;
    Buffer(sorted[k..], b.popped + sorted[..k])
  }

  /** `queue_inst`. */
  function Arrive(th: Thresholds, b: Buffer, inst: Inst): Buffer {
    var grown := b.(queue := b.queue + [inst]);
    if |grown.queue| > th.max then Flush(grown, th.min) else grown
  }

  function Stream(th: Thresholds, arrivals: seq<Inst>): Buffer {
    if arrivals == [] then Buffer([], [])
    else Arrive(th, Stream(th, arrivals[..|arrivals| - 1]), arrivals[|arrivals| - 1])
  }

  /** Everything popped by the end of the input, including the flush down to nothing. */
  function StreamedOrder(th: Thresholds, arrivals: seq<Inst>): seq<Inst> {
    Flush(Stream(th, arrivals), 0).popped
  }

  // ----- Nothing is lost, and the queue stays short -----

  lemma FlushKeepsElements(b: Buffer, lower: nat)
    ensures var f := Flush(b, lower); multiset(f.popped) + multiset(f.queue) == multiset(b.popped) + multiset(b.queue)
    ensures |Flush(b, lower).queue| <= lower
    ensures |b.queue| <= lower ==> |Flush(b, lower).queue| == |b.queue|
  {
    SortKeepsElements(SnLe, b.queue);
    var sorted := SortBySn(b.queue);
    var k := if |sorted| > lower then |sorted| - lower else 0;
    assert sorted == sorted[..k] + sorted[k..];
  }

  lemma ArriveKeepsElements(th: Thresholds, b: Buffer, inst: Inst)
    ensures var a := Arrive(th, b, inst);
            multiset(a.popped) + multiset(a.queue) == multiset(b.popped) + multiset(b.queue) + multiset{inst}
    ensures |Arrive(th, b, inst).queue| <= th.max || |Arrive(th, b, inst).queue| <= th.min
  {
    FlushKeepsElements(b.(queue := b.queue + [inst]), th.min);
  }

  lemma {:induction false} StreamKeepsElements(th: Thresholds, arrivals: seq<Inst>)
    ensures var b := Stream(th, arrivals); multiset(b.popped) + multiset(b.queue) == multiset(arrivals)
    ensures |Stream(th, arrivals).queue| <= if th.min <= th.max then th.max else th.min
  {
    if arrivals != [] {
      var front, last := arrivals[..|arrivals| - 1], arrivals[|arrivals| - 1];
      assert arrivals == front + [last];
      StreamKeepsElements(th, front);
      ArriveKeepsElements(th, Stream(th, front), last);
    }
  }

  /** Whatever the arrival order, the stream is a rearrangement of the input. */
  lemma StreamedIsPermutation(th: Thresholds, arrivals: seq<Inst>)
    ensures multiset(StreamedOrder(th, arrivals)) == multiset(arrivals)
  {
    StreamKeepsElements(th, arrivals);
    FlushKeepsElements(Stream(th, arrivals), 0);
  }

  // ----- Bounded disorder -----

  function LargerThan(s: seq<Inst>, sn: nat): set<Inst> {
    set x | x in s && x.sn > sn
  }

  /** No instruction arrives after more than `limit` instructions that should follow it. */
  ghost predicate BoundedDisorder(arrivals: seq<Inst>, limit: nat) {
    forall j :: 0 <= j < |arrivals| ==> |LargerThan(arrivals[..j], arrivals[j].sn)| <= limit
  }

  /** What has been popped is in order and precedes all that is queued. */
  ghost predicate Settled(b: Buffer) {
    && SortedBy(SnLe, b.popped)
    && (forall p, q :: p in b.popped && q in b.queue ==> p.sn < q.sn)
  }

  /** Moreover, `min` arrivals follow each popped instruction. */
  ghost predicate PoppedIsFinal(th: Thresholds, arrivals: seq<Inst>, b: Buffer) {
    && Settled(b)
    && (forall p :: p in b.popped ==> |LargerThan(arrivals, p.sn)| >= th.min)
  }

  lemma SubsetCount(a: set<Inst>, b: set<Inst>)
    requires a <= b
    ensures |a| <= |b|
  {
    assert b == a + (b - a);
  }

  function Members(s: seq<Inst>): set<Inst> {
    set x | x in s
  }

  lemma {:induction false} DistinctCount(s: seq<Inst>)
    requires DistinctSns(s)
    ensures |Members(s)| == |s|
  {
    if s != [] {
      var front, last := s[..|s| - 1], s[|s| - 1];
      DistinctCount(front);
      assert Members(s) == Members(front) + {last};
      assert last !in front;
    }
  }

  lemma SnLeIsTotal()
    ensures TotalPreorder(SnLe)
  {
  }

  lemma {:induction false} DistinctMembers(s: seq<Inst>, x: Inst, y: Inst)
    requires DistinctSns(s) && x in s && y in s && x.sn == y.sn
    ensures x == y
  {
    var i :| 0 <= i < |s| && s[i] == x;
    var j :| 0 <= j < |s| && s[j] == y;
  }

  /** An arrangement of instructions with distinct sequence numbers has distinct sequence numbers. */
  lemma DistinctRearranged(s: seq<Inst>, t: seq<Inst>)
    requires DistinctSns(s) && multiset(t) <= multiset(s)
    ensures DistinctSns(t)
  {
    RearrangedDistinct(s, t);
    forall i, j | 0 <= i < j < |t|
      ensures t[i].sn != t[j].sn
    {
      assert t[i] in multiset(t) && t[j] in multiset(t);
      if t[i].sn == t[j].sn {
        DistinctMembers(s, t[i], t[j]);
      }
    }
  }

  /** An arrival that respects the bound belongs behind everything popped. */
  lemma ArrivalIsLater(th: Thresholds, arrivals: seq<Inst>, b: Buffer, inst: Inst)
    requires DistinctSns(arrivals + [inst]) && PoppedIsFinal(th, arrivals, b)
    requires multiset(b.popped) + multiset(b.queue) == multiset(arrivals)
    requires |LargerThan(arrivals, inst.sn)| <= th.min
    ensures PoppedIsFinal(th, arrivals + [inst], b.(queue := b.queue + [inst]))
  {
    forall p | p in b.popped
      ensures p.sn < inst.sn
      ensures |LargerThan(arrivals + [inst], p.sn)| >= th.min
    {
      assert p in multiset(b.popped) && p in multiset(arrivals) && p in arrivals;
      assert p.sn != inst.sn by {
        var i :| 0 <= i < |arrivals| && arrivals[i] == p;
        assert (arrivals + [inst])[i] == p && (arrivals + [inst])[|arrivals|] == inst;
      }
      if inst.sn < p.sn {
        assert p !in LargerThan(arrivals, p.sn);
        SubsetCount(LargerThan(arrivals, p.sn) + {p}, LargerThan(arrivals, inst.sn));
      }
      SubsetCount(LargerThan(arrivals, p.sn), LargerThan(arrivals + [inst], p.sn));
    }
  }

  /** In the sorted queue each instruction is followed by all those behind it. */
  lemma SortedPrecedes(arrivals: seq<Inst>, sorted: seq<Inst>, k: nat, p: Inst)
    requires DistinctSns(arrivals) && multiset(sorted) <= multiset(arrivals) && SortedBy(SnLe, sorted)
    requires k <= |sorted| && p in sorted[..k]
    ensures forall q :: q in sorted[k..] ==> p.sn < q.sn
    ensures |LargerThan(arrivals, p.sn)| >= |sorted| - k
  {
    var rest := sorted[k..];
    DistinctRearranged(arrivals, sorted);
    var i :| 0 <= i < k && sorted[i] == p;
    forall q | q in rest
      ensures p.sn < q.sn && q in arrivals
    {
      var j :| 0 <= j < |rest| && rest[j] == q;
      assert SnLe(sorted[i], sorted[k + j]);
      assert q in multiset(sorted);
    }
    DistinctCount(rest);
    SubsetCount(Members(rest), LargerThan(arrivals, p.sn));
  }

  lemma SortedQueue(b: Buffer)
    ensures SortedBy(SnLe, SortBySn(b.queue))
    ensures multiset(SortBySn(b.queue)) == multiset(b.queue)
    ensures forall q :: q in SortBySn(b.queue) <==> q in b.queue
  {
    SnLeIsTotal();
    SortIsSorted(SnLe, b.queue);
    SortKeepsElements(SnLe, b.queue);
    forall q
      ensures q in SortBySn(b.queue) <==> q in b.queue
    {
      assert q in multiset(SortBySn(b.queue)) <==> q in multiset(b.queue);
    }
  }

  lemma SortedAppend(a: seq<Inst>, b: seq<Inst>)
    requires SortedBy(SnLe, a) && SortedBy(SnLe, b) && forall p, q :: p in a && q in b ==> p.sn < q.sn
    ensures SortedBy(SnLe, a + b)
  {
  }

  /** Popping from the sorted queue keeps what has been popped in its place. */
  lemma FlushSettles(arrivals: seq<Inst>, b: Buffer, lower: nat)
    requires DistinctSns(arrivals) && Settled(b) && multiset(b.queue) <= multiset(arrivals)
    ensures Settled(Flush(b, lower))
  {
    var sorted := SortBySn(b.queue);
    SortedQueue(b);
    var k := if |sorted| > lower then |sorted| - lower else 0;
    var popped, rest := sorted[..k], sorted[k..];
    assert forall p :: p in popped ==> p in sorted;
    assert forall p :: p in rest ==> p in sorted;
    forall p | p in popped
      ensures forall q :: q in rest ==> p.sn < q.sn
    {
      SortedPrecedes(arrivals, sorted, k, p);
    }
    SortedAppend(b.popped, popped);
  }

  lemma FlushIsFinal(th: Thresholds, arrivals: seq<Inst>, b: Buffer)
    requires DistinctSns(arrivals) && PoppedIsFinal(th, arrivals, b)
    requires multiset(b.popped) + multiset(b.queue) == multiset(arrivals)
    ensures PoppedIsFinal(th, arrivals, Flush(b, th.min))
  {
    FlushSettles(arrivals, b, th.min);
    var sorted := SortBySn(b.queue);
    SortedQueue(b);
    if |sorted| > th.min {
      var k := |sorted| - th.min;
      forall p | p in sorted[..k]
        ensures |LargerThan(arrivals, p.sn)| >= th.min
      {
        SortedPrecedes(arrivals, sorted, k, p);
      }
    }
  }

  lemma ArriveIsFinal(th: Thresholds, arrivals: seq<Inst>, b: Buffer, inst: Inst)
    requires DistinctSns(arrivals + [inst]) && PoppedIsFinal(th, arrivals, b)
    requires multiset(b.popped) + multiset(b.queue) == multiset(arrivals)
    requires |LargerThan(arrivals, inst.sn)| <= th.min
    ensures PoppedIsFinal(th, arrivals + [inst], Arrive(th, b, inst))
  {
    ArrivalIsLater(th, arrivals, b, inst);
    var grown := b.(queue := b.queue + [inst]);
    if |grown.queue| > th.max {
      FlushIsFinal(th, arrivals + [inst], grown);
    }
  }

  lemma BoundedPrefix(arrivals: seq<Inst>, limit: nat, n: nat)
    requires BoundedDisorder(arrivals, limit) && n <= |arrivals|
    ensures BoundedDisorder(arrivals[..n], limit)
  {
    forall j | 0 <= j < n
      ensures |LargerThan(arrivals[..n][..j], arrivals[..n][j].sn)| <= limit
    {
      assert arrivals[..n][..j] == arrivals[..j];
    }
  }

  lemma {:induction false} StreamIsFinal(th: Thresholds, arrivals: seq<Inst>)
    requires DistinctSns(arrivals) && BoundedDisorder(arrivals, th.min)
    ensures PoppedIsFinal(th, arrivals, Stream(th, arrivals))
  {
    if arrivals != [] {
      var n := |arrivals| - 1;
      assert arrivals == arrivals[..n] + [arrivals[n]];
      BoundedPrefix(arrivals, th.min, n);
      StreamIsFinal(th, arrivals[..n]);
      StreamKeepsElements(th, arrivals[..n]);
      ArriveIsFinal(th, arrivals[..n], Stream(th, arrivals[..n]), arrivals[n]);
    }
  }

  /** If the popped instructions are in their place, the final flush completes the sort. */
  lemma SettledIsSorted(th: Thresholds, arrivals: seq<Inst>)
    requires DistinctSns(arrivals) && Settled(Stream(th, arrivals))
    ensures StreamedOrder(th, arrivals) == SortBySn(arrivals)
  {
    StreamKeepsElements(th, arrivals);
    StreamedIsPermutation(th, arrivals);
    var b := Stream(th, arrivals);
    var tail := SortBySn(b.queue);
    SortedQueue(b);
    SortedQueue(Buffer(arrivals, []));
    assert tail[..|tail|] == tail;
    SortedAppend(b.popped, tail);
    NoTiesBySn(arrivals, b.popped + tail);
    SortedUnique(SnLe, b.popped + tail, SortBySn(arrivals));
  }

  /** With disorder of at most `min`, the stream is the sort of the whole input. */
  lemma StreamedEqualsSorted(th: Thresholds, arrivals: seq<Inst>)
    requires DistinctSns(arrivals) && BoundedDisorder(arrivals, th.min)
    ensures StreamedOrder(th, arrivals) == SortBySn(arrivals)
  {
    StreamIsFinal(th, arrivals);
    SettledIsSorted(th, arrivals);
  }

  // ----- Exactly when the stream is sorted -----

  /** No instruction arrives after one that should follow it has been popped. */
  ghost predicate NoStragglers(th: Thresholds, arrivals: seq<Inst>) {
    forall k, p :: 0 <= k < |arrivals| && p in Stream(th, arrivals[..k]).popped ==> p.sn < arrivals[k].sn
  }

  lemma ArriveSettles(th: Thresholds, arrivals: seq<Inst>, b: Buffer, inst: Inst)
    requires DistinctSns(arrivals + [inst]) && Settled(b) && (forall p :: p in b.popped ==> p.sn < inst.sn)
    requires multiset(b.popped) + multiset(b.queue) == multiset(arrivals)
    ensures Settled(Arrive(th, b, inst))
  {
    var grown := b.(queue := b.queue + [inst]);
    assert Settled(grown);
    if |grown.queue| > th.max {
      assert multiset(grown.queue) <= multiset(arrivals + [inst]);
      FlushSettles(arrivals + [inst], grown, th.min);
    }
  }

  lemma {:induction false} StreamSettles(th: Thresholds, arrivals: seq<Inst>, n: nat)
    requires DistinctSns(arrivals) && NoStragglers(th, arrivals) && n <= |arrivals|
    ensures Settled(Stream(th, arrivals[..n]))
  {
    if n > 0 {
      assert arrivals[..n] == arrivals[..n - 1] + [arrivals[n - 1]];
      StreamSettles(th, arrivals, n - 1);
      StreamKeepsElements(th, arrivals[..n - 1]);
      StreamStep(th, arrivals[..n - 1], arrivals[n - 1]);
      ArriveSettles(th, arrivals[..n - 1], Stream(th, arrivals[..n - 1]), arrivals[n - 1]);
    }
  }

  lemma StreamStep(th: Thresholds, arrivals: seq<Inst>, inst: Inst)
    ensures Stream(th, arrivals + [inst]) == Arrive(th, Stream(th, arrivals), inst)
  {
    assert (arrivals + [inst])[..|arrivals|] == arrivals;
  }

  lemma FlushPrefix(b: Buffer, lower: nat)
    ensures b.popped <= Flush(b, lower).popped
  {
  }

  /** What has been popped stays at the front of the stream. */
  lemma {:induction false} PoppedStays(th: Thresholds, arrivals: seq<Inst>, k: nat)
    requires k <= |arrivals|
    ensures Stream(th, arrivals[..k]).popped <= Stream(th, arrivals).popped
    decreases |arrivals|
  {
    if k == |arrivals| {
      assert arrivals[..k] == arrivals;
    } else {
      var front, last := arrivals[..|arrivals| - 1], arrivals[|arrivals| - 1];
      assert front[..k] == arrivals[..k];
      PoppedStays(th, front, k);
      var b := Stream(th, front);
      FlushPrefix(b.(queue := b.queue + [last]), th.min);
    }
  }

  /** An arrival below an instruction popped before it comes out in the wrong place. */
  lemma StragglerIsLate(th: Thresholds, arrivals: seq<Inst>, k: nat, p: Inst)
    requires DistinctSns(arrivals) && k < |arrivals|
    requires p in Stream(th, arrivals[..k]).popped && arrivals[k].sn <= p.sn
    ensures StreamedOrder(th, arrivals) != SortBySn(arrivals)
  {
    PoppedEarlier(th, arrivals, k, p);
    PoppedInFront(th, arrivals, k);
    ArrivalComesOut(th, arrivals, k);
    OutOfOrder(StreamedOrder(th, arrivals), Stream(th, arrivals[..k]).popped, p, arrivals[k]);
    SortedQueue(Buffer(arrivals, []));
  }

  lemma PoppedInFront(th: Thresholds, arrivals: seq<Inst>, k: nat)
    requires k <= |arrivals|
    ensures Stream(th, arrivals[..k]).popped <= StreamedOrder(th, arrivals)
  {
    PoppedStays(th, arrivals, k);
    FlushPrefix(Stream(th, arrivals), 0);
  }

  lemma ArrivalComesOut(th: Thresholds, arrivals: seq<Inst>, k: nat)
    requires k < |arrivals|
    ensures arrivals[k] in StreamedOrder(th, arrivals)
  {
    StreamedIsPermutation(th, arrivals);
    assert arrivals[k] in multiset(arrivals);
    assert arrivals[k] in multiset(StreamedOrder(th, arrivals));
  }

  lemma PoppedEarlier(th: Thresholds, arrivals: seq<Inst>, k: nat, p: Inst)
    requires DistinctSns(arrivals) && k < |arrivals| && p in Stream(th, arrivals[..k]).popped
    ensures arrivals[k] !in Stream(th, arrivals[..k]).popped && p.sn != arrivals[k].sn
  {
    var popped := Stream(th, arrivals[..k]).popped;
    StreamKeepsElements(th, arrivals[..k]);
    forall x | x in popped
      ensures x.sn != arrivals[k].sn
    {
      assert x in multiset(popped) && x in multiset(arrivals[..k]);
      var i :| 0 <= i < k && arrivals[..k][i] == x;
      assert arrivals[i] == x;
    }
  }

  lemma OutOfOrder(order: seq<Inst>, prefix: seq<Inst>, p: Inst, late: Inst)
    requires prefix <= order && p in prefix && late in order && late !in prefix && late.sn < p.sn
    ensures !SortedBy(SnLe, order)
  {
    var j :| 0 <= j < |prefix| && prefix[j] == p;
    var i :| 0 <= i < |order| && order[i] == late;
    assert i >= |prefix| && order[j] == p;
    assert !SnLe(order[j], order[i]);
  }

  /** The stream is the sort of the input exactly when there are no stragglers. */
  lemma StreamedSortedExactly(th: Thresholds, arrivals: seq<Inst>)
    requires DistinctSns(arrivals)
    ensures StreamedOrder(th, arrivals) == SortBySn(arrivals) <==> NoStragglers(th, arrivals)
  {
    if NoStragglers(th, arrivals) {
      StreamSettles(th, arrivals, |arrivals|);
      assert arrivals[..|arrivals|] == arrivals;
      SettledIsSorted(th, arrivals);
    } else {
      var k, p :| 0 <= k < |arrivals| && p in Stream(th, arrivals[..k]).popped && arrivals[k].sn <= p.sn;
      StragglerIsLate(th, arrivals, k, p);
    }
  }

  lemma NoTiesBySn(s: seq<Inst>, t: seq<Inst>)
    requires DistinctSns(s) && multiset(t) <= multiset(s)
    ensures NoTies(SnLe, t)
  {
    DistinctRearranged(s, t);
    forall x, y | x in t && y in t && SnLe(x, y) && SnLe(y, x)
      ensures x == y
    {
      DistinctMembers(t, x, y);
    }
  }

  // ----- The bound cannot be relaxed -----

  function Numbered(sn: nat): Inst {
    Inst(sn, map[])
  }

  lemma {:induction false} NoOverflow(th: Thresholds, arrivals: seq<Inst>)
    requires |arrivals| <= th.max
    ensures Stream(th, arrivals) == Buffer(arrivals, [])
  {
    if arrivals != [] {
      assert arrivals == arrivals[..|arrivals| - 1] + [arrivals[|arrivals| - 1]];
      NoOverflow(th, arrivals[..|arrivals| - 1]);
    }
  }

  lemma FirstOverflow(th: Thresholds, arrivals: seq<Inst>)
    requires SortedBy(SnLe, arrivals) && |arrivals| == th.max + 1 && th.min <= th.max
    ensures Stream(th, arrivals).popped == arrivals[..th.max + 1 - th.min]
  {
    var front, last := arrivals[..th.max], arrivals[th.max];
    assert arrivals == front + [last];
    NoOverflow(th, front);
    StreamStep(th, front, last);
    SortOfSorted(SnLe, arrivals);
    FlushSorted(arrivals, th.min);
  }

  lemma FlushSorted(queue: seq<Inst>, lower: nat)
    requires SortBySn(queue) == queue && lower < |queue|
    ensures Flush(Buffer(queue, []), lower).popped == queue[..|queue| - lower]
  {
    assert [] + queue[..|queue| - lower] == queue[..|queue| - lower];
  }

  /** Even numbers until the queue overflows, then the number just below the last one popped. */
  ghost predicate LateByOne(th: Thresholds, evens: seq<Inst>, late: Inst) {
    && th.min <= th.max && |evens| == th.max + 1
    && (forall i :: 0 <= i < |evens| ==> evens[i].sn == 2 * (i + 1))
    && late.sn == 2 * (th.max + 1 - th.min) - 1
  }

  lemma LargerThanLate(th: Thresholds, evens: seq<Inst>, late: Inst)
    requires LateByOne(th, evens, late)
    ensures |LargerThan(evens, late.sn)| <= th.min + 1
  {
    var k := th.max - th.min;
    DistinctCount(evens[k..]);
    forall x | x in LargerThan(evens, late.sn)
      ensures x in Members(evens[k..])
    {
      var i :| 0 <= i < |evens| && evens[i] == x;
      assert evens[k..][i - k] == x;
    }
    SubsetCount(LargerThan(evens, late.sn), Members(evens[k..]));
  }

  lemma NoneLarger(th: Thresholds, evens: seq<Inst>, late: Inst, j: nat)
    requires LateByOne(th, evens, late) && j < |evens|
    ensures LargerThan(evens[..j], evens[j].sn) == {}
  {
  }

  lemma LateByOneDisorder(th: Thresholds, evens: seq<Inst>, late: Inst)
    requires LateByOne(th, evens, late)
    ensures DistinctSns(evens + [late]) && BoundedDisorder(evens + [late], th.min + 1)
  {
    var arrivals := evens + [late];
    assert arrivals[..|evens|] == evens;
    LargerThanLate(th, evens, late);
    forall j | 0 <= j < |evens|
      ensures LargerThan(arrivals[..j], arrivals[j].sn) == {}
    {
      NoneLarger(th, evens, late, j);
      assert arrivals[..j] == evens[..j];
    }
  }

  lemma LateByOneIsLate(th: Thresholds, evens: seq<Inst>, late: Inst)
    requires LateByOne(th, evens, late)
    ensures StreamedOrder(th, evens + [late]) != SortBySn(evens + [late])
  {
    LateByOneSorted(th, evens, late);
    FirstOverflow(th, evens);
    LateByOneDisorder(th, evens, late);
    var arrivals, popped := evens + [late], evens[..th.max + 1 - th.min];
    assert arrivals[..|evens|] == evens;
    StragglerIsLate(th, arrivals, |evens|, popped[|popped| - 1]);
  }

  lemma LateByOneSorted(th: Thresholds, evens: seq<Inst>, late: Inst)
    requires LateByOne(th, evens, late)
    ensures SortedBy(SnLe, evens) && |evens| == th.max + 1 && th.min <= th.max
    ensures var popped := evens[..th.max + 1 - th.min];
            popped != [] && late !in popped && late.sn < popped[|popped| - 1].sn
  {
  }

  /** Allowing one more than `min` overtaking instructions is already too much, for any thresholds. */
  lemma DisorderBoundIsTight(th: Thresholds) returns (arrivals: seq<Inst>)
    requires th.min <= th.max
    ensures DistinctSns(arrivals) && BoundedDisorder(arrivals, th.min + 1)
    ensures StreamedOrder(th, arrivals) != SortBySn(arrivals)
  {
    var evens := seq(th.max + 1, i requires 0 <= i => Numbered(2 * (i + 1)));
    assert forall i :: 0 <= i < |evens| ==> evens[i] == Numbered(2 * (i + 1));
    var late := Numbered(2 * (th.max + 1 - th.min) - 1);
    LateByOneDisorder(th, evens, late);
    LateByOneIsLate(th, evens, late);
    arrivals := evens + [late];
  }

  // ----- What is printed -----

  datatype Window = Window(snStart: int, snStop: int, tickStart: int, tickStop: int, onlyCommitted: bool)

  /** An instruction in the queue has been fetched and has reached its retire line. */
  predicate Recorded(inst: Inst) {
    Fetch in inst.ticks && Retire in inst.ticks
  }

  predicate Printed(w: Window, inst: Inst) {
    && Recorded(inst)
    && !(w.snStart > 0 && inst.sn < w.snStart)
    && !(w.snStop > 0 && inst.sn > w.snStop)
    && !(w.tickStart > 0 && inst.ticks[Fetch] < w.tickStart)
    && !(w.tickStop > 0 && inst.ticks[Fetch] > w.tickStop)
    && !(w.onlyCommitted && inst.ticks[Retire] == 0)
  }

  function Select(w: Window, s: seq<Inst>): seq<Inst> {
    if s == [] then []
    else Select(w, s[..|s| - 1]) + (if Printed(w, s[|s| - 1]) then [s[|s| - 1]] else [])
  }

  lemma {:induction false} SelectCounts(w: Window, s: seq<Inst>, x: Inst)
    ensures multiset(Select(w, s))[x] == if Printed(w, x) then multiset(s)[x] else 0
  {
    if s != [] {
      SelectCounts(w, s[..|s| - 1], x);
      assert s == s[..|s| - 1] + [s[|s| - 1]];
    }
  }

  lemma {:induction false} SelectAppend(w: Window, s: seq<Inst>, t: seq<Inst>)
    ensures Select(w, s + t) == Select(w, s) + Select(w, t)
  {
    if t == [] {
      assert s + t == s;
    } else {
      var front := t[..|t| - 1];
      SelectAppend(w, s, front);
      assert (s + t)[..|s + t| - 1] == s + front;
    }
  }

  lemma SelectOne(w: Window, s: seq<Inst>, item: Inst)
    ensures Select(w, s + [item]) == if Printed(w, item) then Select(w, s) + [item] else Select(w, s)
  {
    assert (s + [item])[..|s|] == s;
  }

  lemma {:induction false} SelectSorted(w: Window, s: seq<Inst>)
    requires SortedBy(SnLe, s)
    ensures SortedBy(SnLe, Select(w, s))
  {
    if s != [] {
      var front, last := s[..|s| - 1], s[|s| - 1];
      var kept := Select(w, front);
      assert Select(w, s) == if Printed(w, last) then kept + [last] else kept;
      SelectSorted(w, front);
      forall x | x in Select(w, front)
        ensures SnLe(x, last)
      {
        SelectCounts(w, front, x);
        assert x in multiset(Select(w, front));
        var i :| 0 <= i < |front| && front[i] == x;
        assert s[i] == x;
      }
    }
  }

  /**
   The printed stream, for any arrival order, is a rearrangement of the instructions in
   the window; with bounded disorder it is those instructions in order.
   */
  lemma {:induction false} PrintedStream(th: Thresholds, w: Window, arrivals: seq<Inst>)
    ensures multiset(Select(w, StreamedOrder(th, arrivals))) == multiset(Select(w, arrivals))
    ensures DistinctSns(arrivals) && BoundedDisorder(arrivals, th.min) ==>
              Select(w, StreamedOrder(th, arrivals)) == SortBySn(Select(w, arrivals))
  {
    StreamedIsPermutation(th, arrivals);
    SelectRearranged(w, StreamedOrder(th, arrivals), arrivals);
    if DistinctSns(arrivals) && BoundedDisorder(arrivals, th.min) {
      StreamedEqualsSorted(th, arrivals);
      SelectThenSort(w, arrivals);
    }
  }

  lemma SelectRearranged(w: Window, s: seq<Inst>, t: seq<Inst>)
    requires multiset(s) == multiset(t)
    ensures multiset(Select(w, s)) == multiset(Select(w, t))
  {
    forall x
      ensures multiset(Select(w, s))[x] == multiset(Select(w, t))[x]
    {
      SelectCounts(w, s, x);
      SelectCounts(w, t, x);
    }
  }

  lemma SelectThenSort(w: Window, s: seq<Inst>)
    requires DistinctSns(s)
    ensures Select(w, SortBySn(s)) == SortBySn(Select(w, s))
  {
    var a, b := Select(w, SortBySn(s)), SortBySn(Select(w, s));
    SnLeIsTotal();
    SortIsSorted(SnLe, s);
    SortKeepsElements(SnLe, s);
    SelectSorted(w, SortBySn(s));
    SelectRearranged(w, SortBySn(s), s);
    SortIsSorted(SnLe, Select(w, s));
    SortKeepsElements(SnLe, Select(w, s));
    assert multiset(a) <= multiset(s) by {
      forall x
        ensures multiset(a)[x] <= multiset(s)[x]
      {
        SelectCounts(w, SortBySn(s), x);
      }
    }
    NoTiesBySn(s, a);
    SortedUnique(SnLe, a, b);
  }

  // ----- The trace loop and the queue it fills -----

  /** A line of the trace: what `line.split(':')` is examined for. */
  datatype Line =
    | NotPipeView
    | FetchLine(tick: nat, sn: nat)
    | StageLine(stage: Stage, tick: nat)
    | RetireLine(tick: nat, storeTick: nat)

  datatype Options = Options(th: Thresholds, window: Window, tickDrift: nat, storeCompletions: bool)

  /** The test at a fetch line that ends the region of interest early. */
  predicate PastRegion(o: Options, tick: nat, sn: nat) {
    || (o.window.tickStop > 0 && tick > o.window.tickStop + o.tickDrift)
    || (o.window.snStop > 0 && sn > o.window.snStop + o.th.max)
  }

  /** How a line changes the instruction being assembled, which is never cleared between instructions. */
  function Assemble(o: Options, curr: Inst, line: Line): Inst {
    match line
    case NotPipeView => curr
    case FetchLine(tick, sn) => Inst(sn, curr.ticks[Fetch := tick])
    case StageLine(stage, tick) => curr.(ticks := curr.ticks[stage := tick])
    case RetireLine(tick, storeTick) =>
      var retired := curr.ticks[Retire := tick];
      curr.(ticks := if o.storeCompletions then retired[StoreComplete := storeTick] else retired)
  }

  /** What a line queues. */
  function Queued(line: Line, assembled: Inst): seq<Inst> {
    if line.RetireLine? then [assembled] else []
  }

  /** The instruction being assembled after a stretch of trace. */
  function Assembled(o: Options, lines: seq<Line>): Inst {
    if lines == [] then Inst(0, map[])
    else Assemble(o, Assembled(o, lines[..|lines| - 1]), lines[|lines| - 1])
  }

  /** The instructions a stretch of trace puts into the queue, in order. */
  function Arrivals(o: Options, lines: seq<Line>): seq<Inst> {
    if lines == [] then []
    else Arrivals(o, lines[..|lines| - 1]) + Queued(lines[|lines| - 1], Assembled(o, lines))
  }

  /** From a fetch line on, every queued instruction has the ticks the filter looks up. */
  lemma {:induction false} ArrivalsRecorded(o: Options, lines: seq<Line>)
    requires lines != [] && lines[0].FetchLine?
    ensures Fetch in Assembled(o, lines).ticks
    ensures forall inst :: inst in Arrivals(o, lines) ==> Recorded(inst)
  {
    if |lines| > 1 {
      ArrivalsRecorded(o, lines[..|lines| - 1]);
    }
  }

  /** A line of trace records `tick` for `stage`. */
  ghost predicate Records(o: Options, line: Line, stage: Stage, tick: nat) {
    || (line.FetchLine? && stage == Fetch && tick == line.tick)
    || (line.StageLine? && stage == line.stage && tick == line.tick)
    || (line.RetireLine? && stage == Retire && tick == line.tick)
    || (line.RetireLine? && o.storeCompletions && stage == StoreComplete && tick == line.storeTick)
  }

  /** The last line that records something for `stage` is number `k`. */
  ghost predicate LastRecord(o: Options, lines: seq<Line>, stage: Stage, k: int, tick: nat) {
    && 0 <= k < |lines| && Records(o, lines[k], stage, tick)
    && forall j, t :: k < j < |lines| ==> !Records(o, lines[j], stage, t)
  }

  lemma {:induction false} LastRecordExists(o: Options, lines: seq<Line>, stage: Stage) returns (k: int, tick: nat)
    requires stage in Assembled(o, lines).ticks
    ensures LastRecord(o, lines, stage, k, tick) && Assembled(o, lines).ticks[stage] == tick
  {
    var n := |lines| - 1;
    if t: nat :| Records(o, lines[n], stage, t) {
      k, tick := n, t;
    } else {
      NotRecorded(o, Assembled(o, lines[..n]), lines[n], stage);
      k, tick := LastRecordExists(o, lines[..n], stage);
    }
  }

  /** A stage has the tick of the last line that records one for it, however long ago, or none. */
  lemma AssembledExactly(o: Options, lines: seq<Line>, stage: Stage, tick: nat)
    ensures stage in Assembled(o, lines).ticks && Assembled(o, lines).ticks[stage] == tick <==>
            exists k :: LastRecord(o, lines, stage, k, tick)
  {
    if stage in Assembled(o, lines).ticks {
      var k, t := LastRecordExists(o, lines, stage);
      assert LastRecord(o, lines, stage, k, t);
    }
    if k :| LastRecord(o, lines, stage, k, tick) {
      RecordStays(o, lines, stage, k, tick);
    }
  }

  lemma {:induction false} RecordStays(o: Options, lines: seq<Line>, stage: Stage, k: int, tick: nat)
    requires LastRecord(o, lines, stage, k, tick)
    ensures stage in Assembled(o, lines).ticks && Assembled(o, lines).ticks[stage] == tick
  {
    var n := |lines| - 1;
    if k < n {
      assert forall t :: !Records(o, lines[n], stage, t);
      RecordStays(o, lines[..n], stage, k, tick);
      NotRecorded(o, Assembled(o, lines[..n]), lines[n], stage);
    }
  }

  lemma NotRecorded(o: Options, curr: Inst, line: Line, stage: Stage)
    requires forall t :: !Records(o, line, stage, t)
    ensures var next := Assemble(o, curr, line);
            (stage in next.ticks <==> stage in curr.ticks) && (stage in curr.ticks ==> next.ticks[stage] == curr.ticks[stage])
  {
    match line
    case NotPipeView =>
    case FetchLine(tick, sn) => assert stage == Fetch ==> Records(o, line, stage, tick);
    case StageLine(s, tick) => assert stage == s ==> Records(o, line, stage, tick);
    case RetireLine(tick, storeTick) =>
      assert stage == Retire ==> Records(o, line, stage, tick);
      assert stage == StoreComplete && o.storeCompletions ==> Records(o, line, stage, storeTick);
  }

  predicate LeavesRegion(o: Options, line: Line) {
    line.FetchLine? && PastRegion(o, line.tick, line.sn)
  }

  /** The first line from `i` on that lies past the region of interest, or the end of the trace. */
  function RegionEnd(o: Options, lines: seq<Line>, i: nat): (end: nat)
    requires i <= |lines|
    ensures i <= end <= |lines| && (end < |lines| ==> LeavesRegion(o, lines[end]))
    ensures forall j :: i <= j < end ==> !LeavesRegion(o, lines[j])
    decreases |lines| - i
  {
    if i == |lines| || LeavesRegion(o, lines[i]) then i else RegionEnd(o, lines, i + 1)
  }

  /** Unless the trace is too far out of order, `output` is what sorting all of it at once gives. */
  ghost predicate InOrderIfBounded(o: Options, arrivals: seq<Inst>, output: seq<Inst>) {
    DistinctSns(arrivals) && BoundedDisorder(arrivals, o.th.min) ==> output == SortBySn(Select(o.window, arrivals))
  }

  lemma OutputInOrder(o: Options, arrivals: seq<Inst>)
    ensures InOrderIfBounded(o, arrivals, Select(o.window, StreamedOrder(o.th, arrivals)))
  {
    PrintedStream(o.th, o.window, arrivals);
  }

  /** Within each bound that is set, and committed if only those are asked for. */
  ghost predicate Shown(w: Window, inst: Inst) {
    && (0 < w.snStart ==> w.snStart <= inst.sn)
    && (0 < w.snStop ==> inst.sn <= w.snStop)
    && (0 < w.tickStart ==> Fetch in inst.ticks && w.tickStart <= inst.ticks[Fetch])
    && (0 < w.tickStop ==> Fetch in inst.ticks && inst.ticks[Fetch] <= w.tickStop)
    && (w.onlyCommitted ==> Retire in inst.ticks && inst.ticks[Retire] > 0)
  }

  lemma OutputShown(w: Window, popped: seq<Inst>)
    ensures forall inst :: inst in Select(w, popped) ==> Recorded(inst) && Shown(w, inst)
  {
    forall inst | inst in Select(w, popped)
      ensures Recorded(inst) && Shown(w, inst)
    {
      SelectCounts(w, popped, inst);
      assert multiset(Select(w, popped))[inst] > 0;
    }
  }

  /** Everything recorded that the bounds admit is printed, as often as it arrives. */
  lemma OutputComplete(o: Options, arrivals: seq<Inst>)
    requires forall inst :: inst in arrivals ==> Recorded(inst)
    ensures forall inst :: inst in arrivals && Shown(o.window, inst) ==>
              multiset(Select(o.window, StreamedOrder(o.th, arrivals)))[inst] == multiset(arrivals)[inst]
  {
    PrintedStream(o.th, o.window, arrivals);
    forall inst | inst in arrivals && Shown(o.window, inst)
      ensures multiset(Select(o.window, StreamedOrder(o.th, arrivals)))[inst] == multiset(arrivals)[inst]
    {
      SelectCounts(o.window, arrivals, inst);
    }
  }

  lemma RegionCrash(o: Options, lines: seq<Line>)
    ensures RegionEnd(o, lines, 0) < |lines| <==>
            exists i :: 0 <= i < |lines| && lines[i].FetchLine?
              && (|| (o.window.tickStop > 0 && lines[i].tick > o.window.tickStop + o.tickDrift)
                  || (o.window.snStop > 0 && lines[i].sn > o.window.snStop + o.th.max))
  {
    var end := RegionEnd(o, lines, 0);
    if end < |lines| {
      assert LeavesRegion(o, lines[end]);
    } else {
      assert forall i :: 0 <= i < |lines| ==> !LeavesRegion(o, lines[i]);
    }
  }

  lemma PoppedOne(before: seq<Inst>, sorted: seq<Inst>, k: nat)
    requires k < |sorted|
    ensures sorted[k..][0] == sorted[k] && sorted[k..][1..] == sorted[k + 1..]
    ensures before + sorted[..k] + [sorted[k]] == before + sorted[..k + 1]
  {
  }

  class Pipeview {
    var queue: seq<Inst>
    /** The instructions handed to `print_inst`. */
    var output: seq<Inst>
    const o: Options
    ghost var popped: seq<Inst>

    constructor (o: Options)
      ensures this.o == o && queue == [] && output == [] && popped == []
    {
      this.o := o;
      queue, output, popped := [], [], [];
    }

    ghost predicate Valid()
      reads this
    {
      output == Select(o.window, popped)
    }

    ghost function AsBuffer(): Buffer
      reads this
    {
      Buffer(queue, popped)
    }

    method PrintInsts(lower: nat)
      requires Valid()
      modifies this
      ensures Valid() && AsBuffer() == Flush(old(AsBuffer()), lower)
    {
      queue := SortBySn(queue);
      ghost var sorted, before := queue, popped;
      ghost var k := 0;
      while |queue| > lower
        invariant 0 <= k <= |sorted| && queue == sorted[k..] && popped == before + sorted[..k]
        invariant k == 0 || |queue| >= lower
        invariant Valid()
        decreases |queue|
      {
        PoppedOne(before, sorted, k);
        PopOne();
        k := k + 1;
      }
    }

    method PopOne()
      requires Valid() && queue != []
      modifies this
      ensures Valid() && queue == old(queue)[1..] && popped == old(popped) + [old(queue)[0]]
    {
      var item := queue[0];
      SelectOne(o.window, popped, item);
      queue := queue[1..];
      popped := popped + [item];
      PrintItem(item);
    }

    /** Prints an instruction unless it resides out of the specified boundaries. */
    method PrintItem(item: Inst)
      modifies this`output
      ensures output == if Printed(o.window, item) then old(output) + [item] else old(output)
    {
      if Fetch !in item.ticks || Retire !in item.ticks {
        return;
      }
      if o.window.snStart > 0 && item.sn < o.window.snStart {
        return;
      }
      if o.window.snStop > 0 && item.sn > o.window.snStop {
        return;
      }
      if o.window.tickStart > 0 && item.ticks[Fetch] < o.window.tickStart {
        return;
      }
      if o.window.tickStop > 0 && item.ticks[Fetch] > o.window.tickStop {
        return;
      }
      if o.window.onlyCommitted && item.ticks[Retire] == 0 {
        return;
      }
      output := output + [item];
    }

    /** The queue is longest just before it is flushed. */
    method QueueInst(inst: Inst)
      requires Valid() && |queue| <= o.th.max && o.th.min <= o.th.max
      modifies this
      ensures Valid() && AsBuffer() == Arrive(o.th, old(AsBuffer()), inst)
      ensures |queue| <= o.th.max
    {
      queue := queue + [inst];
      assert |queue| <= o.th.max + 1;
      if |queue| > o.th.max {
        FlushKeepsElements(AsBuffer(), o.th.min);
        PrintInsts(o.th.min);
      }
    }

    method ProcessLine(curr: Inst, line: Line, ghost arrivals: seq<Inst>) returns (next: Inst)
      requires Valid() && |queue| <= o.th.max && o.th.min <= o.th.max && AsBuffer() == Stream(o.th, arrivals)
      modifies this
      ensures next == Assemble(o, curr, line)
      ensures Valid() && |queue| <= o.th.max && AsBuffer() == Stream(o.th, arrivals + Queued(line, next))
    {
      next := curr;
      match line {
        case NotPipeView =>
        case FetchLine(tick, sn) =>
          next := Inst(sn, next.ticks[Fetch := tick]);
        case StageLine(stage, tick) =>
          next := next.(ticks := next.ticks[stage := tick]);
        case RetireLine(tick, storeTick) =>
          next := next.(ticks := next.ticks[Retire := tick]);
          if o.storeCompletions {
            next := next.(ticks := next.ticks[StoreComplete := storeTick]);
          }
          StreamStep(o.th, arrivals, next);
          QueueInst(next);
      }
      assert arrivals + [] == arrivals;
    }

    /**
     The region-of-interest loop, from a fetch line on. Leaving the region calls `print_insts`
     without its last argument, which raises TypeError: `crashed`, and what is queued is lost.
     Otherwise the end of input flushes the queue.
     */
    method ProcessRegion(lines: seq<Line>) returns (crashed: bool)
      requires Valid() && queue == [] && popped == [] && o.th.min <= o.th.max
      requires lines != [] && lines[0].FetchLine?
      modifies this
      ensures crashed <==>
                exists i :: 0 <= i < |lines| && lines[i].FetchLine?
                  && (|| (o.window.tickStop > 0 && lines[i].tick > o.window.tickStop + o.tickDrift)
                      || (o.window.snStop > 0 && lines[i].sn > o.window.snStop + o.th.max))
      ensures crashed <==> RegionEnd(o, lines, 0) < |lines|
      ensures crashed ==> output == Select(o.window, Stream(o.th, Arrivals(o, lines[..RegionEnd(o, lines, 0)])).popped)
      ensures !crashed ==> output == Select(o.window, StreamedOrder(o.th, Arrivals(o, lines)))
      ensures !crashed ==> InOrderIfBounded(o, Arrivals(o, lines), output)
      ensures forall inst :: inst in output ==> Recorded(inst) && Shown(o.window, inst)
      ensures !crashed ==>
                forall inst :: inst in Arrivals(o, lines) && Shown(o.window, inst) ==>
                  multiset(output)[inst] == multiset(Arrivals(o, lines))[inst]
    {
      crashed := ReadRegion(lines);
      if !crashed {
        PrintInsts(0);
      }
      RegionCrash(o, lines);
      OutputShown(o.window, popped);
      ArrivalsRecorded(o, lines);
      OutputComplete(o, Arrivals(o, lines));
      OutputInOrder(o, Arrivals(o, lines));
    }

    /** Reads the lines up to the first that lies past the region, if there is one. */
    method ReadRegion(lines: seq<Line>) returns (crashed: bool)
      requires Valid() && queue == [] && popped == [] && o.th.min <= o.th.max
      modifies this
      ensures Valid() && (crashed <==> RegionEnd(o, lines, 0) < |lines|)
      ensures AsBuffer() == Stream(o.th, Arrivals(o, lines[..RegionEnd(o, lines, 0)]))
      ensures !crashed ==> AsBuffer() == Stream(o.th, Arrivals(o, lines))
    {
      var curr := Inst(0, map[]);
      var i := 0;
      while i < |lines|
        invariant i <= |lines| && RegionEnd(o, lines, 0) == RegionEnd(o, lines, i)
        invariant curr == Assembled(o, lines[..i])
        invariant Valid() && |queue| <= o.th.max && AsBuffer() == Stream(o.th, Arrivals(o, lines[..i]))
      {
        if lines[i].FetchLine? {
          var tick, sn := lines[i].tick, lines[i].sn;
          if (o.window.tickStop > 0 && tick > o.window.tickStop + o.tickDrift)
             || (o.window.snStop > 0 && sn > o.window.snStop + o.th.max) {
            return true;
          }
        }
        assert lines[..i + 1][..i] == lines[..i];
        curr := ProcessLine(curr, lines[i], Arrivals(o, lines[..i]));
        i := i + 1;
      }
      assert lines[..|lines|] == lines;
      return false;
    }
  }

  /** A trace whose one instruction lies in the window, is queued, and is lost when the region ends. */
  lemma LeavingRegionLoses()
    ensures var o := Options(Thresholds(2000, 1000), Window(0, 0, 0, 10, false), 0, false);
            var lines := [FetchLine(1, 1), RetireLine(5, 0), FetchLine(11, 2)];
            && RegionEnd(o, lines, 0) == 2
            && |Select(o.window, Arrivals(o, lines[..2]))| == 1
            && Stream(o.th, Arrivals(o, lines[..2])).popped == []
  {
    var o := Options(Thresholds(2000, 1000), Window(0, 0, 0, 10, false), 0, false);
    var lines := [FetchLine(1, 1), RetireLine(5, 0), FetchLine(11, 2)];
    assert !LeavesRegion(o, lines[0]) && !LeavesRegion(o, lines[1]) && LeavesRegion(o, lines[2]);
    assert lines[..2][..1] == lines[..1] && lines[..1][..0] == [];
    var inst := Assembled(o, lines[..2]);
    assert Arrivals(o, lines[..1]) == [];
    assert Arrivals(o, lines[..2]) == [] + [inst];
    assert Printed(o.window, inst) && [inst][..0] == [];
    NoOverflow(o.th, [inst]);
  }
}
