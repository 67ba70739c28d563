/**
 `aggregate` of `util/checkpoint_aggregator.py`: merging the memories of several checkpoints
 into one and relocating the physical addresses in their page tables accordingly.
 */
module CheckpointAggregator {
  import opened Wrappers
  import opened SectionNames
  import Text

  const PAGE: nat := 4096

  /** The padding is `"".zfill(4096)`: the character '0', not a zero byte. */
  const PAD: byte := 48

  datatype Kind = Cpu | SystemSection | GlobalsSection | Other

  /** A section of `m5.cpt`; `paddr` is kept apart from the other items, and so is the `curTick` of "Globals". */
  datatype Section = Section(name: string, paddr: Option<int>, curTick: nat, items: map<string, string>) {
    function Kind(): Kind {
      if HasCpu(name) then Cpu
      else if name == "system" then SystemSection
      else if name == "Globals" then GlobalsSection
      else Other
    }

    /** The name matches `workload.FdMap256$`. */
    predicate IsFdMap() {
      var n := |name|;
      n >= 17 && name[n - 17..n - 9] == "workload" && name[n - 8..] == "FdMap256"
    }
  }

  /** A checkpoint directory: its sections, the page count of its system section and its memory. */
  datatype Checkpoint = Checkpoint(sections: seq<Section>, pages: nat, image: seq<byte>)

  /** A section of the merged configuration; `pid` is the `M5_pid` added to it. */
  datatype OutSection = OutSection(name: string, paddr: Option<int>, items: map<string, string>, pid: Option<nat>)

  // ----- Memory -----

  function Pages(cpts: seq<Checkpoint>): nat {
    if cpts == [] then 0 else Pages(cpts[..|cpts| - 1]) + cpts[|cpts| - 1].pages
  }

  /** What is added to the physical addresses of checkpoint `i`. */
  function Offset(cpts: seq<Checkpoint>, i: nat): nat
    requires i <= |cpts|
  {
    Pages(cpts[..i]) * PAGE
  }

  predicate Full(c: Checkpoint) {
    |c.image| >= c.pages * PAGE
  }

  /** What reading `pages` pages of an image yields. */
  function Copied(image: seq<byte>, pages: nat): seq<byte> {
    if |image| >= pages * PAGE then image[..pages * PAGE] else image
  }

  function Memory(cpts: seq<Checkpoint>): seq<byte> {
    if cpts == [] then []
    else Memory(cpts[..|cpts| - 1]) + Copied(cpts[|cpts| - 1].image, cpts[|cpts| - 1].pages)
  }

  /** The images before checkpoint `i` end at its offset exactly when all of them are full. */
  lemma {:induction false} PlacedExactly(cpts: seq<Checkpoint>, i: nat)
    requires i <= |cpts|
    ensures |Memory(cpts[..i])| <= Offset(cpts, i)
    ensures |Memory(cpts[..i])| == Offset(cpts, i) <==> forall j :: 0 <= j < i ==> Full(cpts[j])
  {
    if i > 0 {
      assert cpts[..i][..i - 1] == cpts[..i - 1];
      PlacedExactly(cpts, i - 1);
      PagesTimes(Pages(cpts[..i - 1]), cpts[i - 1].pages);
    }
  }

  lemma PagesTimes(a: nat, b: nat)
    ensures (a + b) * PAGE == a * PAGE + b * PAGE
  {
  }

  lemma {:induction false} MemoryPrefix(cpts: seq<Checkpoint>, i: nat)
    requires i <= |cpts|
    ensures Memory(cpts[..i]) <= Memory(cpts)
  {
    if i < |cpts| {
      var front := cpts[..|cpts| - 1];
      MemoryPrefix(front, i);
      assert front[..i] == cpts[..i];
    } else {
      assert cpts[..i] == cpts;
    }
  }

  /** Byte `p` of checkpoint `i` is found where the relocated address `p + Offset` points. */
  lemma ByteRelocated(cpts: seq<Checkpoint>, i: nat, p: nat)
    requires i < |cpts| && (forall j :: 0 <= j < i ==> Full(cpts[j])) && Full(cpts[i]) && p < cpts[i].pages * PAGE
    ensures p + Offset(cpts, i) < |Memory(cpts)| && Memory(cpts)[p + Offset(cpts, i)] == cpts[i].image[p]
  {
    PlacedExactly(cpts, i);
    MemoryPrefix(cpts, i + 1);
    MemorySplit(cpts, i);
    ByteInSecond(Memory(cpts[..i]), Copied(cpts[i].image, cpts[i].pages), Memory(cpts), p);
  }

  lemma MemorySplit(cpts: seq<Checkpoint>, i: nat)
    requires i < |cpts|
    ensures Memory(cpts[..i + 1]) == Memory(cpts[..i]) + Copied(cpts[i].image, cpts[i].pages)
  {
    assert cpts[..i + 1][..i] == cpts[..i];
  }

  lemma ByteInSecond(a: seq<byte>, b: seq<byte>, whole: seq<byte>, p: nat)
    requires a + b <= whole && p < |b|
    ensures p + |a| < |whole| && whole[p + |a|] == b[p]
  {
    assert whole[p + |a|] == (a + b)[p + |a|];
  }

  /** No two checkpoints are given the same address. */
  lemma {:induction false} OffsetsDisjoint(cpts: seq<Checkpoint>, i: nat, j: nat)
    requires i < j <= |cpts|
    ensures Offset(cpts, i) + cpts[i].pages * PAGE <= Offset(cpts, j)
  {
    assert cpts[..j][..j - 1] == cpts[..j - 1];
    PagesTimes(Pages(cpts[..j - 1]), cpts[j - 1].pages);
    if i < j - 1 {
      OffsetsDisjoint(cpts, i, j - 1);
    }
  }

  // ----- Configuration -----

  /** The sections written for checkpoint `i` out of `n`, with its addresses moved by `offset`. */
  function Relocated(s: Section, i: nat, n: nat, offset: nat): seq<OutSection>
    requires i < n
  {
    match s.Kind()
    case Cpu =>
      [OutSection(Renamed(s.name, i, n), if s.paddr.Some? then Some(s.paddr.value + offset) else None, s.items,
                  if s.IsFdMap() then Some(i) else None)]
    case Other => if i + 1 == n then [OutSection(s.name, s.paddr, s.items, None)] else []
    case _ => []
  }

  function RelocatedAll(sections: seq<Section>, i: nat, n: nat, offset: nat): seq<OutSection>
    requires i < n
  {
    if sections == [] then []
    else RelocatedAll(sections[..|sections| - 1], i, n, offset) + Relocated(sections[|sections| - 1], i, n, offset)
  }

  function Config(cpts: seq<Checkpoint>, n: nat): seq<OutSection>
    requires |cpts| <= n
  {
    if cpts == [] then []
    else
      var i := |cpts| - 1;
      Config(cpts[..i], n) + RelocatedAll(cpts[i].sections, i, n, Offset(cpts, i))
  }

  function MaxTick(ticks: seq<Section>, least: nat): nat {
    if ticks == [] then least
    else
      var t := MaxTick(ticks[..|ticks| - 1], least);
      var last := ticks[|ticks| - 1];
      if last.Kind().GlobalsSection? && last.curTick > t then last.curTick else t
  }

  lemma {:induction false} RelocatedSections(sections: seq<Section>, i: nat, n: nat, offset: nat, s: Section, o: OutSection)
    requires i < n && s in sections && o in Relocated(s, i, n, offset)
    ensures o in RelocatedAll(sections, i, n, offset)
  {
    if s != sections[|sections| - 1] {
      RelocatedSections(sections[..|sections| - 1], i, n, offset, s, o);
    }
  }

  lemma SameOffset(cpts: seq<Checkpoint>, last: nat, i: nat)
    requires i <= last <= |cpts|
    ensures Offset(cpts[..last], i) == Offset(cpts, i)
  {
    assert cpts[..last][..i] == cpts[..i];
  }

  lemma {:induction false} ConfigHolds(cpts: seq<Checkpoint>, n: nat, i: nat, s: Section, o: OutSection)
    requires i < |cpts| <= n && s in cpts[i].sections && o in Relocated(s, i, n, Offset(cpts, i))
    ensures o in Config(cpts, n)
  {
    var last := |cpts| - 1;
    if i == last {
      RelocatedSections(cpts[i].sections, i, n, Offset(cpts, i), s, o);
    } else {
      SameOffset(cpts, last, i);
      ConfigHolds(cpts[..last], n, i, s, o);
    }
  }

  /**
   Every page-table entry of every processor is in the merged configuration under its
   checkpoint's number, and points at the byte it pointed at before.
   */
  lemma EntriesStillPointHome(cpts: seq<Checkpoint>, i: nat, s: Section)
    requires i < |cpts| && (forall j :: 0 <= j < i ==> Full(cpts[j])) && Full(cpts[i])
    requires s in cpts[i].sections && s.Kind().Cpu?
    requires s.paddr.Some? && 0 <= s.paddr.value < cpts[i].pages * PAGE
    ensures exists o :: o in Config(cpts, |cpts|) && PointsHome(cpts, i, s, o)
  {
    var o := EntryWritten(cpts, i, s);
    MovedPointsHome(cpts, i, s, o);
  }

  lemma EntryWritten(cpts: seq<Checkpoint>, i: nat, s: Section) returns (o: OutSection)
    requires i < |cpts| && s in cpts[i].sections && s.Kind().Cpu? && s.paddr.Some?
    ensures o in Config(cpts, |cpts|)
    ensures o.name == Renamed(s.name, i, |cpts|) && o.items == s.items && o.paddr == Some(s.paddr.value + Offset(cpts, i))
  {
    o := RelocatedEntry(s, i, |cpts|, Offset(cpts, i));
    ConfigHolds(cpts, |cpts|, i, s, o);
  }

  lemma RelocatedEntry(s: Section, i: nat, n: nat, offset: nat) returns (o: OutSection)
    requires i < n && s.Kind().Cpu? && s.paddr.Some?
    ensures o in Relocated(s, i, n, offset)
    ensures o.name == Renamed(s.name, i, n) && o.items == s.items && o.paddr == Some(s.paddr.value + offset)
  {
    o := Relocated(s, i, n, offset)[0];
  }

  lemma MovedPointsHome(cpts: seq<Checkpoint>, i: nat, s: Section, o: OutSection)
    requires i < |cpts| && (forall j :: 0 <= j < i ==> Full(cpts[j])) && Full(cpts[i])
    requires s.paddr.Some? && 0 <= s.paddr.value < cpts[i].pages * PAGE
    requires o.name == Renamed(s.name, i, |cpts|) && o.items == s.items && o.paddr == Some(s.paddr.value + Offset(cpts, i))
    ensures PointsHome(cpts, i, s, o)
  {
    ByteRelocated(cpts, i, s.paddr.value);
  }

  /** `o` is section `s` of checkpoint `i`, and its entry holds the byte that of `s` held. */
  ghost predicate PointsHome(cpts: seq<Checkpoint>, i: nat, s: Section, o: OutSection)
    requires i < |cpts|
  {
    && o.name == Renamed(s.name, i, |cpts|) && o.items == s.items
    && s.paddr.Some? && 0 <= s.paddr.value < |cpts[i].image|
    && o.paddr.Some? && 0 <= o.paddr.value < |Memory(cpts)|
    && Memory(cpts)[o.paddr.value] == cpts[i].image[s.paddr.value]
  }

  // ----- What the merged configuration holds -----

  /** The copy of a processor's section of checkpoint `i`. */
  ghost predicate IsCpuCopy(cpts: seq<Checkpoint>, i: nat, s: Section, o: OutSection)
    requires i < |cpts|
  {
    && HasCpu(s.name) && o.name == Renamed(s.name, i, |cpts|) && o.items == s.items
    && (s.paddr.None? ==> o.paddr.None?)
    && (s.paddr.Some? ==> o.paddr == Some(s.paddr.value + 4096 * Pages(cpts[..i])))
    && (EndsInFdMap(s.name) ==> o.pid == Some(i))
    && (!EndsInFdMap(s.name) ==> o.pid == None)
  }

  ghost predicate EndsInFdMap(name: string) {
    exists before: string, any: char :: name == before + "workload" + [any] + "FdMap256"
  }

  lemma FdMapExactly(s: Section)
    ensures s.IsFdMap() <==> EndsInFdMap(s.name)
  {
    var name, n := s.name, |s.name|;
    if s.IsFdMap() {
      assert name == name[..n - 17] + "workload" + [name[n - 9]] + "FdMap256";
    }
    if before: string, any: char :| name == before + "workload" + [any] + "FdMap256" {
      assert |before| == n - 17;
      assert name[n - 17..n - 9] == "workload" && name[n - 8..] == "FdMap256";
    }
  }

  /** The copy of another section, which only the last checkpoint contributes. */
  ghost predicate IsPlainCopy(cpts: seq<Checkpoint>, i: nat, s: Section, o: OutSection) {
    && i == |cpts| - 1 && !HasCpu(s.name) && s.name != "system" && s.name != "Globals"
    && o.name == s.name && o.paddr == s.paddr && o.items == s.items && o.pid == None
  }

  ghost predicate CopiedFrom(cpts: seq<Checkpoint>, i: int, s: Section, o: OutSection) {
    0 <= i < |cpts| && s in cpts[i].sections && (IsCpuCopy(cpts, i, s, o) || IsPlainCopy(cpts, i, s, o))
  }

  lemma RelocatedExactly(cpts: seq<Checkpoint>, i: nat, s: Section, o: OutSection)
    requires i < |cpts|
    ensures o in Relocated(s, i, |cpts|, Offset(cpts, i)) <==> IsCpuCopy(cpts, i, s, o) || IsPlainCopy(cpts, i, s, o)
  {
    FdMapExactly(s);
  }

  lemma {:induction false} RelocatedAllFrom(sections: seq<Section>, i: nat, n: nat, offset: nat, o: OutSection) returns (s: Section)
    requires i < n && o in RelocatedAll(sections, i, n, offset)
    ensures s in sections && o in Relocated(s, i, n, offset)
  {
    var last := |sections| - 1;
    s := sections[last];
    if o !in Relocated(s, i, n, offset) {
      s := RelocatedAllFrom(sections[..last], i, n, offset, o);
    }
  }

  lemma {:induction false} ConfigFrom(cpts: seq<Checkpoint>, n: nat, o: OutSection) returns (i: nat, s: Section)
    requires |cpts| <= n && o in Config(cpts, n)
    ensures i < |cpts| && s in cpts[i].sections && o in Relocated(s, i, n, Offset(cpts, i))
  {
    var last := |cpts| - 1;
    if o in Config(cpts[..last], n) {
      i, s := ConfigFrom(cpts[..last], n, o);
      SameOffset(cpts, last, i);
    } else {
      i := last;
      s := RelocatedAllFrom(cpts[last].sections, last, n, Offset(cpts, last), o);
    }
  }

  /** The merged configuration holds the copies of the sections and nothing else. */
  lemma ConfigExactly(cpts: seq<Checkpoint>, o: OutSection)
    ensures o in Config(cpts, |cpts|) <==> exists i, s :: CopiedFrom(cpts, i, s, o)
  {
    if o in Config(cpts, |cpts|) {
      var i, s := ConfigFrom(cpts, |cpts|, o);
      RelocatedExactly(cpts, i, s, o);
      assert CopiedFrom(cpts, i, s, o);
    }
    if i, s :| CopiedFrom(cpts, i, s, o) {
      RelocatedExactly(cpts, i, s, o);
      ConfigHolds(cpts, |cpts|, i, s, o);
    }
  }

  // ----- No two sections of the merged configuration have the same name -----

  /** A section called `name` in checkpoint `i` is written under the name `written`. */
  predicate WrittenAs(name: string, i: nat, n: nat, written: string)
    requires i < n
  {
    if HasCpu(name) then written == Renamed(name, i, n)
    else i + 1 == n && written == name && name != "system" && name != "Globals"
  }

  lemma WrittenOnce(s: string, i: nat, t: string, j: nat, n: nat, written: string)
    requires i < n && j < n && WrittenAs(s, i, n, written) && WrittenAs(t, j, n, written)
    ensures s == t && i == j
  {
    if HasCpu(s) && HasCpu(t) {
      RenamedInjective(s, i, t, j, n);
    } else if HasCpu(s) || HasCpu(t) {
      var name, k := if HasCpu(s) then s else t, if HasCpu(s) then i else j;
      HasCpuKept(name, ZeroFill(Text.Decimal(k), |Text.Decimal(n - 1)|));
    }
  }

  ghost predicate FromSection(sections: seq<Section>, i: nat, n: nat, written: string)
    requires i < n
  {
    exists s :: s in sections && WrittenAs(s.name, i, n, written)
  }

  lemma {:induction false} OutComesFrom(sections: seq<Section>, i: nat, n: nat, offset: nat, o: OutSection)
    requires i < n && o in RelocatedAll(sections, i, n, offset)
    ensures FromSection(sections, i, n, o.name)
  {
    var front, last := sections[..|sections| - 1], sections[|sections| - 1];
    if o in RelocatedAll(front, i, n, offset) {
      OutComesFrom(front, i, n, offset, o);
      var s :| s in front && WrittenAs(s.name, i, n, o.name);
      assert s in sections;
    } else {
      assert WrittenAs(last.name, i, n, o.name);
    }
  }

  ghost predicate DistinctSections(sections: seq<Section>) {
    forall j, k :: 0 <= j < k < |sections| ==> sections[j].name != sections[k].name
  }

  ghost predicate DistinctNames(out: seq<OutSection>) {
    forall j, k :: 0 <= j < k < |out| ==> out[j].name != out[k].name
  }

  lemma DistinctAppend(a: seq<OutSection>, b: seq<OutSection>)
    requires DistinctNames(a) && DistinctNames(b) && forall x, y :: x in a && y in b ==> x.name != y.name
    ensures DistinctNames(a + b)
  {
  }

  lemma {:induction false} SectionsDistinct(sections: seq<Section>, i: nat, n: nat, offset: nat)
    requires i < n && DistinctSections(sections)
    ensures DistinctNames(RelocatedAll(sections, i, n, offset))
  {
    if sections != [] {
      var front, last := sections[..|sections| - 1], sections[|sections| - 1];
      SectionsDistinct(front, i, n, offset);
      forall x, y | x in RelocatedAll(front, i, n, offset) && y in Relocated(last, i, n, offset)
        ensures x.name != y.name
      {
        OutComesFrom(front, i, n, offset, x);
        var s :| s in front && WrittenAs(s.name, i, n, x.name);
        if x.name == y.name {
          WrittenOnce(s.name, i, last.name, i, n, x.name);
        }
      }
      DistinctAppend(RelocatedAll(front, i, n, offset), Relocated(last, i, n, offset));
    }
  }

  ghost predicate FromCheckpoint(cpts: seq<Checkpoint>, i: int, n: nat, written: string)
    requires |cpts| <= n
  {
    0 <= i < |cpts| && FromSection(cpts[i].sections, i, n, written)
  }

  lemma {:induction false} ConfigComesFrom(cpts: seq<Checkpoint>, n: nat, o: OutSection)
    requires |cpts| <= n && o in Config(cpts, n)
    ensures exists i :: FromCheckpoint(cpts, i, n, o.name)
  {
    var last := |cpts| - 1;
    if o in Config(cpts[..last], n) {
      ConfigComesFrom(cpts[..last], n, o);
      var i :| FromCheckpoint(cpts[..last], i, n, o.name);
      assert FromCheckpoint(cpts, i, n, o.name);
    } else {
      OutComesFrom(cpts[last].sections, last, n, Offset(cpts, last), o);
      assert FromCheckpoint(cpts, last, n, o.name);
    }
  }

  lemma CheckpointsApart(cpts: seq<Checkpoint>, n: nat, x: OutSection, y: OutSection)
    requires cpts != [] && |cpts| <= n && x in Config(cpts[..|cpts| - 1], n)
    requires FromSection(cpts[|cpts| - 1].sections, |cpts| - 1, n, y.name)
    ensures x.name != y.name
  {
    var last := |cpts| - 1;
    ConfigComesFrom(cpts[..last], n, x);
    var i :| FromCheckpoint(cpts[..last], i, n, x.name);
    var s :| s in cpts[i].sections && WrittenAs(s.name, i, n, x.name);
    var t :| t in cpts[last].sections && WrittenAs(t.name, last, n, y.name);
    if x.name == y.name {
      WrittenOnce(s.name, i, t.name, last, n, x.name);
    }
  }

  /**
   The merged configuration names each section once, and none of them "system" or "Globals",
   which the script adds at the end: renaming never makes two sections collide.
   */
  lemma {:induction false} MergedNamesDistinct(cpts: seq<Checkpoint>, n: nat)
    requires |cpts| <= n && forall c :: c in cpts ==> DistinctSections(c.sections)
    ensures DistinctNames(Config(cpts, n))
    ensures forall o :: o in Config(cpts, n) ==> o.name != "system" && o.name != "Globals"
  {
    if cpts != [] {
      var last := |cpts| - 1;
      var out := RelocatedAll(cpts[last].sections, last, n, Offset(cpts, last));
      MergedNamesDistinct(cpts[..last], n);
      SectionsDistinct(cpts[last].sections, last, n, Offset(cpts, last));
      forall y | y in out
        ensures FromSection(cpts[last].sections, last, n, y.name) && y.name != "system" && y.name != "Globals"
      {
        OutComesFrom(cpts[last].sections, last, n, Offset(cpts, last), y);
        NotReserved(cpts[last].sections, last, n, y.name);
      }
      forall x, y | x in Config(cpts[..last], n) && y in out
        ensures x.name != y.name
      {
        CheckpointsApart(cpts, n, x, y);
      }
      DistinctAppend(Config(cpts[..last], n), out);
    }
  }

  lemma NotReserved(sections: seq<Section>, i: nat, n: nat, written: string)
    requires i < n && FromSection(sections, i, n, written)
    ensures written != "system" && written != "Globals"
  {
    var s :| s in sections && WrittenAs(s.name, i, n, written);
    if HasCpu(s.name) {
      HasCpuKept(s.name, ZeroFill(Text.Decimal(i), |Text.Decimal(n - 1)|));
      NoLetterNoCpu("system");
      NoLetterNoCpu("Globals");
    }
  }

  // ----- Padding -----

  /** How many pages the merged memory is said to have, given the requested size. */
  function PaddedPages(pages: nat, memorySize: Option<nat>): (padded: nat)
    ensures padded >= pages && (memorySize.Some? ==> padded * PAGE >= memorySize.value)
    ensures padded == pages || (memorySize.Some? && (padded - 1) * PAGE < memorySize.value)
    decreases if memorySize.None? then 0 else memorySize.value - pages * PAGE
  {
    if memorySize.None? || memorySize.value <= pages * PAGE then pages
    else
      PagesTimes(pages, 1);
      PaddedPages(pages + 1, memorySize)
  }

  function Padding(n: nat): (s: seq<byte>)
    ensures |s| == n && forall i :: 0 <= i < n ==> s[i] == PAD
  {
    if n == 0 then [] else Padding(n - 1) + [PAD]
  }

  /** `range_size` is the length of the merged memory exactly when every image is full. */
  lemma RangeSizeExactly(cpts: seq<Checkpoint>, memorySize: Option<nat>)
    ensures var pages := PaddedPages(Pages(cpts), memorySize);
            var memory := Memory(cpts) + Padding((pages - Pages(cpts)) * PAGE);
            |memory| == pages * PAGE <==> forall c :: c in cpts ==> Full(c)
  {
    var pages := PaddedPages(Pages(cpts), memorySize);
    assert cpts[..|cpts|] == cpts;
    PlacedExactly(cpts, |cpts|);
    PagesTimes(Pages(cpts), pages - Pages(cpts));
    if forall c :: c in cpts ==> Full(c) {
      assert forall j :: 0 <= j < |cpts| ==> cpts[j] in cpts;
    }
  }

  // ----- The script -----

  datatype Result = Merged(memory: seq<byte>, config: seq<OutSection>, pagePtr: nat, nextPid: nat, rangeSize: nat, curTick: nat)
                  | NoPhysmemSection

  /** Copies an image page by page; a read past the end yields what is left. */
  method CopyPages(image: seq<byte>, pages: nat) returns (copied: seq<byte>)
    ensures copied == Copied(image, pages)
  {
    copied := [];
    var pos := 0;
    for x := 0 to pages
      invariant pos == (if |image| >= x * PAGE then x * PAGE else |image|) && copied == image[..pos]
    {
      var end := if pos + 4096 <= |image| then pos + 4096 else |image|;
      PagesTimes(x, 1);
      assert image[..end] == image[..pos] + image[pos..end];
      copied := copied + image[pos..end];
      pos := end;
    }
  }

  method MergeSections(sections: seq<Section>, i: nat, n: nat, pagePtr: nat, tick: nat) returns (out: seq<OutSection>, maxTick: nat)
    requires i < n
    ensures out == RelocatedAll(sections, i, n, pagePtr * PAGE) && maxTick == MaxTick(sections, tick)
  {
    out, maxTick := [], tick;
    for k := 0 to |sections|
      invariant out == RelocatedAll(sections[..k], i, n, pagePtr * PAGE) && maxTick == MaxTick(sections[..k], tick)
    {
      assert sections[..k + 1][..k] == sections[..k];
      var sec := sections[k];
      if HasCpu(sec.name) {
        var written := CopyCpuSection(sec, i, n, pagePtr);
        out := out + [written];
      } else if sec.name == "system" {
      } else if sec.name == "Globals" {
        if sec.curTick > maxTick {
          maxTick := sec.curTick;
        }
      } else if i == n - 1 {
        out := out + [OutSection(sec.name, sec.paddr, sec.items, None)];
      }
    }
    assert sections[..|sections|] == sections;
  }

  /** A processor's section: renamed, its address moved, and the process number added where it belongs. */
  method CopyCpuSection(sec: Section, i: nat, n: nat, pagePtr: nat) returns (out: OutSection)
    requires i < n && HasCpu(sec.name)
    ensures [out] == Relocated(sec, i, n, pagePtr * PAGE)
  {
    out := OutSection(Renamed(sec.name, i, n), sec.paddr, sec.items, None);
    if sec.paddr.Some? {
      out := out.(paddr := Some(sec.paddr.value + pagePtr * 4096));
    }
    if sec.IsFdMap() {
      out := out.(pid := Some(i));
    }
  }

  method Pad(memory: seq<byte>, pages: nat, memorySize: Option<nat>) returns (padded: seq<byte>, pagePtr: nat)
    ensures pagePtr == PaddedPages(pages, memorySize)
    ensures padded == memory + Padding((pagePtr - pages) * PAGE)
  {
    padded, pagePtr := memory, pages;
    var fileSize := pages * 4 * 1024;
    var dummyData := seq(4096, _ => '0' as int);
    assert dummyData == Padding(PAGE);
    while memorySize.Some? && fileSize < memorySize.value
      invariant pages <= pagePtr && fileSize == pagePtr * PAGE
      invariant PaddedPages(pages, memorySize) == PaddedPages(pagePtr, memorySize)
      invariant padded == memory + Padding((pagePtr - pages) * PAGE)
      decreases if memorySize.None? then 0 else memorySize.value - fileSize
    {
      PagesTimes(pagePtr, 1);
      PagesTimes(pagePtr - pages, 1);
      var n := (pagePtr - pages) * PAGE;
      assert Padding(n) + Padding(PAGE) == Padding(n + PAGE);
      assert memory + Padding(n) + Padding(PAGE) == memory + (Padding(n) + Padding(PAGE));
      padded := padded + dummyData;
      fileSize := fileSize + 4 * 1024;
      pagePtr := pagePtr + 1;
    }
  }

  function AllSections(cpts: seq<Checkpoint>): seq<Section> {
    if cpts == [] then [] else AllSections(cpts[..|cpts| - 1]) + cpts[|cpts| - 1].sections
  }

  lemma {:induction false} MaxTickAppend(a: seq<Section>, b: seq<Section>, least: nat)
    ensures MaxTick(a + b, least) == MaxTick(b, MaxTick(a, least))
  {
    if b == [] {
      assert a + b == a;
    } else {
      var front := b[..|b| - 1];
      MaxTickAppend(a, front, least);
      assert (a + b)[..|a + b| - 1] == a + front;
    }
  }

  lemma {:induction false} MaxTickIsMax(sections: seq<Section>, least: nat)
    ensures MaxTick(sections, least) >= least
    ensures forall s :: s in sections && s.Kind().GlobalsSection? ==> s.curTick <= MaxTick(sections, least)
    ensures MaxTick(sections, least) == least
            || exists s :: s in sections && s.Kind().GlobalsSection? && s.curTick == MaxTick(sections, least)
  {
    if sections != [] {
      var front := sections[..|sections| - 1];
      MaxTickIsMax(front, least);
      assert sections == front + [sections[|sections| - 1]];
    }
  }

  /** A name that is neither a processor's nor reserved is written from the last checkpoint, and only from there. */
  lemma WrittenPlainly(sections: seq<Section>, i: nat, n: nat, offset: nat, name: string)
    requires i + 1 == n && !HasCpu(name) && name != "system" && name != "Globals"
    ensures (exists o :: o in RelocatedAll(sections, i, n, offset) && o.name == name) <==>
            (exists s :: s in sections && s.name == name)
  {
    if o :| o in RelocatedAll(sections, i, n, offset) && o.name == name {
      OutComesFrom(sections, i, n, offset, o);
      var s :| s in sections && WrittenAs(s.name, i, n, o.name);
      if HasCpu(s.name) {
        HasCpuKept(s.name, ZeroFill(Text.Decimal(i), |Text.Decimal(n - 1)|));
      }
      assert s.name == name;
    }
    if s :| s in sections && s.name == name {
      var o := OutSection(s.name, s.paddr, s.items, None);
      assert o in Relocated(s, i, n, offset);
      RelocatedSections(sections, i, n, offset, s, o);
    }
  }

  lemma OneMoreCheckpoint(cpts: seq<Checkpoint>, i: nat)
    requires i < |cpts|
    ensures Pages(cpts[..i + 1]) == Pages(cpts[..i]) + cpts[i].pages
    ensures Memory(cpts[..i + 1]) == Memory(cpts[..i]) + Copied(cpts[i].image, cpts[i].pages)
    ensures Config(cpts[..i + 1], |cpts|)
         == Config(cpts[..i], |cpts|) + RelocatedAll(cpts[i].sections, i, |cpts|, Pages(cpts[..i]) * PAGE)
    ensures MaxTick(AllSections(cpts[..i + 1]), 0) == MaxTick(cpts[i].sections, MaxTick(AllSections(cpts[..i]), 0))
  {
    assert cpts[..i + 1][..i] == cpts[..i];
    MaxTickAppend(AllSections(cpts[..i]), cpts[i].sections, 0);
  }

  /** The loop over the checkpoints; `mergedConfig` is what the last of them has contributed. */
  method MergeAll(cpts: seq<Checkpoint>)
    returns (memory: seq<byte>, config: seq<OutSection>, mergedConfig: seq<OutSection>, pagePtr: nat, maxTick: nat)
    requires cpts != []
    ensures pagePtr == Pages(cpts) && memory == Memory(cpts)
    ensures config == Config(cpts, |cpts|) && maxTick == MaxTick(AllSections(cpts), 0)
    ensures var last := |cpts| - 1; mergedConfig == RelocatedAll(cpts[last].sections, last, |cpts|, Offset(cpts, last))
  {
    memory, config, mergedConfig, pagePtr, maxTick := [], [], [], 0, 0;
    for i := 0 to |cpts|
      invariant pagePtr == Pages(cpts[..i]) && memory == Memory(cpts[..i])
      invariant config == Config(cpts[..i], |cpts|) && maxTick == MaxTick(AllSections(cpts[..i]), 0)
      invariant i > 0 ==> mergedConfig == RelocatedAll(cpts[i - 1].sections, i - 1, |cpts|, Offset(cpts, i - 1))
    {
      OneMoreCheckpoint(cpts, i);
      mergedConfig, maxTick := MergeSections(cpts[i].sections, i, |cpts|, pagePtr, maxTick);
      config := config + mergedConfig;
      pagePtr := pagePtr + cpts[i].pages;
      var copied := CopyPages(cpts[i].image, cpts[i].pages);
      memory := memory + copied;
    }
    assert cpts[..|cpts|] == cpts;
  }

  /** The range size can only be stored if the last checkpoint has brought the section for it. */
  method CanStoreRangeSize(cpts: seq<Checkpoint>, mergedConfig: seq<OutSection>) returns (can: bool)
    requires cpts != []
    requires var last := |cpts| - 1; mergedConfig == RelocatedAll(cpts[last].sections, last, |cpts|, Offset(cpts, last))
    ensures can <==> exists s :: s in cpts[|cpts| - 1].sections && s.name == "system.physmem.store0"
  {
    var last := |cpts| - 1;
    NoLetterNoCpu("system.physmem.store0");
    WrittenPlainly(cpts[last].sections, last, |cpts|, Offset(cpts, last), "system.physmem.store0");
    can := exists o :: o in mergedConfig && o.name == "system.physmem.store0";
  }

  method Aggregate(cpts: seq<Checkpoint>, memorySize: Option<nat>) returns (r: Result)
    requires cpts != []
    ensures r.NoPhysmemSection? <==> !exists s :: s in cpts[|cpts| - 1].sections && s.name == "system.physmem.store0"
    ensures r.Merged? ==>
              && r.pagePtr == Pages(cpts) && r.nextPid == |cpts| && r.config == Config(cpts, |cpts|)
              && r.rangeSize == PaddedPages(Pages(cpts), memorySize) * PAGE
              && r.memory == Memory(cpts) + Padding(r.rangeSize - Pages(cpts) * PAGE)
              && r.curTick == MaxTick(AllSections(cpts), 0)
  {
    var memory, config, mergedConfig, pagePtr, maxTick := MergeAll(cpts);
    var padded, total := Pad(memory, pagePtr, memorySize);
    PagesTimes(pagePtr, total - pagePtr);
    var can := CanStoreRangeSize(cpts, mergedConfig);
    if !can {
      return NoPhysmemSection;
    }
    return Merged(padded, config, pagePtr, |cpts|, total * 4 * 1024, maxTick);
  }
}
