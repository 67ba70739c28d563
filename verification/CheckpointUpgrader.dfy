/**
 `util/cpt_upgrader.py`: loading the upgrader scripts, resolving their dependencies,
 and applying them to a checkpoint's set of version tags in dependency order.
 */
module CheckpointUpgrader {
  import opened Wrappers
  import opened Sorting

  type Tag = string

  datatype Kind = Upgrades | Downgrades

  datatype Script = Script(tag: Tag, kind: Kind, depends: seq<Tag>, fwdDepends: seq<Tag>, legacyVersion: Option<int>)

  /** What the migration loop consults: the tags of each kind and each tag's dependencies. */
  datatype Rules = Rules(up: set<Tag>, down: set<Tag>, depends: map<Tag, seq<Tag>>) {
    ghost predicate Valid() {
      depends.Keys == up + down && up !! down
    }

    ghost predicate UpgradersOnly() {
      down == {}
    }

    ghost predicate Closed() {
      forall t, d :: t in depends && d in depends[t] ==> d in depends
    }
  }

  // ----- One migration, batch by batch -----

  predicate Ready(r: Rules, t: Tag, tags: set<Tag>)
    requires t in r.depends
  {
    forall d :: d in r.depends[t] ==> d in tags
  }

  function ToApply(r: Rules, tags: set<Tag>): set<Tag> {
    (r.up - tags) + (r.down * tags)
  }

  function Batch(r: Rules, toApply: set<Tag>, tags: set<Tag>): set<Tag>
    requires toApply <= r.depends.Keys
  {
    set t | t in toApply && Ready(r, t, tags)
  }

  function After(r: Rules, tags: set<Tag>, batch: set<Tag>): set<Tag> {
    (tags + batch * r.up) - batch * r.down
  }

  datatype Run = Run(tags: set<Tag>, left: set<Tag>, batches: seq<set<Tag>>)

  /** The loop of `process_file`; which tags are applied does not depend on any iteration order. */
  function Migrate(r: Rules, tags: set<Tag>, toApply: set<Tag>): (run: Run)
    requires toApply <= r.depends.Keys
    ensures run.left <= toApply
    decreases |toApply|
  {
    var batch := Batch(r, toApply, tags);
    if batch == {} then Run(tags, toApply, [])
    else
      SmallerRest(toApply, batch);
      var rest := Migrate(r, After(r, tags, batch), toApply - batch);
      rest.(batches := [batch] + rest.batches)
  }

  lemma SmallerRest(s: set<Tag>, t: set<Tag>)
    requires t <= s && t != {}
    ensures |s - t| < |s|
  {
    assert |s| == |s - t| + |t|;
  }

  // ----- What a run does to the tags -----

  /** Only absent tags are upgraded and only present ones downgraded. */
  ghost predicate Pending(r: Rules, tags: set<Tag>, toApply: set<Tag>) {
    toApply <= r.up + r.down && toApply * r.up !! tags && toApply * r.down <= tags
  }

  lemma PendingStep(r: Rules, tags: set<Tag>, toApply: set<Tag>, batch: set<Tag>)
    requires r.Valid() && Pending(r, tags, toApply) && batch <= toApply
    ensures Pending(r, After(r, tags, batch), toApply - batch)
  {
  }

  lemma {:induction false} MigrateTags(r: Rules, tags: set<Tag>, toApply: set<Tag>)
    requires r.Valid() && Pending(r, tags, toApply)
    ensures var run := Migrate(r, tags, toApply);
            run.tags == After(r, tags, toApply - run.left) && Pending(r, run.tags, run.left)
    decreases |toApply|
  {
    var batch := Batch(r, toApply, tags);
    if batch == {} {
      assert toApply - toApply == {};
    } else {
      SmallerRest(toApply, batch);
      PendingStep(r, tags, toApply, batch);
      MigrateTags(r, After(r, tags, batch), toApply - batch);
    }
  }

  /** A completed run ends with the known upgrades added, the downgrades gone and the rest kept. */
  lemma CompletedTags(r: Rules, tags: set<Tag>)
    requires r.Valid()
    ensures var run := Migrate(r, tags, ToApply(r, tags));
            run.left == {} <==> run.tags == (tags + r.up) - r.down
  {
    MigrateTags(r, tags, ToApply(r, tags));
    var run := Migrate(r, tags, ToApply(r, tags));
    assert ToApply(r, tags) * r.up == r.up - tags && ToApply(r, tags) * r.down == r.down * tags;
    if run.left == {} {
      assert ToApply(r, tags) - run.left == ToApply(r, tags);
    }
    if run.tags == (tags + r.up) - r.down {
      assert run.left * r.up == {} && run.left * r.down == {};
    }
  }

  /** Migrating a migrated checkpoint applies nothing and changes nothing. */
  lemma SecondRunIsIdle(r: Rules, tags: set<Tag>)
    requires r.Valid() && Migrate(r, tags, ToApply(r, tags)).left == {}
    ensures var done := Migrate(r, tags, ToApply(r, tags)).tags;
            Migrate(r, done, ToApply(r, done)) == Run(done, {}, [])
  {
    CompletedTags(r, tags);
    var done := Migrate(r, tags, ToApply(r, tags)).tags;
    assert ToApply(r, done) == {};
  }

  // ----- The order of application -----

  /** `applied` goes through the batches one after the other, each in some order. */
  ghost predicate Linearizes(applied: seq<Tag>, batches: seq<set<Tag>>) {
    if batches == [] then applied == []
    else
      var n := |batches[0]|;
      n <= |applied| && multiset(applied[..n]) == multiset(batches[0]) && Linearizes(applied[n..], batches[1..])
  }

  lemma {:induction false} LinearizesSnoc(applied: seq<Tag>, batches: seq<set<Tag>>, more: seq<Tag>, batch: set<Tag>)
    requires Linearizes(applied, batches) && multiset(more) == multiset(batch)
    ensures Linearizes(applied + more, batches + [batch])
  {
    assert |more| == |multiset(more)| == |batch|;
    if batches == [] {
      assert applied + more == more && more[..|batch|] == more && more[|batch|..] == [];
      assert (batches + [batch])[1..] == [];
    } else {
      var n := |batches[0]|;
      LinearizesSnoc(applied[n..], batches[1..], more, batch);
      assert (applied + more)[..n] == applied[..n] && (applied + more)[n..] == applied[n..] + more;
      assert (batches + [batch])[1..] == batches[1..] + [batch];
    }
  }

  lemma MembersOfBatch(applied: seq<Tag>, batch: set<Tag>)
    requires multiset(applied) == multiset(batch)
    ensures forall t :: t in applied <==> t in batch
    ensures |applied| == |batch|
  {
    assert |applied| == |multiset(applied)|;
    forall t
      ensures t in applied <==> t in batch
    {
      assert t in multiset(applied) <==> t in multiset(batch);
    }
  }

  /** Each pending tag is applied exactly once, except those the run had to leave. */
  lemma {:induction false} AppliedOnce(r: Rules, tags: set<Tag>, toApply: set<Tag>, applied: seq<Tag>, t: Tag)
    requires toApply <= r.depends.Keys
    requires Linearizes(applied, Migrate(r, tags, toApply).batches)
    ensures multiset(applied)[t] == if t in toApply - Migrate(r, tags, toApply).left then 1 else 0
    decreases |toApply|
  {
    var batch := Batch(r, toApply, tags);
    if batch != {} {
      SmallerRest(toApply, batch);
      var n := |batch|;
      assert Migrate(r, tags, toApply).batches[1..] == Migrate(r, After(r, tags, batch), toApply - batch).batches;
      AppliedOnce(r, After(r, tags, batch), toApply - batch, applied[n..], t);
      assert applied == applied[..n] + applied[n..];
    }
  }

  /** A tag's dependencies were there at the start or have been applied before it. */
  lemma {:induction false} DependenciesFirst(r: Rules, tags: set<Tag>, toApply: set<Tag>, applied: seq<Tag>, k: nat, d: Tag)
    requires toApply <= r.depends.Keys
    requires Linearizes(applied, Migrate(r, tags, toApply).batches)
    requires k < |applied| && applied[k] in r.depends && d in r.depends[applied[k]]
    ensures d in tags || d in applied[..k]
    decreases |toApply|
  {
    var batch := Batch(r, toApply, tags);
    if batch != {} {
      SmallerRest(toApply, batch);
      var n := |batch|;
      assert Migrate(r, tags, toApply).batches[1..] == Migrate(r, After(r, tags, batch), toApply - batch).batches;
      MembersOfBatch(applied[..n], batch);
      if k < n {
        assert applied[k] in applied[..n];
      } else {
        DependenciesFirst(r, After(r, tags, batch), toApply - batch, applied[n..], k - n, d);
        assert applied[..k] == applied[..n] + applied[n..][..k - n];
      }
    }
  }

  // ----- Upgraders only: the tags reached are a least fixed point -----

  /** No upgrade outside `tags` has all its dependencies inside. */
  ghost predicate Saturated(r: Rules, tags: set<Tag>) {
    forall t :: t in r.depends && Ready(r, t, tags) ==> t in tags
  }

  lemma {:induction false} NothingReadyLeft(r: Rules, tags: set<Tag>, toApply: set<Tag>)
    requires toApply <= r.depends.Keys
    ensures var run := Migrate(r, tags, toApply); Batch(r, run.left, run.tags) == {}
    decreases |toApply|
  {
    var batch := Batch(r, toApply, tags);
    if batch != {} {
      SmallerRest(toApply, batch);
      NothingReadyLeft(r, After(r, tags, batch), toApply - batch);
    }
  }

  lemma {:induction false} RunStaysBelow(r: Rules, tags: set<Tag>, toApply: set<Tag>, bound: set<Tag>)
    requires toApply <= r.depends.Keys && tags <= bound && Saturated(r, bound)
    ensures Migrate(r, tags, toApply).tags <= bound
    decreases |toApply|
  {
    var batch := Batch(r, toApply, tags);
    if batch != {} {
      SmallerRest(toApply, batch);
      RunStaysBelow(r, After(r, tags, batch), toApply - batch, bound);
    }
  }

  /** The tags held when the loop stops are the least saturated superset of the initial ones. */
  lemma ReachesLeastFixedPoint(r: Rules, tags: set<Tag>)
    requires r.Valid() && r.UpgradersOnly()
    ensures var final := Migrate(r, tags, ToApply(r, tags)).tags;
            && tags <= final
            && Saturated(r, final)
            && forall bound :: tags <= bound && Saturated(r, bound) ==> final <= bound
  {
    var toApply := ToApply(r, tags);
    var run := Migrate(r, tags, toApply);
    MigrateTags(r, tags, toApply);
    NothingReadyLeft(r, tags, toApply);
    forall t | t in run.left
      ensures !Ready(r, t, run.tags)
    {
      assert t !in Batch(r, run.left, run.tags);
    }
    forall bound | tags <= bound && Saturated(r, bound)
      ensures run.tags <= bound
    {
      RunStaysBelow(r, tags, toApply, bound);
    }
  }

  // ----- Upgraders only: a run is stuck exactly on dependency cycles -----

  ghost predicate WaitsFor(r: Rules, t: Tag, stuck: set<Tag>) {
    t in r.depends && exists d :: d in stuck && d in r.depends[t]
  }

  /** Each member waits for a member. */
  ghost predicate Blocked(r: Rules, stuck: set<Tag>) {
    forall t {:trigger WaitsFor(r, t, stuck)} :: t in stuck ==> WaitsFor(r, t, stuck)
  }

  lemma {:induction false} BlockedIsLeft(r: Rules, tags: set<Tag>, toApply: set<Tag>, stuck: set<Tag>)
    requires r.Valid() && toApply <= r.depends.Keys
    requires Blocked(r, stuck) && stuck <= toApply && stuck !! tags
    ensures stuck <= Migrate(r, tags, toApply).left
    decreases |toApply|
  {
    var batch := Batch(r, toApply, tags);
    if batch != {} {
      forall t | t in stuck
        ensures t !in batch
      {
        assert WaitsFor(r, t, stuck);
      }
      SmallerRest(toApply, batch);
      BlockedIsLeft(r, After(r, tags, batch), toApply - batch, stuck);
    }
  }

  ghost predicate DependsOnDowngrade(r: Rules, t: Tag) {
    t in r.depends && exists d :: d in r.depends[t] && d in r.down
  }

  /** Nothing that is to be applied depends on a tag that has a downgrader. */
  ghost predicate NoDowngradeDependency(r: Rules, toApply: set<Tag>) {
    forall t :: t in toApply ==> !DependsOnDowngrade(r, t)
  }

  lemma LeftIsBlocked(r: Rules, tags: set<Tag>)
    requires r.Valid() && r.Closed() && NoDowngradeDependency(r, ToApply(r, tags))
    ensures Blocked(r, Migrate(r, tags, ToApply(r, tags)).left)
  {
    var toApply := ToApply(r, tags);
    var run := Migrate(r, tags, toApply);
    MigrateTags(r, tags, toApply);
    NothingReadyLeft(r, tags, toApply);
    forall t | t in run.left
      ensures WaitsFor(r, t, run.left)
    {
      assert t !in Batch(r, run.left, run.tags);
      var d :| d in r.depends[t] && d !in run.tags;
      assert d in r.depends && !DependsOnDowngrade(r, t);
    }
  }

  ghost predicate Edge(r: Rules, p: seq<Tag>, i: int)
    requires 0 <= i < |p| - 1
  {
    p[i] in r.depends && p[i + 1] in r.depends[p[i]]
  }

  /** A walk along dependencies. */
  ghost predicate Path(r: Rules, p: seq<Tag>) {
    forall i :: 0 <= i < |p| - 1 ==> Edge(r, p, i)
  }

  ghost predicate Cycle(r: Rules, c: seq<Tag>) {
    |c| >= 2 && Path(r, c) && c[0] == c[|c| - 1]
  }

  lemma {:induction false} DistinctFits(p: seq<Tag>, s: set<Tag>)
    requires forall i, j :: 0 <= i < j < |p| ==> p[i] != p[j]
    requires forall i :: 0 <= i < |p| ==> p[i] in s
    ensures |p| <= |s|
  {
    if p != [] {
      var last := p[|p| - 1];
      DistinctFits(p[..|p| - 1], s - {last});
    }
  }

  lemma PathSnoc(r: Rules, p: seq<Tag>, d: Tag)
    requires Path(r, p) && p != [] && p[|p| - 1] in r.depends && d in r.depends[p[|p| - 1]]
    ensures Path(r, p + [d])
  {
    forall i | 0 <= i < |p|
      ensures Edge(r, p + [d], i)
    {
      assert i < |p| - 1 ==> Edge(r, p, i);
    }
  }

  lemma PathSuffix(r: Rules, p: seq<Tag>, n: nat)
    requires Path(r, p) && n <= |p|
    ensures Path(r, p[n..])
  {
    forall i | 0 <= i < |p| - n - 1
      ensures Edge(r, p[n..], i)
    {
      assert Edge(r, p, n + i);
    }
  }

  /** Following dependencies inside a blocked set must come back to a tag already seen. */
  lemma {:induction false} WalkFindsCycle(r: Rules, stuck: set<Tag>, p: seq<Tag>) returns (c: seq<Tag>)
    requires Blocked(r, stuck) && p != [] && Path(r, p)
    requires forall i :: 0 <= i < |p| ==> p[i] in stuck
    requires forall i, j :: 0 <= i < j < |p| ==> p[i] != p[j]
    ensures Cycle(r, c) && forall t :: t in c ==> t in stuck
    decreases |stuck| - |p|
  {
    DistinctFits(p, stuck);
    assert WaitsFor(r, p[|p| - 1], stuck);
    var d :| d in stuck && d in r.depends[p[|p| - 1]];
    PathSnoc(r, p, d);
    if i :| 0 <= i < |p| && p[i] == d {
      c := (p + [d])[i..];
      PathSuffix(r, p + [d], i);
    } else {
      DistinctFits(p + [d], stuck);
      c := WalkFindsCycle(r, stuck, p + [d]);
    }
  }

  lemma CycleIsBlocked(r: Rules, c: seq<Tag>)
    requires Cycle(r, c)
    ensures Blocked(r, set t | t in c)
  {
    var stuck := set t | t in c;
    forall t | t in stuck
      ensures WaitsFor(r, t, stuck)
    {
      var i :| 0 <= i < |c| && c[i] == t;
      var j := if i == |c| - 1 then 0 else i;
      assert Edge(r, c, j);
      assert c[j + 1] in stuck;
    }
  }

  ghost predicate PendingCycle(r: Rules, toApply: set<Tag>) {
    exists c :: Cycle(r, c) && forall t :: t in c ==> t in toApply
  }

  /** On a cycle every tag is a dependency, so none of them is a downgrade tag. */
  lemma CycleIsAbsent(r: Rules, tags: set<Tag>, c: seq<Tag>)
    requires r.Valid() && NoDowngradeDependency(r, ToApply(r, tags))
    requires Cycle(r, c) && forall t :: t in c ==> t in ToApply(r, tags)
    ensures (set t | t in c) !! tags
  {
    forall i | 0 <= i < |c|
      ensures c[i] !in tags
    {
      var j := if i == 0 then |c| - 1 else i;
      assert c[j - 1] in c && c[j] in c && Edge(r, c, j - 1);
      assert !DependsOnDowngrade(r, c[j - 1]);
    }
  }

  /**
   If nothing pending depends on a downgrade tag, the loop aborts exactly when the tags
   still to be applied contain a dependency cycle.
   */
  lemma AbortsExactlyOnCycles(r: Rules, tags: set<Tag>)
    requires r.Valid() && r.Closed() && NoDowngradeDependency(r, ToApply(r, tags))
    ensures Migrate(r, tags, ToApply(r, tags)).left != {} <==> PendingCycle(r, ToApply(r, tags))
  {
    var toApply := ToApply(r, tags);
    var run := Migrate(r, tags, toApply);
    if run.left != {} {
      LeftIsBlocked(r, tags);
      var t :| t in run.left;
      var c := WalkFindsCycle(r, run.left, [t]);
      assert Cycle(r, c) && forall t :: t in c ==> t in toApply;
    }
    if c :| Cycle(r, c) && forall t :: t in c ==> t in toApply {
      CycleIsBlocked(r, c);
      CycleIsAbsent(r, tags, c);
      var stuck := set t | t in c;
      assert c[0] in stuck;
      BlockedIsLeft(r, tags, toApply, stuck);
    }
  }

  /** With upgraders only there are no downgrade tags to depend on. */
  lemma UpgradersAbortExactlyOnCycles(r: Rules, tags: set<Tag>)
    requires r.Valid() && r.Closed() && r.UpgradersOnly()
    ensures Migrate(r, tags, ToApply(r, tags)).left != {} <==> PendingCycle(r, ToApply(r, tags))
  {
    assert NoDowngradeDependency(r, ToApply(r, tags));
    AbortsExactlyOnCycles(r, tags);
  }

  // ----- Dependencies on downgrade tags -----

  /** The rule of the header comment: a downgrade tag one depends on must be gone. */
  predicate DocumentedReady(r: Rules, t: Tag, tags: set<Tag>)
    requires t in r.depends
  {
    forall d :: d in r.depends[t] ==> (d in tags <==> d !in r.down)
  }

  /** Every batch was also ready by the documented rule. */
  ghost predicate MeetsDocumentedRule(r: Rules, tags: set<Tag>, toApply: set<Tag>)
    requires toApply <= r.depends.Keys
    decreases |toApply|
  {
    var batch := Batch(r, toApply, tags);
    batch == {} ||
    (&& (forall t :: t in batch ==> DocumentedReady(r, t, tags))
     && (SmallerRest(toApply, batch); MeetsDocumentedRule(r, After(r, tags, batch), toApply - batch)))
  }

  /** What a run applies was ready by the documented rule too exactly when none of it depends on a downgrade tag. */
  lemma {:induction false} DocumentedRuleExactly(r: Rules, tags: set<Tag>, toApply: set<Tag>)
    requires toApply <= r.depends.Keys
    ensures MeetsDocumentedRule(r, tags, toApply) <==>
            forall t :: t in toApply - Migrate(r, tags, toApply).left ==> !DependsOnDowngrade(r, t)
    decreases |toApply|
  {
    var batch := Batch(r, toApply, tags);
    if batch != {} {
      SmallerRest(toApply, batch);
      DocumentedRuleExactly(r, After(r, tags, batch), toApply - batch);
      forall t | t in batch
        ensures DocumentedReady(r, t, tags) <==> !DependsOnDowngrade(r, t)
      {
      }
      assert toApply - Migrate(r, tags, toApply).left
          == batch + ((toApply - batch) - Migrate(r, tags, toApply).left);
    }
  }

  /** The run completes and applies every script when the header comment says it may. */
  ghost predicate MigratesAsDocumented(r: Rules, tags: set<Tag>)
    requires r.Valid()
  {
    Migrate(r, tags, ToApply(r, tags)).left == {} && MeetsDocumentedRule(r, tags, ToApply(r, tags))
  }

  /**
   The header comment is met exactly when nothing pending depends on a downgrade tag or on
   itself through a cycle of pending tags.
   */
  lemma DocumentedExactly(r: Rules, tags: set<Tag>)
    requires r.Valid() && r.Closed()
    ensures MigratesAsDocumented(r, tags) <==>
            NoDowngradeDependency(r, ToApply(r, tags)) && !PendingCycle(r, ToApply(r, tags))
  {
    var toApply := ToApply(r, tags);
    DocumentedRuleExactly(r, tags, toApply);
    if Migrate(r, tags, toApply).left == {} {
      assert toApply - Migrate(r, tags, toApply).left == toApply;
    }
    if NoDowngradeDependency(r, toApply) {
      AbortsExactlyOnCycles(r, tags);
    }
  }

  /** "new" depends on "old", which has a downgrader. */
  const NEW_AFTER_OLD: Rules := Rules({"new"}, {"old"}, map["new" := ["old"], "old" := []])

  /** If "old" is already gone, the comment allows "new" at once, and the run aborts without it. */
  lemma GoneDowngradeAborts()
    ensures NEW_AFTER_OLD.Valid() && NEW_AFTER_OLD.Closed()
    ensures DocumentedReady(NEW_AFTER_OLD, "new", {})
    ensures Migrate(NEW_AFTER_OLD, {}, ToApply(NEW_AFTER_OLD, {})).left == {"new"}
    ensures !MigratesAsDocumented(NEW_AFTER_OLD, {})
  {
    var r := NEW_AFTER_OLD;
    assert ToApply(r, {}) == {"new"};
    assert "old" in r.depends["new"];
    assert Batch(r, {"new"}, {}) == {};
  }

  /** If "old" is still there, the comment makes "new" wait for its removal, and the run applies it at once. */
  lemma PresentDowngradeApplied()
    ensures NEW_AFTER_OLD.Valid() && NEW_AFTER_OLD.Closed()
    ensures !DocumentedReady(NEW_AFTER_OLD, "new", {"old"})
    ensures Migrate(NEW_AFTER_OLD, {"old"}, ToApply(NEW_AFTER_OLD, {"old"})) == Run({"new"}, {}, [{"new", "old"}])
    ensures !MigratesAsDocumented(NEW_AFTER_OLD, {"old"})
  {
    var r, both := NEW_AFTER_OLD, {"new", "old"};
    assert ToApply(r, {"old"}) == both;
    assert "old" in r.depends["new"];
    assert Batch(r, both, {"old"}) == both;
    assert After(r, {"old"}, both) == {"new"} && both - both == {};
    assert Batch(r, {}, {"new"}) == {};
  }

  // ----- Legacy versions -----

  ghost predicate LegacyChain(r: Rules, legacy: map<int, Tag>, last: int) {
    && (forall i :: i in legacy <==> 2 <= i <= last)
    && (forall i, j :: i in legacy && j in legacy && legacy[i] == legacy[j] ==> i == j)
    && (forall i :: i in legacy ==> legacy[i] in r.up)
    && (forall i :: 3 <= i <= last ==> ChainLink(r, legacy, i))
  }

  ghost predicate ChainLink(r: Rules, legacy: map<int, Tag>, i: int) {
    && i in legacy && i - 1 in legacy && legacy[i] in r.depends
    && legacy[i - 1] in r.depends[legacy[i]]
  }

  function LegacyTags(legacy: map<int, Tag>, version: int): set<Tag>
    requires forall i :: 2 <= i <= version ==> i in legacy
  {
    set i | 2 <= i <= version :: legacy[i]
  }

  lemma {:induction false} LegacyBefore(r: Rules, legacy: map<int, Tag>, last: int, version: int,
                                        applied: seq<Tag>, i: int, j: int, n: nat) returns (m: nat)
    requires r.Valid() && LegacyChain(r, legacy, last) && version <= last
    requires var tags := LegacyTags(legacy, version); Linearizes(applied, Migrate(r, tags, ToApply(r, tags)).batches)
    requires version < i < j <= last && 2 <= i && n < |applied| && applied[n] == legacy[j]
    ensures m < n && applied[m] == legacy[i]
    decreases j - i
  {
    var tags := LegacyTags(legacy, version);
    assert ChainLink(r, legacy, j);
    DependenciesFirst(r, tags, ToApply(r, tags), applied, n, legacy[j - 1]);
    assert legacy[j - 1] !in tags;
    m :| 0 <= m < n && applied[m] == legacy[j - 1];
    if i < j - 1 {
      m := LegacyBefore(r, legacy, last, version, applied, i, j - 1, m);
    }
  }

  /**
   Every completed run from a legacy version applies each later legacy upgrade, once,
   and in increasing order of version.
   */
  lemma LegacyInVersionOrder(r: Rules, legacy: map<int, Tag>, last: int, version: int, applied: seq<Tag>)
    requires r.Valid() && LegacyChain(r, legacy, last) && version <= last
    requires var tags := LegacyTags(legacy, version);
             var run := Migrate(r, tags, ToApply(r, tags));
             run.left == {} && Linearizes(applied, run.batches)
    ensures forall i :: i in legacy ==> multiset(applied)[legacy[i]] == if i <= version then 0 else 1
    ensures forall i, j, m, n ::
              && i in legacy && j in legacy && version < i < j
              && 0 <= m < |applied| && applied[m] == legacy[i]
              && 0 <= n < |applied| && applied[n] == legacy[j]
              ==> m < n
  {
    LegacyAppliedOnce(r, legacy, last, version, applied);
    forall i, j, m, n |
      && i in legacy && j in legacy && version < i < j
      && 0 <= m < |applied| && applied[m] == legacy[i]
      && 0 <= n < |applied| && applied[n] == legacy[j]
      ensures m < n
    {
      LegacyPairInOrder(r, legacy, last, version, applied, i, j, m, n);
    }
  }

  lemma LegacyAppliedOnce(r: Rules, legacy: map<int, Tag>, last: int, version: int, applied: seq<Tag>)
    requires r.Valid() && LegacyChain(r, legacy, last) && version <= last
    requires var tags := LegacyTags(legacy, version);
             var run := Migrate(r, tags, ToApply(r, tags));
             run.left == {} && Linearizes(applied, run.batches)
    ensures forall i :: i in legacy ==> multiset(applied)[legacy[i]] == if i <= version then 0 else 1
  {
    var tags := LegacyTags(legacy, version);
    forall i | i in legacy
      ensures multiset(applied)[legacy[i]] == if i <= version then 0 else 1
    {
      AppliedOnce(r, tags, ToApply(r, tags), applied, legacy[i]);
    }
  }

  lemma LegacyPairInOrder(r: Rules, legacy: map<int, Tag>, last: int, version: int,
                          applied: seq<Tag>, i: int, j: int, m: nat, n: nat)
    requires r.Valid() && LegacyChain(r, legacy, last) && version <= last
    requires var tags := LegacyTags(legacy, version); Linearizes(applied, Migrate(r, tags, ToApply(r, tags)).batches)
    requires i in legacy && j in legacy && version < i < j && multiset(applied)[legacy[i]] == 1
    requires m < |applied| && applied[m] == legacy[i] && n < |applied| && applied[n] == legacy[j]
    ensures m < n
  {
    var m' := LegacyBefore(r, legacy, last, version, applied, i, j, n);
    OnlyPosition(applied, m, m');
  }

  lemma OnlyPosition<T>(s: seq<T>, m: nat, n: nat)
    requires m < |s| && n < |s| && s[m] == s[n] && multiset(s)[s[m]] == 1
    ensures m == n
  {
    if m < n {
      TwiceInSequence(s, m, n);
    } else if n < m {
      TwiceInSequence(s, n, m);
    }
  }

  // ----- Loading the scripts -----

  /** No tag has both an upgrader and a downgrader. */
  ghost predicate OneKindPerTag(scripts: seq<Script>) {
    forall i, j :: 0 <= i < |scripts| && 0 <= j < |scripts| && scripts[i].tag == scripts[j].tag ==>
      scripts[i].kind == scripts[j].kind
  }

  ghost predicate DistinctTags(scripts: seq<Script>) {
    forall i, j :: 0 <= i < j < |scripts| ==> scripts[i].tag != scripts[j].tag
  }

  function TagsOfKind(scripts: seq<Script>, kind: Kind): set<Tag> {
    if scripts == [] then {}
    else
      var s := scripts[|scripts| - 1];
      TagsOfKind(scripts[..|scripts| - 1], kind) + (if s.kind == kind then {s.tag} else {})
  }

  /** The script of each tag, by its place in the order of loading; the last loaded wins. */
  function ByTag(scripts: seq<Script>): map<Tag, nat> {
    if scripts == [] then map[]
    else ByTag(scripts[..|scripts| - 1])[scripts[|scripts| - 1].tag := |scripts| - 1]
  }

  /** The script of each legacy version; of two scripts claiming one version the last loaded wins. */
  function LegacyMap(scripts: seq<Script>): map<int, nat> {
    if scripts == [] then map[]
    else
      var s := scripts[|scripts| - 1];
      var earlier := LegacyMap(scripts[..|scripts| - 1]);
      if s.legacyVersion.Some? then earlier[s.legacyVersion.value := |scripts| - 1] else earlier
  }

  function Declared(scripts: seq<Script>): (r: seq<seq<Tag>>)
    ensures |r| == |scripts| && forall k :: 0 <= k < |scripts| ==> r[k] == scripts[k].depends
  {
    if scripts == [] then [] else Declared(scripts[..|scripts| - 1]) + [scripts[|scripts| - 1].depends]
  }

  lemma OneMoreOfKind(before: seq<Script>, s: Script, kind: Kind)
    ensures TagsOfKind(before + [s], kind) == TagsOfKind(before, kind) + (if s.kind == kind then {s.tag} else {})
  {
    assert (before + [s])[..|before|] == before;
  }

  lemma OneMoreTag(before: seq<Script>, s: Script)
    ensures ByTag(before + [s]) == ByTag(before)[s.tag := |before|]
  {
    assert (before + [s])[..|before|] == before;
  }

  lemma OneMoreDeclared(before: seq<Script>, s: Script)
    ensures Declared(before + [s]) == Declared(before) + [s.depends]
  {
    assert (before + [s])[..|before|] == before;
  }

  lemma OneMoreVersion(before: seq<Script>, s: Script)
    ensures LegacyMap(before + [s])
         == if s.legacyVersion.Some? then LegacyMap(before)[s.legacyVersion.value := |before|] else LegacyMap(before)
  {
    assert (before + [s])[..|before|] == before;
  }

  lemma {:induction false} ByTagSound(scripts: seq<Script>)
    ensures forall t :: t in ByTag(scripts) ==> ByTag(scripts)[t] < |scripts| && scripts[ByTag(scripts)[t]].tag == t
  {
    if scripts != [] {
      ByTagSound(scripts[..|scripts| - 1]);
    }
  }

  lemma {:induction false} ByTagComplete(scripts: seq<Script>, k: nat)
    requires k < |scripts|
    ensures scripts[k].tag in ByTag(scripts) && k <= ByTag(scripts)[scripts[k].tag]
  {
    if k < |scripts| - 1 {
      ByTagComplete(scripts[..|scripts| - 1], k);
    }
  }

  /** A legacy version names a script that claims it, so no two versions name one script. */
  lemma {:induction false} LegacySound(scripts: seq<Script>)
    ensures forall v :: v in LegacyMap(scripts) ==>
              LegacyMap(scripts)[v] < |scripts| && scripts[LegacyMap(scripts)[v]].legacyVersion == Some(v)
  {
    if scripts != [] {
      LegacySound(scripts[..|scripts| - 1]);
    }
  }

  lemma {:induction false} TagsOfKindExactly(scripts: seq<Script>, kind: Kind, t: Tag)
    ensures t in TagsOfKind(scripts, kind) <==> exists k :: 0 <= k < |scripts| && scripts[k].tag == t && scripts[k].kind == kind
  {
    if scripts != [] {
      var front := scripts[..|scripts| - 1];
      TagsOfKindExactly(front, kind, t);
      if k :| 0 <= k < |front| && front[k].tag == t && front[k].kind == kind {
        assert scripts[k].tag == t;
      }
      if k :| 0 <= k < |scripts| && scripts[k].tag == t && scripts[k].kind == kind {
        assert k < |front| ==> front[k].tag == t;
      }
    }
  }

  /** Every tag has a kind, and only one exactly when no two scripts give it both. */
  lemma RegistryKinds(scripts: seq<Script>)
    ensures ByTag(scripts).Keys == TagsOfKind(scripts, Upgrades) + TagsOfKind(scripts, Downgrades)
    ensures TagsOfKind(scripts, Upgrades) !! TagsOfKind(scripts, Downgrades) <==> OneKindPerTag(scripts)
  {
    KeysHaveKinds(scripts);
    forall t
      ensures t in TagsOfKind(scripts, Upgrades) <==> exists k :: 0 <= k < |scripts| && scripts[k].tag == t && scripts[k].kind == Upgrades
      ensures t in TagsOfKind(scripts, Downgrades) <==> exists k :: 0 <= k < |scripts| && scripts[k].tag == t && scripts[k].kind == Downgrades
    {
      TagsOfKindExactly(scripts, Upgrades, t);
      TagsOfKindExactly(scripts, Downgrades, t);
    }
    if TagsOfKind(scripts, Upgrades) !! TagsOfKind(scripts, Downgrades) {
      forall i, j | 0 <= i < |scripts| && 0 <= j < |scripts| && scripts[i].tag == scripts[j].tag
        ensures scripts[i].kind == scripts[j].kind
      {
        assert scripts[i].tag !in TagsOfKind(scripts, Upgrades) || scripts[i].tag !in TagsOfKind(scripts, Downgrades);
      }
    }
  }

  lemma {:induction false} KeysHaveKinds(scripts: seq<Script>)
    ensures ByTag(scripts).Keys == TagsOfKind(scripts, Upgrades) + TagsOfKind(scripts, Downgrades)
  {
    if scripts != [] {
      KeysHaveKinds(scripts[..|scripts| - 1]);
    }
  }

  /** Version `i` is reached by counting up from 3 without a gap. */
  ghost predicate Chained(legacy: map<int, nat>, i: int) {
    3 <= i && forall j :: 3 <= j <= i ==> j in legacy
  }

  /** The script of version `j` depends on exactly the version before it. */
  ghost predicate Link(scripts: seq<Script>, legacy: map<int, nat>, depends: seq<seq<Tag>>, j: int) {
    && j in legacy && j - 1 in legacy && legacy[j] < |depends| && legacy[j - 1] < |scripts|
    && depends[legacy[j]] == [scripts[legacy[j - 1]].tag]
  }

  /** The dependencies before forward ones are added: legacy chaining replaces what was declared. */
  ghost predicate BaseDepends(scripts: seq<Script>, base: seq<seq<Tag>>) {
    var legacy := LegacyMap(scripts);
    && |base| == |scripts|
    && (forall i :: Chained(legacy, i) ==> Link(scripts, legacy, base, i))
    && (forall k :: 0 <= k < |scripts| && (forall i :: Chained(legacy, i) ==> legacy[i] != k) ==> base[k] == scripts[k].depends)
  }

  /** The tables fit together. */
  ghost predicate Indexed(scripts: seq<Script>, byTag: map<Tag, nat>, depends: seq<seq<Tag>>) {
    |depends| == |scripts| && forall t :: t in byTag ==> byTag[t] < |scripts| && scripts[byTag[t]].tag == t
  }

  /** The script of tag `d` names `t` among its forward dependencies. */
  ghost predicate NamesForward(scripts: seq<Script>, byTag: map<Tag, nat>, d: Tag, t: Tag) {
    d in byTag && byTag[d] < |scripts| && t in scripts[byTag[d]].fwdDepends
  }

  /** The forward dependencies of the scripts in `seen` have been added to the base ones. */
  ghost predicate PartlyResolved(scripts: seq<Script>, byTag: map<Tag, nat>, base: seq<seq<Tag>>, depends: seq<seq<Tag>>, seen: set<Tag>)
    requires Indexed(scripts, byTag, base) && Indexed(scripts, byTag, depends)
  {
    && seen <= byTag.Keys
    && forall t, d {:trigger d in base[byTag[t]]} {:trigger d in depends[byTag[t]]} :: t in byTag ==>
         (d in depends[byTag[t]] <==> d in base[byTag[t]] || (d in seen && NamesForward(scripts, byTag, d, t)))
  }

  ghost predicate PartlyRegistered(scripts: seq<Script>, byTag: map<Tag, nat>, base: seq<seq<Tag>>, seen: set<Tag>)
    requires Indexed(scripts, byTag, base)
  {
    && seen <= byTag.Keys
    && (forall t, d :: t in seen && d in base[byTag[t]] ==> d in byTag)
    && (forall t, f :: t in seen && f in scripts[byTag[t]].fwdDepends ==> f in byTag)
  }

  /** Each dependency is a base one, or another script's forward one. */
  ghost predicate Resolved(scripts: seq<Script>, base: seq<seq<Tag>>, depends: seq<seq<Tag>>) {
    && |base| == |depends| == |scripts|
    && (ByTagSound(scripts); PartlyResolved(scripts, ByTag(scripts), base, depends, ByTag(scripts).Keys))
  }

  /** Everything named as a dependency, forwards or backwards, is registered. */
  ghost predicate AllRegistered(scripts: seq<Script>, base: seq<seq<Tag>>) {
    |base| == |scripts| && (ByTagSound(scripts); PartlyRegistered(scripts, ByTag(scripts), base, ByTag(scripts).Keys))
  }

  /** The dependencies of each tag. */
  function DependsByTag(byTag: map<Tag, nat>, depends: seq<seq<Tag>>): map<Tag, seq<Tag>> {
    map t | t in byTag :: if byTag[t] < |depends| then depends[byTag[t]] else []
  }

  /** The tag of each legacy version. */
  function TagsOfVersions(scripts: seq<Script>, legacy: map<int, nat>): map<int, Tag> {
    map v | v in legacy :: if legacy[v] < |scripts| then scripts[legacy[v]].tag else []
  }

  // ----- What the scripts ask for, said of the scripts alone -----

  /** Of the scripts with its tag, this is the last one loaded. */
  ghost predicate Kept(files: seq<Script>, k: int) {
    0 <= k < |files| && forall j :: k < j < |files| ==> files[j].tag != files[k].tag
  }

  /** Of the scripts that claim legacy version `v`, this is the last one loaded. */
  ghost predicate Claims(files: seq<Script>, k: int, v: int) {
    && 0 <= k < |files| && files[k].legacyVersion == Some(v)
    && forall j :: k < j < |files| ==> files[j].legacyVersion != Some(v)
  }

  ghost predicate HasVersion(files: seq<Script>, v: int) {
    exists k :: Claims(files, k, v)
  }

  /** There is no gap from version 3 to version `v`. */
  ghost predicate FollowsOn(files: seq<Script>, v: int) {
    3 <= v && forall j :: 3 <= j <= v ==> HasVersion(files, j)
  }

  /** What script `k` depends on by itself: the version before it, in place of what it declares, if it is in the chain. */
  ghost predicate OwnDependency(files: seq<Script>, k: int, d: Tag) {
    && 0 <= k < |files|
    && var v := files[k].legacyVersion;
       if v.Some? && Claims(files, k, v.value) && FollowsOn(files, v.value)
       then exists j :: Claims(files, j, v.value - 1) && d == files[j].tag
       else d in files[k].depends
  }

  ghost predicate NamedForward(files: seq<Script>, d: Tag, t: Tag) {
    exists j :: Kept(files, j) && files[j].tag == d && t in files[j].fwdDepends
  }

  /** Tag `t` depends on tag `d`, forwards or backwards. */
  ghost predicate DependsOn(files: seq<Script>, t: Tag, d: Tag) {
    exists k :: Kept(files, k) && files[k].tag == t && (OwnDependency(files, k, d) || NamedForward(files, d, t))
  }

  ghost predicate HasScript(files: seq<Script>, t: Tag, kind: Kind) {
    exists k :: 0 <= k < |files| && files[k].tag == t && files[k].kind == kind
  }

  /** These are the rules the scripts ask for. */
  ghost predicate RulesOf(files: seq<Script>, r: Rules) {
    && (forall t :: t in r.up <==> HasScript(files, t, Upgrades))
    && (forall t :: t in r.down <==> HasScript(files, t, Downgrades))
    && (forall t :: t in r.depends <==> HasScript(files, t, Upgrades) || HasScript(files, t, Downgrades))
    && (forall t, d {:trigger DependsOn(files, t, d)} {:trigger d in r.depends[t]} :: t in r.depends ==>
          (d in r.depends[t] <==> DependsOn(files, t, d)))
  }

  lemma {:induction false} ByTagExactly(files: seq<Script>, t: Tag, k: int)
    ensures t in ByTag(files) && ByTag(files)[t] == k <==> Kept(files, k) && files[k].tag == t
  {
    if files != [] {
      var n := |files| - 1;
      var front := files[..n];
      ByTagExactly(front, t, k);
      if files[n].tag != t && 0 <= k < n {
        assert front[k] == files[k];
        if Kept(front, k) && files[k].tag == t {
          assert forall j :: k < j < n ==> files[j] == front[j];
        }
        if Kept(files, k) && files[k].tag == t {
          assert forall j :: k < j < n ==> front[j] == files[j];
        }
      }
    }
  }

  lemma {:induction false} LegacyExactly(files: seq<Script>, v: int, k: int)
    ensures v in LegacyMap(files) && LegacyMap(files)[v] == k <==> Claims(files, k, v)
  {
    if files != [] {
      var n := |files| - 1;
      var front := files[..n];
      LegacyExactly(front, v, k);
      if files[n].legacyVersion != Some(v) && 0 <= k < n {
        assert front[k] == files[k];
        assert forall j :: k < j < n ==> files[j] == front[j];
        assert forall j :: k < j < n ==> front[j] == files[j];
      }
    }
  }

  lemma HasVersionExactly(files: seq<Script>, v: int)
    ensures HasVersion(files, v) <==> v in LegacyMap(files)
  {
    if v in LegacyMap(files) {
      LegacyExactly(files, v, LegacyMap(files)[v]);
    }
    if k :| Claims(files, k, v) {
      LegacyExactly(files, v, k);
    }
  }

  lemma ChainedExactly(files: seq<Script>, v: int)
    ensures Chained(LegacyMap(files), v) <==> FollowsOn(files, v)
  {
    forall j
      ensures HasVersion(files, j) <==> j in LegacyMap(files)
    {
      HasVersionExactly(files, j);
    }
  }

  lemma BaseExactly(files: seq<Script>, base: seq<seq<Tag>>, k: int, d: Tag)
    requires BaseDepends(files, base) && 0 <= k < |files|
    ensures d in base[k] <==> OwnDependency(files, k, d)
  {
    var legacy, v := LegacyMap(files), files[k].legacyVersion;
    if v.Some? && Claims(files, k, v.value) && FollowsOn(files, v.value) {
      LegacyExactly(files, v.value, k);
      ChainedExactly(files, v.value);
      assert Link(files, legacy, base, v.value);
      LegacyExactly(files, v.value - 1, legacy[v.value - 1]);
      OnlyClaim(files, v.value - 1);
    } else {
      forall i | Chained(legacy, i)
        ensures legacy[i] != k
      {
        ChainedExactly(files, i);
        LegacyExactly(files, i, legacy[i]);
      }
    }
  }

  lemma OnlyClaim(files: seq<Script>, v: int)
    ensures forall j, k :: Claims(files, j, v) && Claims(files, k, v) ==> j == k
  {
  }

  lemma DependsExactly(files: seq<Script>, base: seq<seq<Tag>>, depends: seq<seq<Tag>>, t: Tag, d: Tag)
    requires BaseDepends(files, base) && Resolved(files, base, depends) && t in ByTag(files)
    ensures ByTag(files)[t] < |depends| && (d in depends[ByTag(files)[t]] <==> DependsOn(files, t, d))
  {
    var byTag := ByTag(files);
    var k := byTag[t];
    ByTagSound(files);
    ByTagExactly(files, t, k);
    BaseExactly(files, base, k, d);
    ForwardExactly(files, d, t);
    ResolvedAt(files, byTag, base, depends, t, d);
    if DependsOn(files, t, d) {
      var j :| Kept(files, j) && files[j].tag == t && (OwnDependency(files, j, d) || NamedForward(files, d, t));
      ByTagExactly(files, t, j);
    }
  }

  lemma ResolvedAt(files: seq<Script>, byTag: map<Tag, nat>, base: seq<seq<Tag>>, depends: seq<seq<Tag>>, t: Tag, d: Tag)
    requires Indexed(files, byTag, base) && Indexed(files, byTag, depends) && t in byTag
    requires PartlyResolved(files, byTag, base, depends, byTag.Keys)
    ensures d in depends[byTag[t]] <==> d in base[byTag[t]] || NamesForward(files, byTag, d, t)
  {
  }

  lemma ForwardExactly(files: seq<Script>, d: Tag, t: Tag)
    ensures NamesForward(files, ByTag(files), d, t) <==> NamedForward(files, d, t)
  {
    ByTagSound(files);
    if d in ByTag(files) {
      ByTagExactly(files, d, ByTag(files)[d]);
    }
    if j :| Kept(files, j) && files[j].tag == d && t in files[j].fwdDepends {
      ByTagExactly(files, d, j);
    }
  }

  lemma RulesExactly(files: seq<Script>, base: seq<seq<Tag>>, depends: seq<seq<Tag>>)
    requires BaseDepends(files, base) && Resolved(files, base, depends)
    ensures RulesOf(files, Rules(TagsOfKind(files, Upgrades), TagsOfKind(files, Downgrades), DependsByTag(ByTag(files), depends)))
  {
    KeysHaveKinds(files);
    forall t
      ensures t in TagsOfKind(files, Upgrades) <==> HasScript(files, t, Upgrades)
      ensures t in TagsOfKind(files, Downgrades) <==> HasScript(files, t, Downgrades)
    {
      TagsOfKindExactly(files, Upgrades, t);
      TagsOfKindExactly(files, Downgrades, t);
    }
    forall t, d | t in ByTag(files)
      ensures d in DependsByTag(ByTag(files), depends)[t] <==> DependsOn(files, t, d)
    {
      DependsExactly(files, base, depends, t, d);
    }
  }

  /** Everything the scripts name is the tag of a script. */
  ghost predicate AllNamed(files: seq<Script>) {
    forall k, d {:trigger OwnDependency(files, k, d)} {:trigger Kept(files, k), d in files[k].fwdDepends} ::
      Kept(files, k) && (OwnDependency(files, k, d) || d in files[k].fwdDepends) ==> exists j :: 0 <= j < |files| && files[j].tag == d
  }

  lemma RegisteredExactly(files: seq<Script>, d: Tag)
    ensures d in ByTag(files) <==> exists j :: 0 <= j < |files| && files[j].tag == d
  {
    ByTagSound(files);
    if j :| 0 <= j < |files| && files[j].tag == d {
      ByTagComplete(files, j);
    }
  }

  /** The audit passes exactly when everything named is there. */
  lemma NamedExactly(files: seq<Script>, base: seq<seq<Tag>>)
    requires BaseDepends(files, base)
    ensures AllRegistered(files, base) <==> AllNamed(files)
  {
    var byTag := ByTag(files);
    ByTagSound(files);
    forall d
      ensures d in byTag <==> exists j :: 0 <= j < |files| && files[j].tag == d
    {
      RegisteredExactly(files, d);
    }
    if AllRegistered(files, base) {
      forall k, d | Kept(files, k) && (OwnDependency(files, k, d) || d in files[k].fwdDepends)
        ensures exists j :: 0 <= j < |files| && files[j].tag == d
      {
        ByTagExactly(files, files[k].tag, k);
        BaseExactly(files, base, k, d);
        assert d in byTag;
      }
    }
    if AllNamed(files) {
      forall t, d | t in byTag && d in base[byTag[t]]
        ensures d in byTag
      {
        ByTagExactly(files, t, byTag[t]);
        BaseExactly(files, base, byTag[t], d);
      }
      forall t, f | t in byTag && f in files[byTag[t]].fwdDepends
        ensures f in byTag
      {
        ByTagExactly(files, t, byTag[t]);
      }
      assert PartlyRegistered(files, byTag, base, byTag.Keys);
    }
  }

  datatype LoadResult =
    | Loaded
    | NoLegacyVersion(version: int)
    | UnknownForward(tag: Tag, forward: Tag)
    | UnknownDependency(tag: Tag, dependency: Tag)

  datatype Checkpoint = LegacyCheckpoint(version: int) | TaggedCheckpoint(tags: set<Tag>) | NoVersionInformation

  datatype Outcome =
    | Unchanged
    | Written(tags: set<Tag>, applied: seq<Tag>)
    | Aborted(applied: seq<Tag>, left: set<Tag>)
    | FatalNoVersion
    | FatalNoLegacy(version: int)

  /** The checkpoint says which tags it starts from, and its legacy versions are registered. */
  ghost predicate StartKnown(legacy: map<int, Tag>, cpt: Checkpoint) {
    && !cpt.NoVersionInformation?
    && (cpt.LegacyCheckpoint? ==> forall i :: 2 <= i <= cpt.version ==> i in legacy)
  }

  /** The tags a checkpoint stands for. */
  ghost function StartTags(legacy: map<int, Tag>, cpt: Checkpoint): set<Tag>
    requires StartKnown(legacy, cpt)
  {
    if cpt.TaggedCheckpoint? then cpt.tags else LegacyTags(legacy, cpt.version)
  }

  ghost predicate FirstMissing(legacy: map<int, Tag>, version: int) {
    2 <= version && version !in legacy && forall j :: 2 <= j < version ==> j in legacy
  }

  /** What becomes of a checkpoint with tags `start`; `listed` says that it held them as a list. */
  ghost predicate IsOutcome(r: Rules, start: set<Tag>, listed: bool, outcome: Outcome)
    requires r.Valid()
  {
    var run := Migrate(r, start, ToApply(r, start));
    if run.left != {} then
      outcome.Aborted? && outcome.left == run.left && Linearizes(outcome.applied, run.batches)
    else if listed && ToApply(r, start) == {} then
      outcome == Unchanged
    else
      && outcome.Written? && outcome.tags == (start + r.up) - r.down
      && Linearizes(outcome.applied, run.batches)
  }

  class Registry {
    /** The scripts in the order of loading; the other tables name them by their place in it. */
    var scripts: seq<Script>
    var tagSet: set<Tag>
    var untagSet: set<Tag>
    var byTag: map<Tag, nat>
    var legacy: map<int, nat>
    /** The `depends` list of each script. */
    var depends: seq<seq<Tag>>

    constructor ()
      ensures scripts == [] && Tables() && depends == []
    {
      scripts, tagSet, untagSet, byTag, legacy, depends := [], {}, {}, map[], map[], [];
    }

    function AsRules(): Rules
      reads this
    {
      Rules(tagSet, untagSet, DependsByTag(byTag, depends))
    }

    function LegacyTagMap(): map<int, Tag>
      reads this
    {
      TagsOfVersions(scripts, legacy)
    }

    /** The tables, other than the dependencies, are those of the scripts. */
    ghost predicate Tables()
      reads this
    {
      && tagSet == TagsOfKind(scripts, Upgrades) && untagSet == TagsOfKind(scripts, Downgrades)
      && byTag == ByTag(scripts) && legacy == LegacyMap(scripts) && |depends| == |scripts|
    }

    method Register(s: Script)
      requires Tables() && depends == Declared(scripts)
      modifies this
      ensures scripts == old(scripts) + [s] && Tables() && depends == Declared(scripts)
    {
      OneMoreOfKind(scripts, s, Upgrades);
      OneMoreOfKind(scripts, s, Downgrades);
      OneMoreTag(scripts, s);
      OneMoreDeclared(scripts, s);
      OneMoreVersion(scripts, s);
      match s.kind {
        case Upgrades => tagSet := tagSet + {s.tag};
        case Downgrades => untagSet := untagSet + {s.tag};
      }
      if s.legacyVersion.Some? {
        legacy := legacy[s.legacyVersion.value := |scripts|];
      }
      byTag := byTag[s.tag := |scripts|];
      depends := depends + [s.depends];
      scripts := scripts + [s];
    }

    /** Makes each legacy version from 3 on depend on exactly the version before it. */
    method ChainLegacy() returns (r: LoadResult)
      requires Tables() && depends == Declared(scripts)
      modifies this`depends
      ensures |depends| == |scripts|
      ensures r.Loaded? || r == NoLegacyVersion(2)
      ensures r.Loaded? <==> (3 in legacy ==> 2 in legacy)
      ensures r.Loaded? ==> BaseDepends(scripts, depends)
    {
      LegacySound(scripts);
      var i := 3;
      while i in legacy
        invariant 3 <= i && ChainedBelow(scripts, legacy, depends, i)
        invariant i > 3 ==> 2 in legacy && i - 1 in legacy
        decreases Above(legacy, i)
      {
        if i - 1 !in legacy {
          return NoLegacyVersion(i - 1);
        }
        AboveShrinks(legacy, i);
        ChainOneMore(scripts, legacy, depends, i);
        depends := depends[legacy[i] := [scripts[legacy[i - 1]].tag]];
        i := i + 1;
      }
      ChainComplete(scripts, depends, i);
      return Loaded;
    }

    /** The forward dependencies of one script: each named script comes to depend on it. */
    method AddForwards(tag: Tag) returns (r: LoadResult)
      requires tag in byTag && Indexed(scripts, byTag, depends)
      modifies this`depends
      ensures r.Loaded? || r.UnknownForward?
      ensures r.UnknownForward? ==>
                r.tag == tag && r.forward in scripts[byTag[tag]].fwdDepends && r.forward !in byTag
      ensures r.Loaded? <==> forall f :: f in scripts[byTag[tag]].fwdDepends ==> f in byTag
      ensures Indexed(scripts, byTag, depends)
      ensures r.Loaded? ==> ForwardsAdded(byTag, old(depends), depends, tag, scripts[byTag[tag]].fwdDepends)
    {
      var forwards := scripts[byTag[tag]].fwdDepends;
      for j := 0 to |forwards|
        invariant Indexed(scripts, byTag, depends)
        invariant forall f :: f in forwards[..j] ==> f in byTag
        invariant ForwardsAdded(byTag, old(depends), depends, tag, forwards[..j])
      {
        var fd := forwards[j];
        assert forwards[..j + 1] == forwards[..j] + [fd];
        if fd !in byTag {
          return UnknownForward(tag, fd);
        }
        var k := byTag[fd];
        ForwardAdded(scripts, byTag, old(depends), depends, tag, forwards[..j], fd);
        depends := depends[k := depends[k] + [tag]];
      }
      assert forwards[..|forwards|] == forwards;
      return Loaded;
    }

    method AuditDependencies(tag: Tag) returns (r: LoadResult)
      requires tag in byTag && byTag[tag] < |depends|
      ensures r.Loaded? || r.UnknownDependency?
      ensures r.UnknownDependency? ==> r.tag == tag && r.dependency in depends[byTag[tag]] && r.dependency !in byTag
      ensures r.Loaded? <==> forall d :: d in depends[byTag[tag]] ==> d in byTag
    {
      var listed := depends[byTag[tag]];
      for j := 0 to |listed|
        invariant forall d :: d in listed[..j] ==> d in byTag
      {
        var dep := listed[j];
        if dep !in byTag {
          return UnknownDependency(tag, dep);
        }
        assert listed[..j + 1] == listed[..j] + [dep];
      }
      assert listed[..|listed|] == listed;
      return Loaded;
    }

    /** One turn of the loop over the registered tags. */
    method ResolveScript(tag: Tag, ghost base: seq<seq<Tag>>, ghost seen: set<Tag>) returns (r: LoadResult)
      requires Indexed(scripts, byTag, depends) && Indexed(scripts, byTag, base) && tag in byTag && tag !in seen
      requires PartlyResolved(scripts, byTag, base, depends, seen) && PartlyRegistered(scripts, byTag, base, seen)
      modifies this`depends
      ensures Indexed(scripts, byTag, depends)
      ensures r.Loaded? <==> PartlyRegistered(scripts, byTag, base, seen + {tag})
      ensures r.Loaded? ==> PartlyResolved(scripts, byTag, base, depends, seen + {tag})
    {
      ghost var were := depends;
      r := AddForwards(tag);
      if r.Loaded? {
        ResolveOneMore(scripts, byTag, base, were, depends, seen, tag);
        r := AuditDependencies(tag);
      }
    }

    /** Adds the forward dependencies, script by script in any order, and audits all of them. */
    method ResolveDependencies() returns (r: LoadResult)
      requires Indexed(scripts, byTag, depends)
      modifies this`depends
      ensures Indexed(scripts, byTag, depends)
      ensures r.Loaded? ==> PartlyResolved(scripts, byTag, old(depends), depends, byTag.Keys)
      ensures r.Loaded? <==> PartlyRegistered(scripts, byTag, old(depends), byTag.Keys)
    {
      ghost var base := depends;
      var rest := byTag.Keys;
      ghost var seen: set<Tag> := {};
      while rest != {}
        invariant rest !! seen && rest + seen == byTag.Keys && Indexed(scripts, byTag, depends)
        invariant PartlyResolved(scripts, byTag, base, depends, seen)
        invariant PartlyRegistered(scripts, byTag, base, seen)
        decreases rest
      {
        var tag :| tag in rest;
        r := ResolveScript(tag, base, seen);
        if !r.Loaded? {
          return;
        }
        rest, seen := rest - {tag}, seen + {tag};
      }
      assert seen == byTag.Keys;
      return Loaded;
    }

    /**
     Loads the scripts. The outcome depends only on what they are and, where two have the same
     tag or legacy version, on which is loaded last.
     */
    method LoadAll(files: seq<Script>) returns (r: LoadResult)
      requires scripts == [] && Tables() && depends == []
      modifies this
      ensures scripts == files && Tables()
      ensures r.Loaded? ==> AsRules().Closed() && (AsRules().Valid() <==> OneKindPerTag(files))
      ensures r.Loaded? ==> RulesOf(files, AsRules())
      ensures r.Loaded? ==> exists base :: BaseDepends(files, base) && Resolved(files, base, depends)
      ensures r.Loaded? <==> (HasVersion(files, 3) ==> HasVersion(files, 2)) && AllNamed(files)
    {
      for i := 0 to |files|
        invariant scripts == files[..i] && Tables() && depends == Declared(scripts)
      {
        assert files[..i + 1] == files[..i] + [files[i]];
        Register(files[i]);
      }
      assert files[..|files|] == files;
      r := LinkScripts();
    }

    /** Chains the legacy versions and resolves the dependencies. */
    method LinkScripts() returns (r: LoadResult)
      requires Tables() && depends == Declared(scripts)
      modifies this`depends
      ensures Tables()
      ensures r.Loaded? ==> AsRules().Closed() && (AsRules().Valid() <==> OneKindPerTag(scripts))
      ensures r.Loaded? ==> exists base :: BaseDepends(scripts, base) && Resolved(scripts, base, depends)
      ensures r.Loaded? ==> RulesOf(scripts, AsRules())
      ensures r.Loaded? <==> (HasVersion(scripts, 3) ==> HasVersion(scripts, 2)) && AllNamed(scripts)
    {
      ByTagSound(scripts);
      HasVersionExactly(scripts, 2);
      HasVersionExactly(scripts, 3);
      r := ChainLegacy();
      if r.Loaded? {
        ghost var base := depends;
        r := ResolveDependencies();
        NamedExactly(scripts, base);
        if r.Loaded? {
          LoadedRules(scripts, base, depends);
          RulesExactly(scripts, base, depends);
        }
      }
    }

    /** The tags a checkpoint starts from. */
    method InitialTags(cpt: Checkpoint) returns (tags: set<Tag>, failure: Option<Outcome>)
      requires Tables()
      ensures failure.None? <==> StartKnown(LegacyTagMap(), cpt)
      ensures failure.None? ==> tags == StartTags(LegacyTagMap(), cpt)
      ensures failure.Some? && cpt.NoVersionInformation? ==> failure.value.FatalNoVersion?
      ensures failure.Some? && !cpt.NoVersionInformation? ==>
                failure.value.FatalNoLegacy? && failure.value.version <= cpt.version
                && FirstMissing(LegacyTagMap(), failure.value.version)
    {
      LegacySound(scripts);
      ghost var tagOf := LegacyTagMap();
      tags, failure := {}, None;
      match cpt {
        case LegacyCheckpoint(version) =>
          var i := 2;
          while i <= version
            invariant i == 2 || 2 <= i <= version + 1
            invariant forall j :: 2 <= j < i ==> j in tagOf
            invariant tags == LegacyTags(tagOf, i - 1)
          {
            if i !in legacy {
              assert i !in tagOf && FirstMissing(tagOf, i) && !StartKnown(tagOf, cpt);
              return tags, Some(FatalNoLegacy(i));
            }
            LegacyTagsNext(tagOf, i);
            tags := tags + {scripts[legacy[i]].tag};
            i := i + 1;
          }
          SameVersions(tagOf, i - 1, version);
        case TaggedCheckpoint(listed) =>
          tags := listed;
        case NoVersionInformation =>
          failure := Some(FatalNoVersion);
      }
    }

    /** One script's `update`: Python's `remove` fails on an absent tag, so that must not happen. */
    method Update(tag: Tag, tags: set<Tag>) returns (updated: set<Tag>)
      requires tag in tagSet + untagSet
      requires tag !in tagSet ==> tag in tags
      ensures updated == if tag in tagSet then tags + {tag} else tags - {tag}
    {
      updated := if tag in tagSet then tags + {tag} else tags - {tag};
    }

    /** Applies a set of ready scripts in whatever order the set yields them. */
    method ApplyBatch(ready: set<Tag>, tags: set<Tag>) returns (updated: set<Tag>, order: seq<Tag>)
      requires AsRules().Valid() && Pending(AsRules(), tags, ready)
      ensures updated == After(AsRules(), tags, ready)
      ensures multiset(order) == multiset(ready)
    {
      updated, order := tags, [];
      var todo := ready;
      ghost var rules := AsRules();
      AfterNothing(rules, tags, ready);
      while todo != {}
        invariant todo <= ready
        invariant updated == After(rules, tags, ready - todo)
        invariant multiset(order) == multiset(ready - todo)
        decreases |todo|
      {
        var tag :| tag in todo;
        AfterOneMore(rules, tags, ready, todo, tag);
        updated := Update(tag, updated);
        todo, order := todo - {tag}, order + [tag];
      }
    }

    /** The migration loop. */
    method ApplyAll(start: set<Tag>) returns (tags: set<Tag>, applied: seq<Tag>, left: set<Tag>)
      requires AsRules().Valid()
      ensures var run := Migrate(AsRules(), start, ToApply(AsRules(), start));
              tags == run.tags && left == run.left && Linearizes(applied, run.batches)
    {
      var rules := AsRules();
      var toApply := ToApply(rules, start);
      tags, applied := start, [];
      ghost var batches: seq<set<Tag>> := [];
      ghost var whole := Migrate(rules, start, toApply);
      ContinuesStart(rules, start, toApply);
      while toApply != {}
        invariant Pending(rules, tags, toApply)
        invariant Linearizes(applied, batches)
        invariant Continues(rules, whole, tags, toApply, batches)
        decreases |toApply|
      {
        var ready := Batch(rules, toApply, tags);
        if ready == {} {
          break;
        }
        LoopStep(rules, whole, tags, toApply, batches);
        var updated, order := ApplyBatch(ready, tags);
        LinearizesSnoc(applied, batches, order, ready);
        tags, applied, toApply := updated, applied + order, toApply - ready;
        batches := batches + [ready];
      }
      assert batches + [] == batches;
      left := toApply;
    }

    /**
     A checkpoint is refused when it does not say what it starts from, aborted when its run is
     stuck, left alone when it lists its tags and none is pending, and written otherwise.
     */
    method ProcessFile(cpt: Checkpoint) returns (outcome: Outcome)
      requires Tables() && AsRules().Valid()
      ensures outcome.FatalNoVersion? <==> cpt.NoVersionInformation?
      ensures outcome.FatalNoLegacy? <==> cpt.LegacyCheckpoint? && !StartKnown(LegacyTagMap(), cpt)
      ensures outcome.FatalNoLegacy? ==> FirstMissing(LegacyTagMap(), outcome.version) && outcome.version <= cpt.version
      ensures StartKnown(LegacyTagMap(), cpt) ==>
                IsOutcome(AsRules(), StartTags(LegacyTagMap(), cpt), cpt.TaggedCheckpoint?, outcome)
    {
      var initial, failure := InitialTags(cpt);
      if failure.Some? {
        return failure.value;
      }
      var tags, applied, left := ApplyAll(initial);
      if left != {} {
        return Aborted(applied, left);
      }
      NothingPending(AsRules(), initial, applied);
      CompletedTags(AsRules(), initial);
      return if cpt.LegacyCheckpoint? || applied != [] then Written(tags, applied) else Unchanged;
    }
  }

  // ----- Steps of the loops above -----

  lemma AfterNothing(r: Rules, tags: set<Tag>, ready: set<Tag>)
    ensures After(r, tags, ready - ready) == tags && multiset(ready - ready) == multiset{}
    ensures ready - {} == ready
  {
    assert ready - ready == {};
  }

  lemma AfterOneMore(r: Rules, tags: set<Tag>, ready: set<Tag>, todo: set<Tag>, tag: Tag)
    requires r.Valid() && Pending(r, tags, ready) && todo <= ready && tag in todo
    ensures tag in r.up + r.down
    ensures After(r, tags, ready - (todo - {tag})) ==
            if tag in r.up then After(r, tags, ready - todo) + {tag} else After(r, tags, ready - todo) - {tag}
    ensures tag !in r.up ==> tag in After(r, tags, ready - todo)
    ensures multiset(ready - (todo - {tag})) == multiset(ready - todo) + multiset{tag}
  {
    assert ready - (todo - {tag}) == (ready - todo) + {tag};
    if tag in r.up {
      assert tag !in r.down;
    } else {
      assert tag in ready * r.down;
    }
  }

  lemma LegacyTagsNext(tagOf: map<int, Tag>, i: int)
    requires 2 <= i && forall j :: 2 <= j <= i ==> j in tagOf
    ensures LegacyTags(tagOf, i) == LegacyTags(tagOf, i - 1) + {tagOf[i]}
  {
  }

  lemma SameVersions(tagOf: map<int, Tag>, last: int, version: int)
    requires (forall j :: 2 <= j <= last ==> j in tagOf) && (last == version || (last == 1 && version < 2))
    ensures (forall j :: 2 <= j <= version ==> j in tagOf) && LegacyTags(tagOf, last) == LegacyTags(tagOf, version)
  {
    if version < 2 {
      assert LegacyTags(tagOf, last) == {} && LegacyTags(tagOf, version) == {};
    }
  }

  ghost function Above(legacy: map<int, nat>, i: int): set<int> {
    set k | k in legacy && i <= k
  }

  lemma AboveShrinks(legacy: map<int, nat>, i: int)
    requires i in legacy
    ensures Above(legacy, i + 1) < Above(legacy, i)
  {
    assert i in Above(legacy, i) && i !in Above(legacy, i + 1);
  }

  ghost predicate InChain(legacy: map<int, nat>, k: nat, i: int) {
    exists j :: 3 <= j < i && j in legacy && legacy[j] == k
  }

  /** Versions 3 to `i - 1` have been chained and nothing else has been changed. */
  ghost predicate ChainedBelow(scripts: seq<Script>, legacy: map<int, nat>, depends: seq<seq<Tag>>, i: int) {
    && |depends| == |scripts|
    && (forall j :: 3 <= j < i ==> Link(scripts, legacy, depends, j))
    && (forall k :: 0 <= k < |scripts| && !InChain(legacy, k, i) ==> depends[k] == scripts[k].depends)
  }

  lemma ChainOneMore(scripts: seq<Script>, legacy: map<int, nat>, depends: seq<seq<Tag>>, i: int)
    requires ChainedBelow(scripts, legacy, depends, i) && 3 <= i && i in legacy && i - 1 in legacy
    requires forall v :: v in legacy ==> legacy[v] < |scripts| && scripts[legacy[v]].legacyVersion == Some(v)
    ensures ChainedBelow(scripts, legacy, depends[legacy[i] := [scripts[legacy[i - 1]].tag]], i + 1)
  {
    var more := depends[legacy[i] := [scripts[legacy[i - 1]].tag]];
    forall j | 3 <= j < i + 1
      ensures Link(scripts, legacy, more, j)
    {
      assert j < i ==> Link(scripts, legacy, depends, j);
    }
    forall k | 0 <= k < |scripts| && !InChain(legacy, k, i + 1)
      ensures more[k] == scripts[k].depends
    {
      assert !InChain(legacy, k, i);
      assert k != legacy[i];
    }
  }

  lemma ChainComplete(scripts: seq<Script>, depends: seq<seq<Tag>>, i: int)
    requires ChainedBelow(scripts, LegacyMap(scripts), depends, i) && 3 <= i && i !in LegacyMap(scripts)
    ensures BaseDepends(scripts, depends)
  {
    var legacy := LegacyMap(scripts);
    forall k
      ensures Chained(legacy, k) <==> 3 <= k < i
      ensures Chained(legacy, k) ==> Link(scripts, legacy, depends, k)
    {
      forall j | 3 <= j < i
        ensures j in legacy
      {
        assert Link(scripts, legacy, depends, j);
      }
    }
    forall k | 0 <= k < |scripts| && (forall v :: Chained(legacy, v) ==> legacy[v] != k)
      ensures depends[k] == scripts[k].depends
    {
      assert !InChain(legacy, k, i);
    }
  }

  /** Exactly the scripts named in `forwards` have come to depend on `tag`. */
  ghost predicate ForwardsAdded(byTag: map<Tag, nat>, were: seq<seq<Tag>>, now: seq<seq<Tag>>, tag: Tag, forwards: seq<Tag>) {
    && |now| == |were|
    && forall t, d :: t in byTag && byTag[t] < |now| ==>
         (d in now[byTag[t]] <==> d in were[byTag[t]] || (d == tag && t in forwards))
  }

  lemma ForwardAdded(scripts: seq<Script>, byTag: map<Tag, nat>, were: seq<seq<Tag>>, now: seq<seq<Tag>>,
                     tag: Tag, forwards: seq<Tag>, fd: Tag)
    requires Indexed(scripts, byTag, now) && fd in byTag && ForwardsAdded(byTag, were, now, tag, forwards)
    ensures ForwardsAdded(byTag, were, now[byTag[fd] := now[byTag[fd]] + [tag]], tag, forwards + [fd])
  {
    var more := now[byTag[fd] := now[byTag[fd]] + [tag]];
    forall t, d | t in byTag && byTag[t] < |more|
      ensures d in more[byTag[t]] <==> d in were[byTag[t]] || (d == tag && t in forwards + [fd])
    {
      assert d in now[byTag[t]] <==> d in were[byTag[t]] || (d == tag && t in forwards);
      assert t != fd ==> byTag[t] != byTag[fd];
    }
  }

  lemma ResolveOneMore(scripts: seq<Script>, byTag: map<Tag, nat>, base: seq<seq<Tag>>, were: seq<seq<Tag>>,
                       now: seq<seq<Tag>>, seen: set<Tag>, tag: Tag)
    requires Indexed(scripts, byTag, base) && Indexed(scripts, byTag, were) && Indexed(scripts, byTag, now)
    requires PartlyResolved(scripts, byTag, base, were, seen) && tag in byTag && tag !in seen
    requires ForwardsAdded(byTag, were, now, tag, scripts[byTag[tag]].fwdDepends)
    ensures PartlyResolved(scripts, byTag, base, now, seen + {tag})
    ensures (forall d :: d in now[byTag[tag]] ==> d in byTag) <==> (forall d :: d in base[byTag[tag]] ==> d in byTag)
  {
    forall t, d | t in byTag
      ensures d in now[byTag[t]] <==> d in base[byTag[t]] || (d in seen + {tag} && NamesForward(scripts, byTag, d, t))
    {
      assert d in now[byTag[t]] <==> d in were[byTag[t]] || (d == tag && t in scripts[byTag[tag]].fwdDepends);
    }
  }

  /** What the migration loop is given after loading. */
  lemma LoadedRules(scripts: seq<Script>, base: seq<seq<Tag>>, depends: seq<seq<Tag>>)
    requires Resolved(scripts, base, depends) && AllRegistered(scripts, base)
    ensures var r := Rules(TagsOfKind(scripts, Upgrades), TagsOfKind(scripts, Downgrades), DependsByTag(ByTag(scripts), depends));
            r.Closed() && (r.Valid() <==> OneKindPerTag(scripts))
  {
    var byTag := ByTag(scripts);
    ByTagSound(scripts);
    RegistryKinds(scripts);
    assert DependsByTag(byTag, depends).Keys == byTag.Keys;
    forall t, d | t in byTag && d in depends[byTag[t]]
      ensures d in byTag
    {
      assert d in base[byTag[t]] || d in byTag;
    }
  }

  /** What is left to do is the tail of the whole run. */
  ghost predicate Continues(r: Rules, whole: Run, tags: set<Tag>, toApply: set<Tag>, batches: seq<set<Tag>>)
    requires toApply <= r.depends.Keys
  {
    var rest := Migrate(r, tags, toApply);
    whole == Run(rest.tags, rest.left, batches + rest.batches)
  }

  lemma ContinuesStart(r: Rules, tags: set<Tag>, toApply: set<Tag>)
    requires toApply <= r.depends.Keys
    ensures Continues(r, Migrate(r, tags, toApply), tags, toApply, [])
  {
    var batches := Migrate(r, tags, toApply).batches;
    assert [] + batches == batches;
  }

  lemma ContinuesStep(r: Rules, whole: Run, tags: set<Tag>, toApply: set<Tag>, batches: seq<set<Tag>>)
    requires toApply <= r.depends.Keys && Continues(r, whole, tags, toApply, batches)
    requires Batch(r, toApply, tags) != {}
    ensures var ready := Batch(r, toApply, tags);
            Continues(r, whole, After(r, tags, ready), toApply - ready, batches + [ready])
  {
    var ready := Batch(r, toApply, tags);
    SmallerRest(toApply, ready);
    var rest := Migrate(r, After(r, tags, ready), toApply - ready);
    assert batches + ([ready] + rest.batches) == (batches + [ready]) + rest.batches;
  }

  lemma LoopStep(r: Rules, whole: Run, tags: set<Tag>, toApply: set<Tag>, batches: seq<set<Tag>>)
    requires r.Valid() && Pending(r, tags, toApply) && Continues(r, whole, tags, toApply, batches)
    requires Batch(r, toApply, tags) != {}
    ensures var ready := Batch(r, toApply, tags);
            && Pending(r, tags, ready) && Pending(r, After(r, tags, ready), toApply - ready)
            && |toApply - ready| < |toApply|
            && Continues(r, whole, After(r, tags, ready), toApply - ready, batches + [ready])
  {
    var ready := Batch(r, toApply, tags);
    PendingStep(r, tags, toApply, ready);
    SmallerRest(toApply, ready);
    ContinuesStep(r, whole, tags, toApply, batches);
  }

  /** A completed run has applied nothing exactly when nothing was pending. */
  lemma NothingPending(r: Rules, start: set<Tag>, applied: seq<Tag>)
    requires r.Valid()
    requires var run := Migrate(r, start, ToApply(r, start)); run.left == {} && Linearizes(applied, run.batches)
    ensures applied == [] <==> ToApply(r, start) == {}
  {
    forall t
      ensures t in applied <==> t in ToApply(r, start)
    {
      AppliedOnce(r, start, ToApply(r, start), applied, t);
      assert t in multiset(applied) <==> t in applied;
    }
    if applied != [] {
      assert applied[0] in applied;
    }
  }

  /** The base dependencies are a function of the scripts. */
  lemma BaseUnique(scripts: seq<Script>, base: seq<seq<Tag>>)
    requires BaseDepends(scripts, base)
    ensures forall other :: BaseDepends(scripts, other) ==> other == base
  {
    var legacy := LegacyMap(scripts);
    forall other | BaseDepends(scripts, other)
      ensures other == base
    {
      forall k | 0 <= k < |base|
        ensures other[k] == base[k]
      {
        if i :| Chained(legacy, i) && legacy[i] == k {
          assert Link(scripts, legacy, base, i) && Link(scripts, legacy, other, i);
        } else {
          assert forall i :: Chained(legacy, i) ==> legacy[i] != k;
        }
      }
    }
  }

  lemma DistinctByTag(scripts: seq<Script>, k: nat)
    requires DistinctTags(scripts) && k < |scripts|
    ensures scripts[k].tag in ByTag(scripts) && ByTag(scripts)[scripts[k].tag] == k
  {
    ByTagComplete(scripts, k);
    ByTagSound(scripts);
  }

  lemma LegacyRegistered(scripts: seq<Script>, v: int)
    requires DistinctTags(scripts) && v in LegacyMap(scripts)
    ensures var k := LegacyMap(scripts)[v];
            k < |scripts| && scripts[k].tag in ByTag(scripts) && ByTag(scripts)[scripts[k].tag] == k
  {
    LegacySound(scripts);
    DistinctByTag(scripts, LegacyMap(scripts)[v]);
  }

  lemma BaseKept(scripts: seq<Script>, byTag: map<Tag, nat>, base: seq<seq<Tag>>, depends: seq<seq<Tag>>, t: Tag, d: Tag)
    requires Indexed(scripts, byTag, base) && Indexed(scripts, byTag, depends)
    requires PartlyResolved(scripts, byTag, base, depends, byTag.Keys) && t in byTag && d in base[byTag[t]]
    ensures d in depends[byTag[t]]
  {
  }

  lemma LoadedLink(scripts: seq<Script>, base: seq<seq<Tag>>, depends: seq<seq<Tag>>, i: int)
    requires DistinctTags(scripts) && Resolved(scripts, base, depends)
    requires Link(scripts, LegacyMap(scripts), base, i)
    ensures ChainLink(Rules({}, {}, DependsByTag(ByTag(scripts), depends)), TagsOfVersions(scripts, LegacyMap(scripts)), i)
  {
    var legacy := LegacyMap(scripts);
    LegacyRegistered(scripts, i);
    ByTagSound(scripts);
    BaseKept(scripts, ByTag(scripts), base, depends, scripts[legacy[i]].tag, scripts[legacy[i - 1]].tag);
  }

  lemma VersionsDiffer(scripts: seq<Script>, v: int, w: int)
    requires DistinctTags(scripts) && v in LegacyMap(scripts) && w in LegacyMap(scripts)
    requires TagsOfVersions(scripts, LegacyMap(scripts))[v] == TagsOfVersions(scripts, LegacyMap(scripts))[w]
    ensures v == w
  {
    LegacySound(scripts);
    LegacyRegistered(scripts, v);
    LegacyRegistered(scripts, w);
  }

  /** Loaded upgraders with versions 2 to `last` form the chain that orders legacy runs. */
  lemma LoadedLegacyChain(scripts: seq<Script>, base: seq<seq<Tag>>, depends: seq<seq<Tag>>, last: int)
    requires DistinctTags(scripts) && BaseDepends(scripts, base) && Resolved(scripts, base, depends)
    requires TagsOfKind(scripts, Downgrades) == {}
    requires forall i :: i in LegacyMap(scripts) <==> 2 <= i <= last
    ensures var r := Rules(TagsOfKind(scripts, Upgrades), {}, DependsByTag(ByTag(scripts), depends));
            r.Valid() && LegacyChain(r, TagsOfVersions(scripts, LegacyMap(scripts)), last)
  {
    var r := Rules(TagsOfKind(scripts, Upgrades), {}, DependsByTag(ByTag(scripts), depends));
    var tagOf := TagsOfVersions(scripts, LegacyMap(scripts));
    KeysHaveKinds(scripts);
    assert r.depends.Keys == ByTag(scripts).Keys;
    forall v | v in tagOf
      ensures tagOf[v] in r.up
    {
      LegacyRegistered(scripts, v);
    }
    forall v, w | v in tagOf && w in tagOf && tagOf[v] == tagOf[w]
      ensures v == w
    {
      VersionsDiffer(scripts, v, w);
    }
    forall i | 3 <= i <= last
      ensures ChainLink(r, tagOf, i)
    {
      assert Chained(LegacyMap(scripts), i);
      LoadedLink(scripts, base, depends, i);
      assert r.depends == DependsByTag(ByTag(scripts), depends);
    }
  }
}
