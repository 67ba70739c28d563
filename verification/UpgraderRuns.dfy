/**
 A whole run of `util/cpt_upgrader.py`: the scripts are loaded and one checkpoint is processed.
 Everything is said of the scripts and the checkpoint alone.
 */
module UpgraderRuns {
  import opened Wrappers
  import opened Sorting
  import opened CheckpointUpgrader

  /** The tags a checkpoint starts from. */
  ghost predicate StartsFrom(files: seq<Script>, cpt: Checkpoint, start: set<Tag>) {
    match cpt
    case NoVersionInformation => false
    case TaggedCheckpoint(tags) => start == tags
    case LegacyCheckpoint(version) =>
      && (forall v :: 2 <= v <= version ==> HasVersion(files, v))
      && (forall t :: t in start <==> exists v, k :: 2 <= v <= version && Claims(files, k, v) && files[k].tag == t)
  }

  /** An upgrade that is missing, or a downgrade of a tag that is there. */
  ghost predicate Due(files: seq<Script>, start: set<Tag>, t: Tag) {
    (HasScript(files, t, Upgrades) && t !in start) || (HasScript(files, t, Downgrades) && t in start)
  }

  ghost predicate DueCycle(files: seq<Script>, start: set<Tag>, c: seq<Tag>) {
    && |c| >= 2 && c[0] == c[|c| - 1]
    && (forall i :: 0 <= i < |c| - 1 ==> DependsOn(files, c[i], c[i + 1]))
    && (forall t :: t in c ==> Due(files, start, t))
  }

  /** Each script comes behind everything it depends on, and none comes twice. */
  ghost predicate InDependencyOrder(files: seq<Script>, start: set<Tag>, applied: seq<Tag>) {
    && (forall m, d :: 0 <= m < |applied| && DependsOn(files, applied[m], d) ==> d in start || d in applied[..m])
    && (forall m, n :: 0 <= m < n < |applied| ==> applied[m] != applied[n])
  }

  /** Later legacy versions are applied later. */
  ghost predicate InVersionOrder(files: seq<Script>, version: int, applied: seq<Tag>) {
    forall v, w, j, k, m, n ::
      && version < v < w && Claims(files, j, v) && Claims(files, k, w)
      && 0 <= m < |applied| && applied[m] == files[j].tag
      && 0 <= n < |applied| && applied[n] == files[k].tag
      ==> m < n
  }

  function Applied(outcome: Outcome): seq<Tag> {
    match outcome
    case Written(tags, applied) => applied
    case Aborted(applied, left) => applied
    case _ => []
  }

  // ----- From the rules back to the scripts -----

  lemma DueExactly(files: seq<Script>, r: Rules, start: set<Tag>, t: Tag)
    requires RulesOf(files, r)
    ensures t in ToApply(r, start) <==> Due(files, start, t)
  {
  }

  lemma CycleExactly(files: seq<Script>, r: Rules, start: set<Tag>)
    requires RulesOf(files, r) && r.Valid()
    ensures PendingCycle(r, ToApply(r, start)) <==> exists c :: DueCycle(files, start, c)
  {
    forall t
      ensures t in ToApply(r, start) <==> Due(files, start, t)
    {
      DueExactly(files, r, start, t);
    }
    if c :| Cycle(r, c) && forall t :: t in c ==> t in ToApply(r, start) {
      forall i | 0 <= i < |c| - 1
        ensures DependsOn(files, c[i], c[i + 1])
      {
        assert Edge(r, c, i);
      }
      assert DueCycle(files, start, c);
    }
    if c :| DueCycle(files, start, c) {
      forall i | 0 <= i < |c| - 1
        ensures Edge(r, c, i)
      {
        assert c[i] in c && DependsOn(files, c[i], c[i + 1]);
        assert c[i] in ToApply(r, start);
      }
      assert Cycle(r, c);
    }
  }

  lemma NoDowngradeExactly(files: seq<Script>, r: Rules, start: set<Tag>)
    requires RulesOf(files, r) && r.Valid()
    ensures NoDowngradeDependency(r, ToApply(r, start)) <==>
            forall t, d :: Due(files, start, t) && DependsOn(files, t, d) ==> !HasScript(files, d, Downgrades)
  {
    forall t
      ensures t in ToApply(r, start) <==> Due(files, start, t)
    {
      DueExactly(files, r, start, t);
    }
    if NoDowngradeDependency(r, ToApply(r, start)) {
      forall t, d | Due(files, start, t) && DependsOn(files, t, d)
        ensures !HasScript(files, d, Downgrades)
      {
        assert t in ToApply(r, start) && !DependsOnDowngrade(r, t) && t in r.depends;
      }
    }
    if forall t, d :: Due(files, start, t) && DependsOn(files, t, d) ==> !HasScript(files, d, Downgrades) {
      forall t | t in ToApply(r, start)
        ensures !DependsOnDowngrade(r, t)
      {
        assert t in r.depends ==> forall d :: d in r.depends[t] ==> DependsOn(files, t, d);
      }
    }
  }

  lemma OrderFromRules(files: seq<Script>, r: Rules, start: set<Tag>, applied: seq<Tag>)
    requires RulesOf(files, r) && r.Valid() && Linearizes(applied, Migrate(r, start, ToApply(r, start)).batches)
    ensures InDependencyOrder(files, start, applied)
    ensures forall t :: t in applied <==> Due(files, start, t) && t !in Migrate(r, start, ToApply(r, start)).left
  {
    var toApply := ToApply(r, start);
    forall t
      ensures multiset(applied)[t] == if t in toApply - Migrate(r, start, toApply).left then 1 else 0
      ensures t in toApply <==> Due(files, start, t)
    {
      AppliedOnce(r, start, toApply, applied, t);
      DueExactly(files, r, start, t);
    }
    forall t
      ensures t in applied <==> Due(files, start, t) && t !in Migrate(r, start, toApply).left
    {
      assert t in applied <==> multiset(applied)[t] > 0;
    }
    forall m, d | 0 <= m < |applied| && DependsOn(files, applied[m], d)
      ensures d in start || d in applied[..m]
    {
      assert applied[m] in applied && applied[m] in toApply && d in r.depends[applied[m]];
      DependenciesFirst(r, start, toApply, applied, m, d);
    }
    forall m, n | 0 <= m < n < |applied|
      ensures applied[m] != applied[n]
    {
      if applied[m] == applied[n] {
        TwiceInSequence(applied, m, n);
      }
    }
  }

  // ----- The outcome -----

  /**
   What becomes of a checkpoint that starts from `start`: what is applied is due and in dependency
   order; a written one has the upgrade tags added and the downgrade tags removed, and an aborted one
   names what is due and could not be applied.
   */
  ghost predicate Explained(files: seq<Script>, start: set<Tag>, outcome: Outcome) {
    && InDependencyOrder(files, start, Applied(outcome))
    && (forall t :: t in Applied(outcome) ==> Due(files, start, t))
    && (outcome.Written? ==>
          forall t :: t in outcome.tags <==> (t in start || HasScript(files, t, Upgrades)) && !HasScript(files, t, Downgrades))
    && (outcome.Aborted? ==>
          outcome.left != {} && forall t :: t in outcome.left <==> Due(files, start, t) && t !in outcome.applied)
    && (!outcome.Aborted? ==> forall t :: Due(files, start, t) ==> t in Applied(outcome))
  }

  /** If nothing due depends on a downgrade tag, a run is aborted exactly on a cycle of the scripts' own dependencies. */
  ghost predicate AbortsOnCycles(files: seq<Script>, start: set<Tag>, outcome: Outcome) {
    (forall t, d :: Due(files, start, t) && DependsOn(files, t, d) ==> !HasScript(files, d, Downgrades)) ==>
      (outcome.Aborted? <==> exists c :: DueCycle(files, start, c))
  }

  lemma OutcomeExplained(files: seq<Script>, r: Rules, start: set<Tag>, listed: bool, outcome: Outcome)
    requires RulesOf(files, r) && r.Valid() && r.Closed() && IsOutcome(r, start, listed, outcome)
    ensures Explained(files, start, outcome)
  {
    var run := Migrate(r, start, ToApply(r, start));
    if outcome.Unchanged? {
      NothingDue(files, r, start);
    } else {
      OrderFromRules(files, r, start, Applied(outcome));
      MigrateTags(r, start, ToApply(r, start));
      forall t | t in run.left
        ensures Due(files, start, t)
      {
        DueExactly(files, r, start, t);
      }
    }
  }

  lemma NothingDue(files: seq<Script>, r: Rules, start: set<Tag>)
    requires RulesOf(files, r) && ToApply(r, start) == {}
    ensures forall t :: !Due(files, start, t)
  {
    forall t
      ensures !Due(files, start, t)
    {
      DueExactly(files, r, start, t);
    }
  }

  lemma OutcomeAborts(files: seq<Script>, r: Rules, start: set<Tag>, listed: bool, outcome: Outcome)
    requires RulesOf(files, r) && r.Valid() && r.Closed() && IsOutcome(r, start, listed, outcome)
    ensures AbortsOnCycles(files, start, outcome)
  {
    NoDowngradeExactly(files, r, start);
    CycleExactly(files, r, start);
    if NoDowngradeDependency(r, ToApply(r, start)) {
      AbortsExactlyOnCycles(r, start);
    }
  }

  /** Upgraders only, under distinct tags, with legacy versions from 2 on without a gap. */
  ghost predicate LegacySeries(files: seq<Script>) {
    && DistinctTags(files)
    && (forall k :: 0 <= k < |files| ==> files[k].kind == Upgrades)
    && (forall v :: HasVersion(files, v) ==> 2 <= v && forall w :: 2 <= w <= v ==> HasVersion(files, w))
  }

  /** The version before one in the series is a dependency. */
  lemma PreviousIsDependency(files: seq<Script>, v: int, j: int, k: int)
    requires LegacySeries(files) && 3 <= v && Claims(files, j, v - 1) && Claims(files, k, v)
    ensures DependsOn(files, files[k].tag, files[j].tag)
  {
    assert HasVersion(files, v);
    assert FollowsOn(files, v);
    assert Kept(files, k);
    assert OwnDependency(files, k, files[j].tag);
  }

  lemma {:induction false} EarlierVersionFirst(files: seq<Script>, start: set<Tag>, applied: seq<Tag>, version: int,
                                               v: int, w: int, j: int, k: int, n: nat) returns (m: nat)
    requires LegacySeries(files) && InDependencyOrder(files, start, applied)
    requires StartsFrom(files, LegacyCheckpoint(version), start)
    requires version < v < w && Claims(files, j, v) && Claims(files, k, w) && n < |applied| && applied[n] == files[k].tag
    ensures m < n && applied[m] == files[j].tag
    decreases w - v
  {
    assert HasVersion(files, v) && HasVersion(files, w);
    assert HasVersion(files, w - 1);
    var i :| Claims(files, i, w - 1);
    PreviousIsDependency(files, w, i, k);
    NotInStart(files, start, version, w - 1, i);
    assert files[i].tag in applied[..n];
    m :| 0 <= m < n && applied[m] == files[i].tag;
    if v < w - 1 {
      m := EarlierVersionFirst(files, start, applied, version, v, w - 1, j, i, m);
    } else {
      OnlyClaim(files, v);
    }
  }

  lemma NotInStart(files: seq<Script>, start: set<Tag>, version: int, v: int, i: int)
    requires LegacySeries(files) && StartsFrom(files, LegacyCheckpoint(version), start) && version < v && Claims(files, i, v)
    ensures files[i].tag !in start
  {
    forall u, k | 2 <= u <= version && Claims(files, k, u)
      ensures files[k].tag != files[i].tag
    {
      assert k != i;
    }
  }

  lemma VersionsRise(files: seq<Script>, start: set<Tag>, version: int, applied: seq<Tag>)
    requires LegacySeries(files) && InDependencyOrder(files, start, applied)
    requires StartsFrom(files, LegacyCheckpoint(version), start)
    ensures InVersionOrder(files, version, applied)
  {
    forall v, w, j, k, m, n |
      && version < v < w && Claims(files, j, v) && Claims(files, k, w)
      && 0 <= m < |applied| && applied[m] == files[j].tag
      && 0 <= n < |applied| && applied[n] == files[k].tag
      ensures m < n
    {
      var m' := EarlierVersionFirst(files, start, applied, version, v, w, j, k, n);
      assert m == m';
    }
  }

  // ----- The script as a whole -----

  datatype Run = Refused(reason: LoadResult) | MixedKinds | Processed(outcome: Outcome)

  lemma StartExactly(files: seq<Script>, cpt: Checkpoint)
    ensures var tagOf := TagsOfVersions(files, LegacyMap(files));
            if StartKnown(tagOf, cpt) then StartsFrom(files, cpt, StartTags(tagOf, cpt))
            else forall start :: !StartsFrom(files, cpt, start)
  {
    var legacy, tagOf := LegacyMap(files), TagsOfVersions(files, LegacyMap(files));
    forall v
      ensures v in tagOf <==> HasVersion(files, v)
    {
      HasVersionExactly(files, v);
    }
    if cpt.LegacyCheckpoint? && StartKnown(tagOf, cpt) {
      LegacySound(files);
      forall v | 2 <= v <= cpt.version
        ensures v in legacy
      {
        assert v in tagOf;
      }
      forall t
        ensures t in StartTags(tagOf, cpt) <==> exists v, k :: 2 <= v <= cpt.version && Claims(files, k, v) && files[k].tag == t
      {
        VersionTagExactly(files, cpt.version, t);
      }
    }
  }

  lemma VersionTagExactly(files: seq<Script>, version: int, t: Tag)
    requires forall v :: 2 <= v <= version ==> v in LegacyMap(files)
    ensures t in LegacyTags(TagsOfVersions(files, LegacyMap(files)), version) <==>
            exists v, k :: 2 <= v <= version && Claims(files, k, v) && files[k].tag == t
  {
    var legacy, tagOf := LegacyMap(files), TagsOfVersions(files, LegacyMap(files));
    LegacySound(files);
    if v :| 2 <= v <= version && tagOf[v] == t {
      LegacyExactly(files, v, legacy[v]);
    }
    if v, k :| 2 <= v <= version && Claims(files, k, v) && files[k].tag == t {
      LegacyExactly(files, v, k);
      assert tagOf[v] == t;
    }
  }

  /**
   Loads the scripts and processes one checkpoint. Scripts under which a tag has both kinds are
   not taken further.
   */
  method UpgradeCheckpoint(files: seq<Script>, cpt: Checkpoint) returns (run: Run)
    ensures run.Refused? <==> !((HasVersion(files, 3) ==> HasVersion(files, 2)) && AllNamed(files))
    ensures run.Refused? ==> !run.reason.Loaded?
    ensures run.MixedKinds? <==> !run.Refused? && !OneKindPerTag(files)
    ensures run.Processed? ==>
              (run.outcome.FatalNoVersion? || run.outcome.FatalNoLegacy? <==> forall start :: !StartsFrom(files, cpt, start))
    ensures run.Processed? ==> (run.outcome.FatalNoVersion? <==> cpt.NoVersionInformation?)
    ensures run.Processed? && run.outcome.FatalNoLegacy? ==>
              && cpt.LegacyCheckpoint? && 2 <= run.outcome.version <= cpt.version && !HasVersion(files, run.outcome.version)
              && forall v :: 2 <= v < run.outcome.version ==> HasVersion(files, v)
    ensures run.Processed? ==>
              forall start :: StartsFrom(files, cpt, start) ==>
                Explained(files, start, run.outcome) && AbortsOnCycles(files, start, run.outcome)
    ensures run.Processed? && LegacySeries(files) && cpt.LegacyCheckpoint? ==>
              InVersionOrder(files, cpt.version, Applied(run.outcome))
  {
    var registry := new Registry();
    var loaded := registry.LoadAll(files);
    if !loaded.Loaded? {
      return Refused(loaded);
    }
    if registry.tagSet * registry.untagSet != {} {
      return MixedKinds;
    }
    var outcome := registry.ProcessFile(cpt);
    StartExactly(files, cpt);
    forall v
      ensures HasVersion(files, v) <==> v in LegacyMap(files)
    {
      HasVersionExactly(files, v);
    }
    Consequences(files, registry.AsRules(), cpt, outcome);
    return Processed(outcome);
  }

  lemma Consequences(files: seq<Script>, r: Rules, cpt: Checkpoint, outcome: Outcome)
    requires RulesOf(files, r) && r.Valid() && r.Closed()
    requires var tagOf := TagsOfVersions(files, LegacyMap(files));
             && (outcome.FatalNoVersion? || outcome.FatalNoLegacy? <==> !StartKnown(tagOf, cpt))
             && (StartKnown(tagOf, cpt) ==> IsOutcome(r, StartTags(tagOf, cpt), cpt.TaggedCheckpoint?, outcome))
    ensures forall start :: StartsFrom(files, cpt, start) ==>
              Explained(files, start, outcome) && AbortsOnCycles(files, start, outcome)
    ensures LegacySeries(files) && cpt.LegacyCheckpoint? ==> InVersionOrder(files, cpt.version, Applied(outcome))
  {
    var tagOf := TagsOfVersions(files, LegacyMap(files));
    StartExactly(files, cpt);
    if StartKnown(tagOf, cpt) {
      var known := StartTags(tagOf, cpt);
      OutcomeExplained(files, r, known, cpt.TaggedCheckpoint?, outcome);
      OutcomeAborts(files, r, known, cpt.TaggedCheckpoint?, outcome);
      forall start | StartsFrom(files, cpt, start)
        ensures start == known
      {
      }
      if LegacySeries(files) && cpt.LegacyCheckpoint? {
        VersionsRise(files, known, cpt.version, Applied(outcome));
      }
    }
  }
}
