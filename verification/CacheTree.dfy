/**
 `configs/example/memtest.py`: the recursion that builds a tree of subsystems, caches and
 testers from two lists of fan-outs, and the count of testers that is checked beforehand.
 */
module CacheTree {
  import opened Wrappers

  // ----- The specification lists -----

  function Product(s: seq<nat>): nat {
    if s == [] then 1 else s[0] * Product(s[1..])
  }

  /** Testers below one subsystem: its own, and those of each subtree. */
  function TestersBelow(caches: seq<nat>, testers: seq<nat>): nat
    requires |testers| == |caches| + 1
  {
    testers[0] + if caches == [] then 0 else caches[0] * TestersBelow(caches[1..], testers[1..])
  }

  /** The sum of the tester counts, each times the fan-outs before it; `scale` multiplies the whole. */
  function ScaledTesters(caches: seq<nat>, testers: seq<nat>, scale: nat): nat
    decreases |testers|
  {
    if testers == [] then 0
    else testers[0] * scale + if caches == [] then 0 else ScaledTesters(caches[1..], testers[1..], scale * caches[0])
  }

  lemma {:induction false} ScaledTestersCount(caches: seq<nat>, testers: seq<nat>, scale: nat)
    requires |testers| == |caches| + 1
    ensures ScaledTesters(caches, testers, scale) == scale * TestersBelow(caches, testers)
  {
    if caches == [] {
      assert testers[1..] == [];
    } else {
      var below := TestersBelow(caches[1..], testers[1..]);
      ScaledTestersCount(caches[1..], testers[1..], scale * caches[0]);
      assert scale * caches[0] * below == scale * (caches[0] * below);
      assert scale * (testers[0] + caches[0] * below) == scale * testers[0] + scale * (caches[0] * below);
    }
  }

  lemma {:induction false} ProductSnoc(s: seq<nat>, x: nat)
    ensures Product(s + [x]) == Product(s) * x
  {
    if s == [] {
      assert s + [x] == [x] && [x][1..] == [];
    } else {
      ProductSnoc(s[1..], x);
      assert (s + [x])[1..] == s[1..] + [x];
      assert s[0] * (Product(s[1..]) * x) == s[0] * Product(s[1..]) * x;
    }
  }

  /** What entries from `i` on contribute. */
  ghost function Remaining(caches: seq<nat>, testers: seq<nat>, i: nat): nat {
    if i <= |caches| && i <= |testers| then ScaledTesters(caches[i..], testers[i..], Product(caches[..i])) else 0
  }

  lemma RemainingStep(caches: seq<nat>, testers: seq<nat>, i: nat)
    requires i < |testers| && i <= |caches|
    ensures Remaining(caches, testers, i) == testers[i] * Product(caches[..i]) + Remaining(caches, testers, i + 1)
  {
    assert testers[i..][1..] == testers[i + 1..];
    if i < |caches| {
      assert caches[..i + 1] == caches[..i] + [caches[i]];
      ProductSnoc(caches[..i], caches[i]);
      assert caches[i..][1..] == caches[i + 1..];
    }
  }

  method Multipliers(caches: seq<nat>) returns (multiplier: seq<nat>)
    ensures |multiplier| == |caches| + 1 && forall j :: 0 <= j <= |caches| ==> multiplier[j] == Product(caches[..j])
  {
    multiplier := [1];
    for i := 0 to |caches|
      invariant |multiplier| == i + 1 && forall j :: 0 <= j <= i ==> multiplier[j] == Product(caches[..j])
    {
      assert caches[..i + 1] == caches[..i] + [caches[i]];
      ProductSnoc(caches[..i], caches[i]);
      multiplier := multiplier + [multiplier[i] * caches[i]];
    }
  }

  /** `numtesters`: a list of multipliers, then the sum of the products over the shorter list. */
  method NumTesters(caches: seq<nat>, testers: seq<nat>) returns (total: nat)
    ensures total == ScaledTesters(caches, testers, 1)
    ensures |testers| == |caches| + 1 ==> total == TestersBelow(caches, testers)
  {
    var multiplier := Multipliers(caches);
    var n := if |testers| <= |multiplier| then |testers| else |multiplier|;
    total := 0;
    assert caches[0..] == caches && testers[0..] == testers;
    for i := 0 to n
      invariant total + Remaining(caches, testers, i) == ScaledTesters(caches, testers, 1)
    {
      RemainingStep(caches, testers, i);
      total := total + testers[i] * multiplier[i];
    }
    assert n == |testers| ==> testers[n..] == [];
    if |testers| == |caches| + 1 {
      ScaledTestersCount(caches, testers, 1);
    }
  }

  /** What the script checks before it builds anything. */
  ghost predicate ValidSpec(caches: seq<nat>, testers: seq<nat>) {
    && 1 <= |caches| && |testers| == |caches| + 1 && testers[|testers| - 1] != 0
    && (forall i :: 0 <= i < |caches| ==> caches[i] >= 1)
  }

  // ----- Cache prototypes -----

  datatype Prototype = Prototype(
    size: nat, assoc: nat, latency: nat, mshrs: nat, writebackClean: bool, mostlyInclusive: bool)

  function Pow10(n: nat): nat {
    if n == 0 then 1 else 10 * Pow10(n - 1)
  }

  /** The cache `d` levels below the first: as much larger as the fan-outs before multiply to. */
  function LevelPrototype(l1: Prototype, caches: seq<nat>, d: nat): Prototype
    requires d <= |caches|
  {
    var scale := Product(caches[..d]);
    Prototype(l1.size * scale, l1.assoc * scale, l1.latency * Pow10(d), l1.mshrs * scale,
              if d % 2 == 0 then l1.writebackClean else !l1.writebackClean,
              if d % 2 == 0 then l1.mostlyInclusive else !l1.mostlyInclusive)
  }

  lemma NextLevel(l1: Prototype, caches: seq<nat>, d: nat)
    requires d < |caches|
    ensures var prev, scale := LevelPrototype(l1, caches, d), caches[d];
            LevelPrototype(l1, caches, d + 1)
            == Prototype(prev.size * scale, prev.assoc * scale, prev.latency * 10, prev.mshrs * scale,
                         !prev.writebackClean, !prev.mostlyInclusive)
  {
    var p := Product(caches[..d]);
    assert caches[..d + 1] == caches[..d] + [caches[d]];
    ProductSnoc(caches[..d], caches[d]);
    Regrouped(l1.size, p, caches[d]);
    Regrouped(l1.assoc, p, caches[d]);
    Regrouped(l1.mshrs, p, caches[d]);
    Regrouped(l1.latency, Pow10(d), 10);
  }

  lemma Regrouped(a: int, b: int, c: int)
    ensures a * b * c == a * (b * c)
  {
  }

  /** One prototype per cache level, the first-level cache last. */
  method ScalePrototypes(l1: Prototype, caches: seq<nat>) returns (protos: seq<Prototype>)
    requires caches != []
    ensures |protos| == |caches|
    ensures forall i :: 0 <= i < |caches| ==> protos[i] == LevelPrototype(l1, caches, |caches| - 1 - i)
  {
    protos := [l1];
    assert caches[..0] == [];
    for j := 0 to |caches| - 1
      invariant |protos| == j + 1
      invariant forall i :: 0 <= i <= j ==> protos[i] == LevelPrototype(l1, caches, j - i)
    {
      var scale, prev := caches[j], protos[0];
      NextLevel(l1, caches, j);
      var next := prev.(
        size := prev.size * scale, latency := prev.latency * 10, assoc := prev.assoc * scale, mshrs := prev.mshrs * scale);
      next := next.(writebackClean := !prev.writebackClean);
      if prev.mostlyInclusive {
        next := next.(mostlyInclusive := false);
      } else {
        next := next.(mostlyInclusive := true);
      }
      protos := [next] + protos;
    }
  }

  // ----- What is built -----

  datatype Name = Name(level: nat, index: nat)

  datatype End =
    | TesterPort(sub: Name, k: nat)
    | CpuSide(sub: Name, k: nat)
    | MemSide(sub: Name, k: nat)
    | XBarMaster(sub: Name)
    | XBarSlave(sub: Name)

  datatype Wire = Wire(a: End, b: End)

  function Bit(b: bool): nat {
    if b then 1 else 0
  }

  /** How many wires end at `e`. */
  function Wired(wires: seq<Wire>, e: End): nat {
    if wires == [] then 0
    else Wired(wires[..|wires| - 1], e) + Bit(wires[|wires| - 1].a == e) + Bit(wires[|wires| - 1].b == e)
  }

  lemma WiredSnoc(wires: seq<Wire>, w: Wire)
    ensures forall e :: Wired(wires + [w], e) == Wired(wires, e) + Bit(w.a == e) + Bit(w.b == e)
  {
    assert (wires + [w])[..|wires|] == wires;
  }

  /** How often `w` is among the wires. */
  function Occurs(wires: seq<Wire>, w: Wire): nat {
    if wires == [] then 0 else Occurs(wires[..|wires| - 1], w) + Bit(wires[|wires| - 1] == w)
  }

  lemma OccursSnoc(wires: seq<Wire>, x: Wire)
    ensures forall w :: Occurs(wires + [x], w) == Occurs(wires, w) + Bit(x == w)
  {
    assert (wires + [x])[..|wires|] == wires;
  }

  /** How many subsystems are called `n`. */
  function Called(names: seq<Name>, n: Name): nat {
    if names == [] then 0 else Called(names[..|names| - 1], n) + Bit(names[|names| - 1] == n)
  }

  lemma CalledSnoc(names: seq<Name>, n: Name)
    ensures forall m :: Called(names + [n], m) == Called(names, m) + Bit(n == m)
  {
    assert (names + [n])[..|names|] == names;
  }

  /** A subsystem named between two states of the per-level counters. */
  predicate Between(n: Name, before: seq<nat>, after: seq<nat>) {
    n.level < |before| == |after| && before[n.level] <= n.index < after[n.level]
  }

  datatype Spec = Spec(caches: seq<nat>, testers: seq<nat>) {
    ghost predicate Valid() {
      ValidSpec(caches, testers)
    }

    predicate HasLevel(level: nat) {
      |testers| == |caches| + 1 && level <= |caches|
    }

    /** The fan-outs from `level` up to the testers' own level 0. */
    function Fan(level: nat): seq<nat> {
      if HasLevel(level) then caches[|caches| - level..] else []
    }

    function Testers(level: nat): nat {
      if HasLevel(level) then testers[|caches| - level] else 0
    }

    function TestersFrom(level: nat): nat {
      if HasLevel(level) then TestersBelow(Fan(level), testers[|caches| - level..]) else 0
    }

    /** Caches in a subsystem: one per tester and the fan-out, except at the testers' own level. */
    function Caches(level: nat): nat {
      if level == 0 || !HasLevel(level) then 0 else Testers(level) + caches[|caches| - level]
    }

    /** How many subtrees a subsystem at `level` has. */
    function FanOut(level: nat): nat {
      if 0 < level && HasLevel(level) then caches[|caches| - level] else 0
    }

    /** The processor side of the cache a subsystem hangs on: subtrees are numbered one subsystem after the other. */
    function ParentCache(n: Name): Option<End> {
      var f := FanOut(n.level + 1);
      if f == 0 then None
      else Some(CpuSide(Name(n.level + 1, n.index / f), Testers(n.level + 1) + n.index % f))
    }

    /** `w` is a wire the tree should have, if it has the subsystem of its first end. */
    predicate IsWire(w: Wire) {
      match w.a
      case MemSide(n, k) => k < Caches(n.level) && w.b == XBarSlave(n)
      case TesterPort(n, k) =>
        && k < Testers(n.level)
        && (if n.level > 0 then w.b == CpuSide(n, k)
            else if Testers(0) > 1 then w.b == XBarSlave(n)
            else Some(w.b) == ParentCache(n))
      case XBarMaster(n) => (n.level > 0 || Testers(0) > 1) && Some(w.b) == ParentCache(n)
      case _ => false
    }

    /** `e` is a port of something inside a subsystem named between the two states. */
    predicate Owns(e: End, before: seq<nat>, after: seq<nat>) {
      match e
      case TesterPort(n, k) => Between(n, before, after) && k < Testers(n.level)
      case CpuSide(n, k) => Between(n, before, after) && k < Caches(n.level)
      case MemSide(n, k) => Between(n, before, after) && k < Caches(n.level)
      case _ => false
    }
  }

  predicate Device(e: End) {
    e.TesterPort? || e.CpuSide? || e.MemSide?
  }

  /** The counters, the subsystems, the wires and the number of testers so far. */
  datatype State = State(next: seq<nat>, names: seq<Name>, wires: seq<Wire>, testers: nat)

  /** The counters after `n` subtrees with fan-outs `fan` have been built at `level`. */
  ghost predicate Advanced(before: seq<nat>, after: seq<nat>, level: nat, fan: seq<nat>, n: nat) {
    && |before| == |after| && level < |before| && |fan| == level
    && (forall l :: 0 <= l <= level ==> after[l] == before[l] + n * Product(fan[..level - l]))
    && (forall l :: level < l < |before| ==> after[l] == before[l])
  }

  ghost predicate NamesGrow(s: State, t: State, from: seq<nat>, extra: Option<Name>) {
    forall n {:trigger Called(t.names, n)} :: Called(t.names, n) == Called(s.names, n) + Bit(Between(n, from, t.next)) + Bit(extra == Some(n))
  }

  /** Each port inside the new subsystems is wired once, and so is the cache below them. */
  ghost predicate SubtreeWires(spec: Spec, s: State, t: State, below: Option<End>) {
    forall e {:trigger Wired(t.wires, e)} :: Device(e) ==>
      Wired(t.wires, e) == Wired(s.wires, e) + Bit(spec.Owns(e, s.next, t.next)) + Bit(below == Some(e))
  }

  /** The same of a subsystem under construction, whose own ports are wired as `OwnWired` says. */
  ghost predicate PartlyWires(spec: Spec, s: State, t: State, from: seq<nat>, below: Option<End>, sub: Name, nt: nat, j: nat, k: nat) {
    forall e {:trigger Wired(t.wires, e)} :: Device(e) ==>
      Wired(t.wires, e) == Wired(s.wires, e) + Bit(spec.Owns(e, from, t.next)) + Bit(below == Some(e))
                          + Bit(OwnWired(e, sub, nt, j, k))
  }

  /** From `s` to `t` one subtree has been built: each new name once, each new port wired once. */
  ghost predicate Subtree(spec: Spec, s: State, t: State, level: nat, below: Option<End>) {
    && spec.HasLevel(level) && |s.next| == |t.next| == |spec.caches| + 1
    && Advanced(s.next, t.next, level, spec.Fan(level), 1)
    && NamesGrow(s, t, s.next, None)
    && SubtreeWires(spec, s, t, below)
    && t.testers == s.testers + spec.TestersFrom(level)
  }

  /** From `s` to `t` exactly the wires of the new subsystems have been made. */
  ghost predicate SubtreeExact(spec: Spec, s: State, t: State) {
    forall w {:trigger Occurs(t.wires, w)} ::
      Occurs(t.wires, w) == Occurs(s.wires, w) + Bit(spec.IsWire(w) && Between(w.a.sub, s.next, t.next))
  }

  /** Of subsystem `sub` those of its wires have been made that `OwnMade` says. */
  ghost predicate PartlyExact(spec: Spec, s: State, t: State, level: nat, j: nat, k: nat) {
    forall w {:trigger Occurs(t.wires, w)} ::
      Occurs(t.wires, w) == Occurs(s.wires, w) + Bit(spec.IsWire(w) && Between(w.a.sub, Named(s, level), t.next))
                           + Bit(spec.IsWire(w) && w.a.sub == NextName(s, level) && OwnMade(w.a, spec.Testers(level), j, k))
  }

  /** After `j` subtrees and `k` testers the wire from `e` has been made. */
  predicate OwnMade(e: End, nt: nat, j: nat, k: nat) {
    match e
    case TesterPort(n, i) => i < k
    case MemSide(n, i) => i < k || nt <= i < nt + j
    case XBarMaster(n) => true
    case _ => false
  }

  /** Below `level` the counters are where whole subtrees have left them. */
  ghost predicate Aligned(spec: Spec, next: seq<nat>, level: nat) {
    |next| == |spec.caches| + 1 && level < |next| && forall l :: 0 <= l < level ==> next[l] == next[l + 1] * spec.FanOut(l + 1)
  }

  /** The ports of subsystem `sub` wired after `j` subtrees and `k` testers. */
  predicate OwnWired(e: End, sub: Name, nt: nat, j: nat, k: nat) {
    match e
    case TesterPort(n, i) => n == sub && i < k
    case CpuSide(n, i) => n == sub && (i < k || nt <= i < nt + j)
    case MemSide(n, i) => n == sub && (i < k || nt <= i < nt + j)
    case _ => false
  }

  function Named(s: State, level: nat): seq<nat> {
    if level < |s.next| then s.next[level := s.next[level] + 1] else s.next
  }

  /** The name the next subsystem at `level` gets. */
  function NextName(s: State, level: nat): Name {
    Name(level, if level < |s.next| then s.next[level] else 0)
  }

  /** A subsystem at `level` > 0 with `j` of its subtrees and `k` of its testers connected. */
  ghost predicate Partly(spec: Spec, s: State, t: State, level: nat, below: Option<End>, j: nat, k: nat) {
    && spec.HasLevel(level) && 0 < level && |s.next| == |spec.caches| + 1 && k <= spec.Testers(level)
    && Advanced(Named(s, level), t.next, level - 1, spec.Fan(level - 1), j)
    && NamesGrow(s, t, Named(s, level), Some(NextName(s, level)))
    && PartlyWires(spec, s, t, Named(s, level), below, NextName(s, level), spec.Testers(level), j, k)
    && t.testers == s.testers + spec.Testers(level) + j * spec.TestersFrom(level - 1)
  }

  // ----- Steps of the construction -----

  lemma AdvancedOneMore(a: seq<nat>, b: seq<nat>, c: seq<nat>, level: nat, fan: seq<nat>, n: nat)
    requires Advanced(a, b, level, fan, n) && Advanced(b, c, level, fan, 1)
    ensures Advanced(a, c, level, fan, n + 1)
    ensures forall l :: 0 <= l < |a| ==> a[l] <= b[l] <= c[l]
  {
    forall l | 0 <= l <= level
      ensures c[l] == a[l] + (n + 1) * Product(fan[..level - l]) && a[l] <= b[l] <= c[l]
    {
      var p := Product(fan[..level - l]);
      assert (n + 1) * p == n * p + p && n * p >= 0;
    }
  }

  lemma BetweenSplits(n: Name, a: seq<nat>, b: seq<nat>, c: seq<nat>)
    requires |a| == |b| == |c| && forall l :: 0 <= l < |a| ==> a[l] <= b[l] <= c[l]
    ensures Bit(Between(n, a, c)) == Bit(Between(n, a, b)) + Bit(Between(n, b, c))
  {
  }

  lemma OwnsSplits(spec: Spec, e: End, a: seq<nat>, b: seq<nat>, c: seq<nat>)
    requires |spec.testers| == |spec.caches| + 1 == |a| == |b| == |c| && forall l :: 0 <= l < |a| ==> a[l] <= b[l] <= c[l]
    ensures Bit(spec.Owns(e, a, c)) == Bit(spec.Owns(e, a, b)) + Bit(spec.Owns(e, b, c))
  {
    if Device(e) {
      BetweenSplits(e.sub, a, b, c);
    }
  }

  lemma PartlyStart(spec: Spec, s: State, t: State, level: nat, below: Option<End>)
    requires spec.HasLevel(level) && 0 < level && |s.next| == |spec.caches| + 1
    requires t.next == Named(s, level) && t.names == s.names + [NextName(s, level)]
    requires t.testers == s.testers + spec.Testers(level)
    requires SubtreeWires(spec, s.(next := t.next), t, below)
    ensures Partly(spec, s, t, level, below, 0, 0)
  {
    CalledSnoc(s.names, NextName(s, level));
  }

  /** The state when the memory side of tree cache `k` has been wired. */
  function MemSideWired(t: State, sub: Name, k: nat): State {
    t.(wires := t.wires + [Wire(MemSide(sub, k), XBarSlave(sub))])
  }

  /** A further subtree: its cache's memory side is wired here, its processor side below. */
  lemma PartlyChild(spec: Spec, s: State, t: State, wired: State, u: State, level: nat, below: Option<End>, j: nat)
    requires Partly(spec, s, t, level, below, j, 0)
    requires wired == MemSideWired(t, NextName(s, level), spec.Testers(level) + j)
    requires Subtree(spec, wired, u, level - 1, Some(CpuSide(NextName(s, level), spec.Testers(level) + j)))
    ensures Partly(spec, s, u, level, below, j + 1, 0)
  {
    AdvancedOneMore(Named(s, level), t.next, u.next, level - 1, spec.Fan(level - 1), j);
    ChildNames(s, wired, u, Named(s, level), NextName(s, level));
    ChildWires(spec, s, t, u, Named(s, level), below, NextName(s, level), spec.Testers(level), j);
    OneMoreTime(j, spec.TestersFrom(level - 1));
  }

  lemma OneMoreTime(j: int, x: int)
    ensures (j + 1) * x == j * x + x
  {
  }

  lemma ChildNames(s: State, t: State, u: State, from: seq<nat>, sub: Name)
    requires NamesGrow(s, t, from, Some(sub)) && NamesGrow(t, u, t.next, None)
    requires |from| == |t.next| == |u.next| && forall l :: 0 <= l < |from| ==> from[l] <= t.next[l] <= u.next[l]
    ensures NamesGrow(s, u, from, Some(sub))
  {
    forall n
      ensures Bit(Between(n, from, u.next)) == Bit(Between(n, from, t.next)) + Bit(Between(n, t.next, u.next))
    {
      BetweenSplits(n, from, t.next, u.next);
    }
  }

  lemma ChildWires(spec: Spec, s: State, t: State, u: State, from: seq<nat>, below: Option<End>, sub: Name, nt: nat, j: nat)
    requires |spec.testers| == |spec.caches| + 1 == |from| == |t.next| == |u.next|
    requires forall l :: 0 <= l < |from| ==> from[l] <= t.next[l] <= u.next[l]
    requires PartlyWires(spec, s, t, from, below, sub, nt, j, 0)
    requires SubtreeWires(spec, MemSideWired(t, sub, nt + j), u, Some(CpuSide(sub, nt + j)))
    ensures PartlyWires(spec, s, u, from, below, sub, nt, j + 1, 0)
  {
    WiredSnoc(t.wires, Wire(MemSide(sub, nt + j), XBarSlave(sub)));
    forall e | Device(e)
      ensures Wired(u.wires, e) == Wired(s.wires, e) + Bit(spec.Owns(e, from, u.next)) + Bit(below == Some(e))
                                  + Bit(OwnWired(e, sub, nt, j + 1, 0))
    {
      ChildWire(spec, e, from, t.next, u.next, sub, nt, j);
    }
  }

  lemma ChildWire(spec: Spec, e: End, a: seq<nat>, b: seq<nat>, c: seq<nat>, sub: Name, nt: nat, j: nat)
    requires |spec.testers| == |spec.caches| + 1 == |a| == |b| == |c| && forall l :: 0 <= l < |a| ==> a[l] <= b[l] <= c[l]
    ensures Bit(spec.Owns(e, a, c)) + Bit(OwnWired(e, sub, nt, j + 1, 0))
         == Bit(spec.Owns(e, a, b)) + Bit(spec.Owns(e, b, c)) + Bit(OwnWired(e, sub, nt, j, 0))
            + Bit(e == MemSide(sub, nt + j)) + Bit(e == CpuSide(sub, nt + j))
  {
    OwnsSplits(spec, e, a, b, c);
  }

  function TesterWired(t: State, sub: Name, k: nat): State {
    t.(wires := t.wires + [Wire(TesterPort(sub, k), CpuSide(sub, k))] + [Wire(MemSide(sub, k), XBarSlave(sub))])
  }

  /** A further tester with its own cache. */
  lemma PartlyTester(spec: Spec, s: State, t: State, level: nat, below: Option<End>, j: nat, k: nat)
    requires Partly(spec, s, t, level, below, j, k) && k < spec.Testers(level)
    ensures Partly(spec, s, TesterWired(t, NextName(s, level), k), level, below, j, k + 1)
  {
    TesterWires(spec, s, t, Named(s, level), below, NextName(s, level), spec.Testers(level), j, k);
  }

  lemma TesterWires(spec: Spec, s: State, t: State, from: seq<nat>, below: Option<End>, sub: Name, nt: nat, j: nat, k: nat)
    requires PartlyWires(spec, s, t, from, below, sub, nt, j, k) && k < nt
    ensures PartlyWires(spec, s, TesterWired(t, sub, k), from, below, sub, nt, j, k + 1)
  {
    WiredSnoc(t.wires, Wire(TesterPort(sub, k), CpuSide(sub, k)));
    WiredSnoc(t.wires + [Wire(TesterPort(sub, k), CpuSide(sub, k))], Wire(MemSide(sub, k), XBarSlave(sub)));
  }

  lemma AdvancedUp(spec: Spec, s: State, after: seq<nat>, level: nat)
    requires spec.HasLevel(level) && 0 < level && |s.next| == |spec.caches| + 1
    requires Advanced(Named(s, level), after, level - 1, spec.Fan(level - 1), spec.Fan(level)[0])
    ensures Advanced(s.next, after, level, spec.Fan(level), 1)
  {
    var fan, inner := spec.Fan(level), spec.Fan(level - 1);
    assert fan[1..] == inner;
    forall l | 0 <= l <= level
      ensures after[l] == s.next[l] + 1 * Product(fan[..level - l])
    {
      if l < level {
        assert fan[..level - l][1..] == inner[..level - 1 - l];
      }
    }
  }

  /** The only new name at `level` is the subsystem itself. */
  lemma SubIsNew(s: State, after: seq<nat>, level: nat, n: Name)
    requires level < |s.next| == |after| && after[level] == s.next[level] + 1
    ensures Between(n, s.next, after) <==> Between(n, Named(s, level), after) || n == NextName(s, level)
    ensures n.level == level ==> !Between(n, Named(s, level), after)
  {
  }

  lemma DoneNames(s: State, t: State, level: nat)
    requires NamesGrow(s, t, Named(s, level), Some(NextName(s, level)))
    requires level < |s.next| == |t.next| && t.next[level] == s.next[level] + 1
    ensures NamesGrow(s, t, s.next, None)
  {
    forall n
      ensures Bit(Between(n, s.next, t.next)) == Bit(Between(n, Named(s, level), t.next)) + Bit(Some(NextName(s, level)) == Some(n))
    {
      SubIsNew(s, t.next, level, n);
    }
  }

  lemma DoneWires(spec: Spec, s: State, t: State, level: nat, below: Option<End>)
    requires spec.HasLevel(level) && 0 < level < |s.next| == |t.next| && t.next[level] == s.next[level] + 1
    requires PartlyWires(spec, s, t, Named(s, level), below, NextName(s, level), spec.Testers(level), spec.Fan(level)[0], spec.Testers(level))
    ensures SubtreeWires(spec, s, t, below)
  {
    forall e | Device(e)
      ensures Bit(spec.Owns(e, s.next, t.next))
           == Bit(spec.Owns(e, Named(s, level), t.next))
              + Bit(OwnWired(e, NextName(s, level), spec.Testers(level), spec.Fan(level)[0], spec.Testers(level)))
    {
      SubIsNew(s, t.next, level, e.sub);
    }
  }

  lemma FanTail(spec: Spec, level: nat)
    requires spec.HasLevel(level) && 0 < level
    ensures spec.Fan(level)[1..] == spec.Fan(level - 1)
  {
  }

  lemma TestersUp(spec: Spec, level: nat)
    requires spec.HasLevel(level) && 0 < level
    ensures spec.TestersFrom(level) == spec.Testers(level) + spec.Fan(level)[0] * spec.TestersFrom(level - 1)
  {
    var i := |spec.caches| - level;
    assert spec.caches[i..][1..] == spec.caches[i + 1..] && spec.testers[i..][1..] == spec.testers[i + 1..];
  }

  lemma PartlyDone(spec: Spec, s: State, t: State, level: nat, below: Option<End>)
    requires spec.HasLevel(level) && 0 < level
    requires Partly(spec, s, t, level, below, spec.Fan(level)[0], spec.Testers(level))
    ensures Subtree(spec, s, t, level, below)
  {
    AdvancedUp(spec, s, t.next, level);
    DoneNames(s, t, level);
    DoneWires(spec, s, t, level, below);
    TestersUp(spec, level);
  }

  // ----- Which wires are made -----

  lemma ExactStart(spec: Spec, s: State, t: State, level: nat, below: Option<End>)
    requires spec.HasLevel(level) && 0 < level && |s.next| == |spec.caches| + 1 && t.next == Named(s, level)
    requires below == spec.ParentCache(NextName(s, level))
    requires t.wires == s.wires + if below.Some? then [Wire(XBarMaster(NextName(s, level)), below.value)] else []
    ensures PartlyExact(spec, s, t, level, 0, 0)
  {
    if below.Some? {
      OccursSnoc(s.wires, Wire(XBarMaster(NextName(s, level)), below.value));
    } else {
      assert s.wires + [] == s.wires;
    }
  }

  lemma ExactChild(spec: Spec, s: State, t: State, wired: State, u: State, level: nat, j: nat)
    requires spec.HasLevel(level) && 0 < level && j < spec.FanOut(level)
    requires PartlyExact(spec, s, t, level, j, 0) && wired == MemSideWired(t, NextName(s, level), spec.Testers(level) + j)
    requires SubtreeExact(spec, wired, u)
    requires var from := Named(s, level);
             |from| == |t.next| == |u.next| && forall l :: 0 <= l < |from| ==> from[l] <= t.next[l] <= u.next[l]
    ensures PartlyExact(spec, s, u, level, j + 1, 0)
  {
    var sub, nt := NextName(s, level), spec.Testers(level);
    OccursSnoc(t.wires, Wire(MemSide(sub, nt + j), XBarSlave(sub)));
    forall w
      ensures Occurs(u.wires, w)
           == Occurs(s.wires, w) + Bit(spec.IsWire(w) && Between(w.a.sub, Named(s, level), u.next))
              + Bit(spec.IsWire(w) && w.a.sub == sub && OwnMade(w.a, nt, j + 1, 0))
    {
      BetweenSplits(w.a.sub, Named(s, level), t.next, u.next);
      ChildWireMade(spec, w, sub, level, j);
    }
  }

  lemma ChildWireMade(spec: Spec, w: Wire, sub: Name, level: nat, j: nat)
    requires spec.HasLevel(level) && 0 < level && j < spec.FanOut(level) && sub.level == level
    ensures var nt := spec.Testers(level);
            Bit(spec.IsWire(w) && w.a.sub == sub && OwnMade(w.a, nt, j + 1, 0))
            == Bit(spec.IsWire(w) && w.a.sub == sub && OwnMade(w.a, nt, j, 0)) + Bit(w == Wire(MemSide(sub, nt + j), XBarSlave(sub)))
  {
  }

  lemma ExactTester(spec: Spec, s: State, t: State, level: nat, j: nat, k: nat)
    requires spec.HasLevel(level) && 0 < level && PartlyExact(spec, s, t, level, j, k) && k < spec.Testers(level)
    ensures PartlyExact(spec, s, TesterWired(t, NextName(s, level), k), level, j, k + 1)
  {
    var sub := NextName(s, level);
    OccursSnoc(t.wires, Wire(TesterPort(sub, k), CpuSide(sub, k)));
    OccursSnoc(t.wires + [Wire(TesterPort(sub, k), CpuSide(sub, k))], Wire(MemSide(sub, k), XBarSlave(sub)));
    forall w
      ensures var nt := spec.Testers(level);
              Bit(spec.IsWire(w) && w.a.sub == sub && OwnMade(w.a, nt, j, k + 1))
              == Bit(spec.IsWire(w) && w.a.sub == sub && OwnMade(w.a, nt, j, k))
                 + Bit(w == Wire(TesterPort(sub, k), CpuSide(sub, k))) + Bit(w == Wire(MemSide(sub, k), XBarSlave(sub)))
    {
    }
  }

  lemma ExactDone(spec: Spec, s: State, t: State, level: nat)
    requires spec.HasLevel(level) && 0 < level < |s.next| == |t.next| && t.next[level] == s.next[level] + 1
    requires PartlyExact(spec, s, t, level, spec.FanOut(level), spec.Testers(level))
    ensures SubtreeExact(spec, s, t)
  {
    forall w
      ensures Bit(spec.IsWire(w) && Between(w.a.sub, s.next, t.next))
           == Bit(spec.IsWire(w) && Between(w.a.sub, Named(s, level), t.next))
              + Bit(spec.IsWire(w) && w.a.sub == NextName(s, level) && OwnMade(w.a, spec.Testers(level), spec.FanOut(level), spec.Testers(level)))
    {
      SubIsNew(s, t.next, level, w.a.sub);
    }
  }

  /** The wires of a subsystem at the testers' own level. */
  ghost predicate TopExact(spec: Spec, s: State, wires: seq<Wire>, sub: Name, k: nat) {
    forall w {:trigger Occurs(wires, w)} ::
      Occurs(wires, w) == Occurs(s.wires, w) + Bit(spec.IsWire(w) && w.a.sub == sub && OwnMade(w.a, 0, 0, k))
  }

  lemma ExactTop(spec: Spec, s: State, t: State)
    requires spec.HasLevel(0) && |s.next| == |spec.caches| + 1 && t.next == Named(s, 0)
    requires TopExact(spec, s, t.wires, NextName(s, 0), spec.Testers(0))
    ensures SubtreeExact(spec, s, t)
  {
    forall w
      ensures spec.IsWire(w) && Between(w.a.sub, s.next, t.next) <==>
              spec.IsWire(w) && w.a.sub == NextName(s, 0) && OwnMade(w.a, 0, 0, spec.Testers(0))
    {
      SubIsNew(s, t.next, 0, w.a.sub);
    }
  }

  // ----- Where a subtree hangs -----

  lemma DivideBack(q: nat, f: nat, j: nat)
    requires j < f
    ensures (q * f + j) / f == q && (q * f + j) % f == j
  {
    var x := q * f + j;
    var d := x / f - q;
    assert d * f == j - x % f;
    assert 0 - f < d * f < f;
  }

  /** When `j` subtrees of a subsystem have been built, the next one hangs on its cache number `j`. */
  lemma ChildHangs(spec: Spec, s: State, next: seq<nat>, level: nat, j: nat)
    requires spec.HasLevel(level) && 0 < level && j < spec.FanOut(level) && Aligned(spec, s.next, level)
    requires Advanced(Named(s, level), next, level - 1, spec.Fan(level - 1), j)
    ensures Aligned(spec, next, level - 1)
    ensures spec.ParentCache(Name(level - 1, next[level - 1])) == Some(CpuSide(NextName(s, level), spec.Testers(level) + j))
  {
    var fan, f := spec.Fan(level - 1), spec.FanOut(level);
    assert fan[..0] == [];
    assert next[level - 1] == s.next[level] * f + j;
    DivideBack(s.next[level], f, j);
    forall l | 0 <= l < level - 1
      ensures next[l] == next[l + 1] * spec.FanOut(l + 1)
    {
      var d := level - 2 - l;
      assert fan[..d + 1] == fan[..d] + [fan[d]];
      ProductSnoc(fan[..d], fan[d]);
      Distribute(s.next[l + 1], j, Product(fan[..d]), spec.FanOut(l + 1));
    }
  }

  lemma Distribute(a: int, j: int, p: int, f: int)
    ensures a * f + j * (p * f) == (a + j * p) * f
  {
    assert j * (p * f) == j * p * f;
  }

  // ----- The recursion itself -----

  class Builder {
    const spec: Spec
    var nextSubsysIndex: seq<nat>
    var subsystems: seq<Name>
    var wires: seq<Wire>
    var testers: nat

    constructor (spec: Spec)
      ensures this.spec == spec && subsystems == [] && wires == [] && testers == 0
      ensures nextSubsysIndex == Zeros(|spec.caches| + 1)
    {
      this.spec := spec;
      nextSubsysIndex := Zeros(|spec.caches| + 1);
      subsystems, wires, testers := [], [], 0;
    }

    ghost function AsState(): State
      reads this
    {
      State(nextSubsysIndex, subsystems, wires, testers)
    }

    method Connect(a: End, b: End)
      modifies this`wires
      ensures wires == old(wires) + [Wire(a, b)]
    {
      wires := wires + [Wire(a, b)];
    }

    /** Takes the next name at this level and creates the testers. */
    method MakeSubsystem(level: nat) returns (sub: Name)
      requires spec.HasLevel(level) && level < |nextSubsysIndex|
      modifies this
      ensures sub == NextName(old(AsState()), level)
      ensures AsState() == State(Named(old(AsState()), level), old(subsystems) + [sub], old(wires), old(testers) + spec.Testers(level))
    {
      sub := Name(level, nextSubsysIndex[level]);
      nextSubsysIndex := nextSubsysIndex[level := nextSubsysIndex[level] + 1];
      subsystems := subsystems + [sub];
      testers := testers + spec.testers[|spec.caches| - level];
    }

    method MakeCacheLevel(ncaches: seq<nat>, prototypes: seq<Prototype>, level: nat, nextCache: Option<End>)
      requires spec.Valid() && level <= |spec.caches| && |nextSubsysIndex| == |spec.caches| + 1
      requires ncaches == spec.Fan(level) && |prototypes| == level
      requires nextCache.Some? ==> nextCache.value.CpuSide?
      requires level == 0 ==> nextCache.Some?
      requires nextCache == spec.ParentCache(NextName(AsState(), level)) && Aligned(spec, nextSubsysIndex, level)
      modifies this
      ensures Subtree(spec, old(AsState()), AsState(), level, nextCache)
      ensures SubtreeExact(spec, old(AsState()), AsState())
      decreases level, 2
    {
      if level == 0 {
        MakeTopLevel(nextCache.value);
      } else {
        ghost var s := AsState();
        var sub := BeginLevel(level, nextCache);
        AddSubtrees(s, sub, ncaches, prototypes, level, nextCache);
        AddTesters(s, sub, level, nextCache, ncaches[0]);
        PartlyDone(spec, s, AsState(), level, nextCache);
        SubtreeAdvanced(spec, s, AsState(), level, nextCache);
        ExactDone(spec, s, AsState(), level);
      }
    }

    /** Creates a subsystem with its crossbar, and connects the crossbar to the cache below. */
    method BeginLevel(level: nat, nextCache: Option<End>) returns (sub: Name)
      requires spec.HasLevel(level) && 0 < level && |nextSubsysIndex| == |spec.caches| + 1
      requires nextCache.Some? ==> nextCache.value.CpuSide?
      requires nextCache == spec.ParentCache(NextName(AsState(), level))
      modifies this
      ensures sub == NextName(old(AsState()), level)
      ensures Partly(spec, old(AsState()), AsState(), level, nextCache, 0, 0)
      ensures PartlyExact(spec, old(AsState()), AsState(), level, 0, 0)
    {
      ghost var s := AsState();
      sub := MakeSubsystem(level);
      if nextCache.Some? {
        WiredSnoc(wires, Wire(XBarMaster(sub), nextCache.value));
        Connect(XBarMaster(sub), nextCache.value);
      }
      PartlyStart(spec, s, AsState(), level, nextCache);
      ExactStart(spec, s, AsState(), level, nextCache);
    }

    method AddSubtrees(ghost s: State, sub: Name, ncaches: seq<nat>, prototypes: seq<Prototype>, level: nat, ghost below: Option<End>)
      requires spec.Valid() && 0 < level <= |spec.caches| && |prototypes| == level && ncaches == spec.Fan(level)
      requires sub == NextName(s, level) && Partly(spec, s, AsState(), level, below, 0, 0)
      requires Aligned(spec, s.next, level) && PartlyExact(spec, s, AsState(), level, 0, 0)
      modifies this
      ensures Partly(spec, s, AsState(), level, below, ncaches[0], 0)
      ensures PartlyExact(spec, s, AsState(), level, ncaches[0], 0)
      decreases level, 1
    {
      for j := 0 to ncaches[0]
        invariant Partly(spec, s, AsState(), level, below, j, 0)
        invariant PartlyExact(spec, s, AsState(), level, j, 0)
      {
        AddSubtree(s, sub, ncaches, prototypes, level, below, j);
      }
    }

    method AddSubtree(ghost s: State, sub: Name, ncaches: seq<nat>, prototypes: seq<Prototype>, level: nat, ghost below: Option<End>, j: nat)
      requires spec.Valid() && 0 < level <= |spec.caches| && |prototypes| == level && ncaches == spec.Fan(level)
      requires sub == NextName(s, level) && Partly(spec, s, AsState(), level, below, j, 0)
      requires j < ncaches[0] && Aligned(spec, s.next, level) && PartlyExact(spec, s, AsState(), level, j, 0)
      modifies this
      ensures Partly(spec, s, AsState(), level, below, j + 1, 0)
      ensures PartlyExact(spec, s, AsState(), level, j + 1, 0)
      decreases level, 0
    {
      ghost var t := AsState();
      var k := spec.testers[|spec.caches| - level] + j;
      Connect(MemSide(sub, k), XBarSlave(sub));
      ghost var wired := AsState();
      FanTail(spec, level);
      ChildHangs(spec, s, nextSubsysIndex, level, j);
      MakeCacheLevel(ncaches[1..], prototypes[1..], level - 1, Some(CpuSide(sub, k)));
      ChildDone(spec, s, t, wired, AsState(), level, below, j);
    }

    method AddTesters(ghost s: State, sub: Name, level: nat, ghost below: Option<End>, ghost j: nat)
      requires spec.HasLevel(level) && sub == NextName(s, level) && Partly(spec, s, AsState(), level, below, j, 0)
      requires PartlyExact(spec, s, AsState(), level, j, 0)
      modifies this`wires
      ensures Partly(spec, s, AsState(), level, below, j, spec.Testers(level))
      ensures PartlyExact(spec, s, AsState(), level, j, spec.Testers(level))
    {
      for k := 0 to spec.testers[|spec.caches| - level]
        invariant Partly(spec, s, AsState(), level, below, j, k)
        invariant PartlyExact(spec, s, AsState(), level, j, k)
      {
        TesterDone(spec, s, AsState(), level, below, j, k);
        Connect(TesterPort(sub, k), CpuSide(sub, k));
        Connect(MemSide(sub, k), XBarSlave(sub));
      }
    }

    /** The testers' own level: behind a crossbar when there are several of them. */
    method MakeTopLevel(nextCache: End)
      requires spec.Valid() && |nextSubsysIndex| == |spec.caches| + 1 && nextCache.CpuSide?
      requires Some(nextCache) == spec.ParentCache(NextName(AsState(), 0))
      modifies this
      ensures Subtree(spec, old(AsState()), AsState(), 0, Some(nextCache))
      ensures SubtreeExact(spec, old(AsState()), AsState())
    {
      ghost var s := AsState();
      var sub := MakeSubsystem(0);
      WireTop(s, sub, nextCache);
      TopDone(spec, s, AsState(), nextCache);
      ExactTop(spec, s, AsState());
    }

    method WireTop(ghost s: State, sub: Name, nextCache: End)
      requires spec.Valid() && wires == s.wires && nextCache.CpuSide?
      requires sub.level == 0 && Some(nextCache) == spec.ParentCache(sub)
      modifies this`wires
      ensures TopWires(s, wires, nextCache, sub, spec.Testers(0)) && TopExact(spec, s, wires, sub, spec.Testers(0))
    {
      var ntesters := spec.testers[|spec.caches|];
      if ntesters > 1 {
        TopCrossbar(spec, s, sub, nextCache);
        Connect(XBarMaster(sub), nextCache);
        for k := 0 to ntesters
          invariant TopWires(s, wires, nextCache, sub, k) && TopExact(spec, s, wires, sub, k)
        {
          TopTester(spec, s, wires, sub, nextCache, k);
          Connect(TesterPort(sub, k), XBarSlave(sub));
        }
      } else {
        TopSingle(spec, s, sub, nextCache);
        Connect(TesterPort(sub, 0), nextCache);
      }
    }
  }

  lemma TopSingle(spec: Spec, s: State, sub: Name, nextCache: End)
    requires spec.Valid() && nextCache.CpuSide? && spec.Testers(0) == 1
    requires sub.level == 0 && Some(nextCache) == spec.ParentCache(sub)
    ensures var wires := s.wires + [Wire(TesterPort(sub, 0), nextCache)];
            TopWires(s, wires, nextCache, sub, 1) && TopExact(spec, s, wires, sub, 1)
  {
    WiredSnoc(s.wires, Wire(TesterPort(sub, 0), nextCache));
    OccursSnoc(s.wires, Wire(TesterPort(sub, 0), nextCache));
  }

  lemma TopCrossbar(spec: Spec, s: State, sub: Name, nextCache: End)
    requires spec.Valid() && nextCache.CpuSide? && spec.Testers(0) > 1
    requires sub.level == 0 && Some(nextCache) == spec.ParentCache(sub)
    ensures var wires := s.wires + [Wire(XBarMaster(sub), nextCache)];
            TopWires(s, wires, nextCache, sub, 0) && TopExact(spec, s, wires, sub, 0)
  {
    WiredSnoc(s.wires, Wire(XBarMaster(sub), nextCache));
    OccursSnoc(s.wires, Wire(XBarMaster(sub), nextCache));
  }

  lemma TopTester(spec: Spec, s: State, wires: seq<Wire>, sub: Name, nextCache: End, k: nat)
    requires TopWires(s, wires, nextCache, sub, k) && TopExact(spec, s, wires, sub, k)
    requires sub.level == 0 && nextCache.CpuSide? && spec.Testers(0) > 1 && k < spec.Testers(0)
    ensures var more := wires + [Wire(TesterPort(sub, k), XBarSlave(sub))];
            TopWires(s, more, nextCache, sub, k + 1) && TopExact(spec, s, more, sub, k + 1)
  {
    WiredSnoc(wires, Wire(TesterPort(sub, k), XBarSlave(sub)));
    OccursSnoc(wires, Wire(TesterPort(sub, k), XBarSlave(sub)));
  }

  lemma SubtreeAdvanced(spec: Spec, s: State, t: State, level: nat, below: Option<End>)
    requires Subtree(spec, s, t, level, below)
    ensures level < |s.next| == |t.next| && t.next[level] == s.next[level] + 1
  {
    assert spec.Fan(level)[..0] == [];
  }

  lemma ChildAdvanced(spec: Spec, s: State, t: State, wired: State, u: State, level: nat, below: Option<End>, j: nat)
    requires Partly(spec, s, t, level, below, j, 0) && wired.next == t.next
    requires Subtree(spec, wired, u, level - 1, Some(CpuSide(NextName(s, level), spec.Testers(level) + j)))
    ensures var from := Named(s, level);
            |from| == |t.next| == |u.next| && forall l :: 0 <= l < |from| ==> from[l] <= t.next[l] <= u.next[l]
  {
    AdvancedOneMore(Named(s, level), t.next, u.next, level - 1, spec.Fan(level - 1), j);
  }

  lemma TesterDone(spec: Spec, s: State, t: State, level: nat, below: Option<End>, j: nat, k: nat)
    requires Partly(spec, s, t, level, below, j, k) && PartlyExact(spec, s, t, level, j, k) && k < spec.Testers(level)
    ensures var u := TesterWired(t, NextName(s, level), k);
            Partly(spec, s, u, level, below, j, k + 1) && PartlyExact(spec, s, u, level, j, k + 1)
  {
    PartlyTester(spec, s, t, level, below, j, k);
    ExactTester(spec, s, t, level, j, k);
  }

  lemma ChildDone(spec: Spec, s: State, t: State, wired: State, u: State, level: nat, below: Option<End>, j: nat)
    requires Partly(spec, s, t, level, below, j, 0) && PartlyExact(spec, s, t, level, j, 0) && j < spec.FanOut(level)
    requires wired == MemSideWired(t, NextName(s, level), spec.Testers(level) + j)
    requires Subtree(spec, wired, u, level - 1, Some(CpuSide(NextName(s, level), spec.Testers(level) + j)))
    requires SubtreeExact(spec, wired, u)
    ensures Partly(spec, s, u, level, below, j + 1, 0) && PartlyExact(spec, s, u, level, j + 1, 0)
  {
    ChildAdvanced(spec, s, t, wired, u, level, below, j);
    PartlyChild(spec, s, t, wired, u, level, below, j);
    ExactChild(spec, s, t, wired, u, level, j);
  }

  ghost predicate TopWires(s: State, wires: seq<Wire>, nextCache: End, sub: Name, k: nat) {
    forall e {:trigger Wired(wires, e)} :: Device(e) ==>
      Wired(wires, e) == Wired(s.wires, e) + Bit(e == nextCache) + Bit(e.TesterPort? && e.sub == sub && e.k < k)
  }

  lemma TopDone(spec: Spec, s: State, t: State, nextCache: End)
    requires spec.Valid() && |s.next| == |spec.caches| + 1 && t.next == Named(s, 0)
    requires t.names == s.names + [NextName(s, 0)] && t.testers == s.testers + spec.Testers(0)
    requires TopWires(s, t.wires, nextCache, NextName(s, 0), spec.Testers(0))
    ensures Subtree(spec, s, t, 0, Some(nextCache))
  {
    TopAdvanced(spec, s);
    CalledSnoc(s.names, NextName(s, 0));
    forall n
      ensures Between(n, s.next, t.next) <==> n == NextName(s, 0)
    {
      SubIsNew(s, t.next, 0, n);
    }
    assert NamesGrow(s, t, s.next, None);
    assert SubtreeWires(spec, s, t, Some(nextCache));
  }

  lemma TopAdvanced(spec: Spec, s: State)
    requires spec.Valid() && |s.next| == |spec.caches| + 1
    ensures Advanced(s.next, Named(s, 0), 0, spec.Fan(0), 1)
    ensures spec.TestersFrom(0) == spec.Testers(0)
  {
    assert spec.Fan(0) == [] && spec.Fan(0)[..0] == [];
  }

  // ----- The whole tree -----

  /** Subsystem `n` is in the tree: there are as many per level as the fan-outs before it multiply to. */
  predicate InTree(spec: Spec, n: Name) {
    n.level <= |spec.caches| && n.index < Product(spec.caches[..|spec.caches| - n.level])
  }

  /** `e` is a tester's port or a side of a cache of the tree. */
  predicate PortInTree(spec: Spec, e: End) {
    match e
    case TesterPort(n, k) => InTree(spec, n) && k < spec.Testers(n.level)
    case CpuSide(n, k) => InTree(spec, n) && k < spec.Caches(n.level)
    case MemSide(n, k) => InTree(spec, n) && k < spec.Caches(n.level)
    case _ => false
  }

  function Zeros(n: nat): (s: seq<nat>)
    ensures |s| == n && forall i :: 0 <= i < n ==> s[i] == 0
  {
    if n == 0 then [] else Zeros(n - 1) + [0]
  }

  lemma WholeTree(spec: Spec, t: State)
    requires spec.Valid()
    requires Subtree(spec, State(Zeros(|spec.caches| + 1), [], [], 0), t, |spec.caches|, None)
    ensures forall n :: Called(t.names, n) == Bit(InTree(spec, n))
    ensures forall e :: Device(e) ==> Wired(t.wires, e) == Bit(PortInTree(spec, e))
    ensures t.testers == ScaledTesters(spec.caches, spec.testers, 1)
  {
    var zeros := Zeros(|spec.caches| + 1);
    assert spec.Fan(|spec.caches|) == spec.caches && spec.testers[0..] == spec.testers;
    ScaledTestersCount(spec.caches, spec.testers, 1);
    forall n
      ensures Between(n, zeros, t.next) <==> InTree(spec, n)
    {
    }
    forall n
      ensures Called(t.names, n) == Bit(InTree(spec, n))
    {
      assert Called([], n) == 0;
    }
    forall e | Device(e)
      ensures Wired(t.wires, e) == Bit(PortInTree(spec, e))
    {
      assert Wired([], e) == 0;
    }
  }

  /** The wires of the whole tree: those `IsWire` describes, of the subsystems of the tree, and no others. */
  ghost predicate WiredAsMeant(spec: Spec, wires: seq<Wire>) {
    forall w :: Occurs(wires, w) == Bit(spec.IsWire(w) && InTree(spec, w.a.sub))
  }

  lemma WholeExact(spec: Spec, t: State)
    requires spec.Valid()
    requires Subtree(spec, State(Zeros(|spec.caches| + 1), [], [], 0), t, |spec.caches|, None)
    requires SubtreeExact(spec, State(Zeros(|spec.caches| + 1), [], [], 0), t)
    ensures WiredAsMeant(spec, t.wires)
  {
    var zeros := Zeros(|spec.caches| + 1);
    assert spec.Fan(|spec.caches|) == spec.caches;
    forall n
      ensures Between(n, zeros, t.next) <==> InTree(spec, n)
    {
    }
    forall w
      ensures Occurs(t.wires, w) == Bit(spec.IsWire(w) && InTree(spec, w.a.sub))
    {
      assert Occurs([], w) == 0;
    }
  }

  /** Every memory side leads to the crossbar of its own subsystem, and every tester to its own cache. */
  lemma DevicesJoined(spec: Spec, wires: seq<Wire>, n: Name, k: nat, e: End)
    requires spec.Valid() && WiredAsMeant(spec, wires) && InTree(spec, n) && n.level > 0
    ensures Occurs(wires, Wire(MemSide(n, k), e))
         == if k < spec.testers[|spec.caches| - n.level] + spec.caches[|spec.caches| - n.level] && e == XBarSlave(n) then 1 else 0
    ensures Occurs(wires, Wire(TesterPort(n, k), e))
         == if k < spec.testers[|spec.caches| - n.level] && e == CpuSide(n, k) then 1 else 0
  {
  }

  /**
   A subsystem other than the lowest one hangs, by its crossbar or by its only tester, on a cache one
   level down: subsystem number `i` on cache `i` modulo the fan-out, behind the testers' caches, of
   subsystem `i` divided by the fan-out.
   */
  lemma SubsystemsHang(spec: Spec, wires: seq<Wire>, n: Name, e: End)
    requires spec.Valid() && WiredAsMeant(spec, wires) && InTree(spec, n) && n.level < |spec.caches|
    ensures var down := |spec.caches| - n.level - 1;
            var f, m := spec.caches[down], spec.testers[down];
            f > 0 &&
            var cache := CpuSide(Name(n.level + 1, n.index / f), m + n.index % f);
            var single := n.level == 0 && spec.testers[|spec.caches|] == 1;
            && Occurs(wires, Wire(XBarMaster(n), e)) == (if !single && e == cache then 1 else 0)
            && (n.level == 0 && single ==> Occurs(wires, Wire(TesterPort(n, 0), e)) == if e == cache then 1 else 0)
            && (n.level == 0 && !single ==>
                  forall k :: Occurs(wires, Wire(TesterPort(n, k), e))
                           == if k < spec.testers[|spec.caches|] && e == XBarSlave(n) then 1 else 0)
  {
  }

  /** The lowest crossbar hangs on nothing. */
  lemma RootHangsFree(spec: Spec, wires: seq<Wire>, e: End)
    requires spec.Valid() && WiredAsMeant(spec, wires)
    ensures Occurs(wires, Wire(XBarMaster(Name(|spec.caches|, 0)), e)) == 0
  {
  }

  /**
   Builds the system: every subsystem name is used once, every tester port and both sides of
   every cache are wired exactly once and there are exactly `numtesters` testers.
   */
  method BuildTree(spec: Spec, l1: Prototype) returns (system: Builder)
    requires spec.Valid()
    ensures forall n :: Called(system.subsystems, n) == Bit(InTree(spec, n))
    ensures forall e :: Device(e) ==> Wired(system.wires, e) == Bit(PortInTree(spec, e))
    ensures WiredAsMeant(spec, system.wires)
    ensures system.testers == ScaledTesters(spec.caches, spec.testers, 1)
  {
    var prototypes := ScalePrototypes(l1, spec.caches);
    system := new Builder(spec);
    assert spec.Fan(|spec.caches|) == spec.caches;
    system.MakeCacheLevel(spec.caches, prototypes, |spec.caches|, None);
    WholeTree(spec, system.AsState());
    WholeExact(spec, system.AsState());
  }
}
