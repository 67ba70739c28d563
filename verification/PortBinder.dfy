/**
 `ConfigManager.bind_ports`: choosing an order in which to connect ports, when a
 vector port can only be appended to and the configuration file fixes the index
 of every connection on both of its ends.
 */
module PortBinder {
  import opened Wrappers
  import opened Alphabet
  import opened Sorting

  // ----- Connections and their order -----

  datatype Port = Port(objectName: string, portName: string)

  datatype PortConnection = PortConnection(port: Port, index: nat)

  datatype Connection = Connection(from: PortConnection, to: PortConnection)

  function Flip(c: Connection): Connection {
    Connection(c.to, c.from)
  }

  predicate StringLe(a: string, b: string) {
    a == [] || (b != [] && (a[0] < b[0] || (a[0] == b[0] && StringLe(a[1..], b[1..]))))
  }

  predicate PortConnectionLe(a: PortConnection, b: PortConnection) {
    if a.port.objectName != b.port.objectName then StringLe(a.port.objectName, b.port.objectName)
    else if a.port.portName != b.port.portName then StringLe(a.port.portName, b.port.portName)
    else a.index <= b.index
  }

  predicate ConnectionLe(c: Connection, d: Connection) {
    if c.from != d.from then PortConnectionLe(c.from, d.from) else PortConnectionLe(c.to, d.to)
  }

  lemma {:induction false} StringLeOrder(a: string, b: string, c: string)
    ensures StringLe(a, b) || StringLe(b, a)
    ensures StringLe(a, b) && StringLe(b, a) ==> a == b
    ensures StringLe(a, b) && StringLe(b, c) ==> StringLe(a, c)
  {
    if a == [] || b == [] || c == [] {
      if a != [] && b != [] {
        StringLeOrder(a[1..], b[1..], []);
      }
    } else {
      StringLeOrder(a[1..], b[1..], c[1..]);
    }
  }

  lemma PortConnectionLeOrder(a: PortConnection, b: PortConnection, c: PortConnection)
    ensures PortConnectionLe(a, b) || PortConnectionLe(b, a)
    ensures PortConnectionLe(a, b) && PortConnectionLe(b, a) ==> a == b
    ensures PortConnectionLe(a, b) && PortConnectionLe(b, c) ==> PortConnectionLe(a, c)
  {
    StringLeOrder(a.port.objectName, b.port.objectName, c.port.objectName);
    StringLeOrder(a.port.portName, b.port.portName, c.port.portName);
    StringLeOrder(b.port.objectName, c.port.objectName, a.port.objectName);
    StringLeOrder(b.port.portName, c.port.portName, a.port.portName);
  }

  lemma ConnectionLeOrder()
    ensures TotalPreorder(ConnectionLe)
  {
    forall x, y
      ensures ConnectionLe(x, y) || ConnectionLe(y, x)
    {
      PortConnectionLeOrder(x.from, y.from, x.from);
      PortConnectionLeOrder(x.to, y.to, x.to);
    }
    forall x, y, z | ConnectionLe(x, y) && ConnectionLe(y, z)
      ensures ConnectionLe(x, z)
    {
      PortConnectionLeOrder(x.from, y.from, z.from);
      PortConnectionLeOrder(y.from, z.from, x.from);
      PortConnectionLeOrder(x.to, y.to, z.to);
    }
  }

  // ----- The order in the source's terms: object name, then port name, then index -----

  lemma {:induction false} StringLeExactly(a: string, b: string)
    ensures StringLe(a, b) <==> Precedes(a, b)
  {
    if a == [] {
      assert AgreesUpTo(a, b, 0);
    } else if b != [] {
      StringLeExactly(a[1..], b[1..]);
      if a[0] < b[0] {
        assert AgreesUpTo(a, b, 0);
      }
      if a[0] == b[0] && Precedes(a[1..], b[1..]) {
        var k :| AgreesUpTo(a[1..], b[1..], k) && (k == |a[1..]| || (k < |b[1..]| && a[1..][k] < b[1..][k]));
        assert a[..k + 1] == [a[0]] + a[1..][..k] && b[..k + 1] == [b[0]] + b[1..][..k];
        assert AgreesUpTo(a, b, k + 1);
      }
      if Precedes(a, b) {
        PrecedesTail(a, b);
      }
    }
  }

  lemma PrecedesTail(a: string, b: string)
    requires a != [] && b != [] && Precedes(a, b)
    ensures a[0] < b[0] || (a[0] == b[0] && Precedes(a[1..], b[1..]))
  {
    var k :| AgreesUpTo(a, b, k) && (k == |a| || (k < |b| && a[k] < b[k]));
    if k > 0 {
      assert a[0] == a[..k][0] && b[0] == b[..k][0];
      assert a[1..][..k - 1] == a[..k][1..] && b[1..][..k - 1] == b[..k][1..];
      assert AgreesUpTo(a[1..], b[1..], k - 1);
    }
  }

  /** One end is sorted before another, or is the same. */
  ghost predicate EndNotAfter(a: PortConnection, b: PortConnection) {
    && (a.port.objectName != b.port.objectName ==> Precedes(a.port.objectName, b.port.objectName))
    && (a.port.objectName == b.port.objectName && a.port.portName != b.port.portName ==>
          Precedes(a.port.portName, b.port.portName))
    && (a.port == b.port ==> a.index <= b.index)
  }

  /** The list goes by the left ends and, where those are the same, by the right ones. */
  ghost predicate InSourceOrder(s: seq<Connection>) {
    forall i, j :: 0 <= i < j < |s| ==>
      EndNotAfter(s[i].from, s[j].from) && (s[i].from == s[j].from ==> EndNotAfter(s[i].to, s[j].to))
  }

  lemma EndNotAfterExactly(a: PortConnection, b: PortConnection)
    ensures EndNotAfter(a, b) <==> PortConnectionLe(a, b)
  {
    StringLeExactly(a.port.objectName, b.port.objectName);
    StringLeExactly(a.port.portName, b.port.portName);
  }

  lemma SourceOrderExactly(s: seq<Connection>)
    ensures InSourceOrder(s) <==> SortedBy(ConnectionLe, s)
  {
    forall c, d
      ensures ConnectionLe(c, d) <==> EndNotAfter(c.from, d.from) && (c.from == d.from ==> EndNotAfter(c.to, d.to))
    {
      EndNotAfterExactly(c.from, d.from);
      EndNotAfterExactly(c.to, d.to);
      PortConnectionLeOrder(c.from, d.from, c.from);
    }
  }

  /** The list that is passed over: the connections, each as often as given, in that order and no other. */
  lemma SortedExactly(connections: seq<Connection>, s: seq<Connection>)
    ensures s == SortedConnections(connections) <==> multiset(s) == multiset(connections) && InSourceOrder(s)
  {
    ConnectionLeOrder();
    SortIsSorted(ConnectionLe, connections);
    SortKeepsElements(ConnectionLe, connections);
    SourceOrderExactly(s);
    if multiset(s) == multiset(connections) && InSourceOrder(s) {
      NoConnectionTies(s);
      SortedUnique(ConnectionLe, s, SortedConnections(connections));
    }
  }

  lemma NoConnectionTies(s: seq<Connection>)
    ensures NoTies(ConnectionLe, s)
  {
    forall c, d | c in s && d in s && ConnectionLe(c, d) && ConnectionLe(d, c)
      ensures c == d
    {
      PortConnectionLeOrder(c.from, d.from, c.from);
      PortConnectionLeOrder(c.to, d.to, c.to);
    }
  }

  // ----- Append-only ports -----

  function Touches(c: Connection, p: Port): nat {
    (if c.from.port == p then 1 else 0) + (if c.to.port == p then 1 else 0)
  }

  /** How many elements port `p` has once `bindings` have been made. */
  function Uses(bindings: seq<Connection>, p: Port): nat {
    if bindings == [] then 0
    else Uses(bindings[..|bindings| - 1], p) + Touches(bindings[|bindings| - 1], p)
  }

  /** The peers on port `p`, by index, once `bindings` have been made as appends on both ends. */
  function Peers(bindings: seq<Connection>, p: Port): (peers: seq<PortConnection>)
    ensures |peers| == Uses(bindings, p)
  {
    if bindings == [] then []
    else
      var last := bindings[|bindings| - 1];
      Peers(bindings[..|bindings| - 1], p)
      + (if last.from.port == p then [last.to] else [])
      + (if last.to.port == p then [last.from] else [])
  }

  /** The next append would give `c` its configured index on both ends. */
  predicate Fits(bindings: seq<Connection>, c: Connection) {
    c.from.index == Uses(bindings, c.from.port) && c.to.index == Uses(bindings, c.to.port)
  }

  ghost predicate InOrder(bindings: seq<Connection>) {
    forall k {:trigger Fits(bindings[..k], bindings[k])} :: 0 <= k < |bindings| ==> Fits(bindings[..k], bindings[k])
  }

  /** The bindings one pass over `s` makes. */
  function Greedy(s: seq<Connection>): seq<Connection> {
    if s == [] then []
    else
      var made := Greedy(s[..|s| - 1]);
      var c := s[|s| - 1];
      if Fits(made, c) then made + [c] else made
  }

  // ----- The lists `bind_ports` is given -----

  ghost predicate Symmetric(s: seq<Connection>) {
    forall c {:trigger Flip(c)} :: c in s ==> Flip(c) in s
  }

  ghost predicate NoSelf(s: seq<Connection>) {
    forall c :: c in s ==> c.from != c.to
  }

  ghost predicate NoDuplicates(s: seq<Connection>) {
    forall i, j :: 0 <= i < j < |s| ==> s[i] != s[j]
  }

  ghost predicate WellFormed(s: seq<Connection>) {
    Symmetric(s) && NoSelf(s) && NoDuplicates(s)
  }

  function Elements(s: seq<Connection>): set<Connection> {
    set c | c in s
  }

  // ----- Facts about bindings made in order -----

  lemma {:induction false} UsesGrow(bindings: seq<Connection>, j: nat, k: nat, p: Port)
    requires j <= k <= |bindings|
    ensures Uses(bindings[..j], p) <= Uses(bindings[..k], p)
    decreases k
  {
    if j < k {
      UsesGrow(bindings, j, k - 1, p);
      assert bindings[..k][..k - 1] == bindings[..k - 1];
    }
  }

  lemma InOrderPrefix(bindings: seq<Connection>, n: nat)
    requires InOrder(bindings) && n <= |bindings|
    ensures InOrder(bindings[..n])
    ensures n < |bindings| ==> Fits(bindings[..n], bindings[n])
  {
    forall k | 0 <= k < n
      ensures Fits(bindings[..n][..k], bindings[..n][k])
    {
      assert bindings[..n][..k] == bindings[..k];
    }
  }

  lemma InOrderSnoc(bindings: seq<Connection>, c: Connection)
    requires InOrder(bindings) && Fits(bindings, c)
    ensures InOrder(bindings + [c])
  {
    forall k | 0 <= k <= |bindings|
      ensures Fits((bindings + [c])[..k], (bindings + [c])[k])
    {
      assert (bindings + [c])[..k] == bindings[..k];
    }
    assert bindings[..|bindings|] == bindings;
  }

  lemma UsesSnoc(bindings: seq<Connection>, c: Connection, p: Port)
    ensures Uses(bindings + [c], p) == Uses(bindings, p) + Touches(c, p)
  {
    assert (bindings + [c])[..|bindings|] == bindings;
  }

  lemma UsesSnocAll(bindings: seq<Connection>, c: Connection)
    ensures forall p :: Uses(bindings + [c], p) == Uses(bindings, p) + Touches(c, p)
  {
    forall p {
      UsesSnoc(bindings, c, p);
    }
  }

  predicate HasEnd(c: Connection, e: PortConnection) {
    c.from == e || c.to == e
  }

  /** In an order that fits, an end is never bound twice. */
  lemma EndBoundOnce(bindings: seq<Connection>, j: nat, k: nat, e: PortConnection)
    requires InOrder(bindings) && j < k < |bindings|
    requires HasEnd(bindings[j], e)
    ensures !HasEnd(bindings[k], e)
  {
    assert bindings[..j + 1][..j] == bindings[..j];
    UsesGrow(bindings, j + 1, k, e.port);
    assert Fits(bindings[..j], bindings[j]) && Fits(bindings[..k], bindings[k]);
  }

  lemma {:induction false} GreedyInOrder(s: seq<Connection>)
    ensures InOrder(Greedy(s))
    ensures Elements(Greedy(s)) <= Elements(s)
  {
    if s == [] {
    } else {
      var made, c := Greedy(s[..|s| - 1]), s[|s| - 1];
      GreedyInOrder(s[..|s| - 1]);
      forall d | d in Greedy(s)
        ensures d in Elements(s)
      {
        assert d in Elements(s[..|s| - 1]) || d == c;
      }
      if Fits(made, c) {
        InOrderSnoc(made, c);
      }
    }
  }

  lemma InOrderDistinct(bindings: seq<Connection>)
    requires InOrder(bindings)
    ensures NoDuplicates(bindings)
    ensures forall c :: c in bindings && c.from != c.to ==> Flip(c) !in bindings
  {
    forall i, j | 0 <= i < j < |bindings|
      ensures bindings[i] != bindings[j] && bindings[i] != Flip(bindings[j])
    {
      EndBoundOnce(bindings, i, j, bindings[i].from);
    }
  }

  /** Every binding made in order sits at its configured index on both of its ports. */
  lemma {:induction false} PeersAt(bindings: seq<Connection>, c: Connection)
    requires InOrder(bindings) && c in bindings && c.from != c.to
    ensures c.from.index < |Peers(bindings, c.from.port)|
    ensures Peers(bindings, c.from.port)[c.from.index] == c.to
    ensures c.to.index < |Peers(bindings, c.to.port)|
    ensures Peers(bindings, c.to.port)[c.to.index] == c.from
  {
    var n := |bindings| - 1;
    InOrderPrefix(bindings, n);
    if bindings[n] != c {
      PeersAt(bindings[..n], c);
    }
  }

  /** Nothing else is on a port: each element comes from one of the bindings. */
  lemma {:induction false} PeersComeFrom(bindings: seq<Connection>, p: Port, i: nat)
    requires InOrder(bindings) && NoSelf(bindings) && i < |Peers(bindings, p)|
    ensures var c := Connection(PortConnection(p, i), Peers(bindings, p)[i]);
            c in bindings || Flip(c) in bindings
  {
    var n := |bindings| - 1;
    InOrderPrefix(bindings, n);
    assert bindings[n] in bindings;
    if i < |Peers(bindings[..n], p)| {
      PeersComeFrom(bindings[..n], p, i);
    }
  }

  // ----- Counting -----

  lemma {:induction false} ElementsSize(s: seq<Connection>)
    ensures |Elements(s)| <= |s|
    ensures NoDuplicates(s) ==> |Elements(s)| == |s|
  {
    if s == [] {
    } else {
      var front, last := s[..|s| - 1], s[|s| - 1];
      ElementsSize(front);
      assert Elements(s) == Elements(front) + {last};
      if NoDuplicates(s) {
        assert last !in front;
      }
    }
  }

  function Flips(cs: set<Connection>): set<Connection> {
    set c | c in cs :: Flip(c)
  }

  lemma {:induction false} FlipsSize(cs: set<Connection>)
    ensures |Flips(cs)| == |cs|
  {
    if cs == {} {
      assert Flips(cs) == {};
    } else {
      var c :| c in cs;
      FlipsSize(cs - {c});
      assert Flips(cs) == Flips(cs - {c}) + {Flip(c)};
      forall d | d in cs && Flip(d) == Flip(c)
        ensures d == c
      {
      }
    }
  }

  /**
   Bindings taken in order from a well-formed list account for all of it exactly
   when there are half as many of them as there are entries.
   */
  lemma HalfMeansAll(s: seq<Connection>, bindings: seq<Connection>)
    requires WellFormed(s) && InOrder(bindings) && Elements(bindings) <= Elements(s)
    ensures 2 * |bindings| == |s| <==> (forall c :: c in s ==> c in bindings || Flip(c) in bindings)
  {
    InOrderDistinct(bindings);
    ElementsSize(s);
    ElementsSize(bindings);
    var made := Elements(bindings);
    FlipsSize(made);
    forall c | c in bindings
      ensures c in s && Flip(c) in s && Flip(c) !in bindings
    {
      assert c in Elements(s);
    }
    assert made !! Flips(made);
    var both := made + Flips(made);
    assert |both| == 2 * |bindings|;
    assert both <= Elements(s);
    if 2 * |bindings| == |s| {
      SubsetOfSameSize(both, Elements(s));
      forall c | c in s
        ensures c in bindings || Flip(c) in bindings
      {
        assert c in both;
      }
    }
    if forall c :: c in s ==> c in bindings || Flip(c) in bindings {
      forall c | c in Elements(s)
        ensures c in both
      {
        assert c == Flip(Flip(c));
      }
      assert both == Elements(s);
    }
  }

  lemma SubsetOfSameSize<T>(a: set<T>, b: set<T>)
    requires a <= b && |a| == |b|
    ensures a == b
  {
    assert b == a + (b - a);
  }

  // ----- Soundness of the half-count test -----

  function SortedConnections(connections: seq<Connection>): seq<Connection> {
    Sort(ConnectionLe, connections)
  }

  lemma SortedConnectionsWellFormed(connections: seq<Connection>)
    requires WellFormed(connections)
    ensures WellFormed(SortedConnections(connections))
    ensures |SortedConnections(connections)| == |connections|
    ensures forall c :: c in SortedConnections(connections) <==> c in connections
  {
    var s := SortedConnections(connections);
    SortKeepsElements(ConnectionLe, connections);
    SortedMembers(connections);
    RearrangedDistinct(connections, s);
  }

  lemma SortedMembers(connections: seq<Connection>)
    ensures forall c :: c in SortedConnections(connections) <==> c in connections
  {
    SortKeepsElements(ConnectionLe, connections);
    forall c
      ensures c in SortedConnections(connections) <==> c in connections
    {
      assert c in multiset(SortedConnections(connections)) <==> c in multiset(connections);
    }
  }

  /** What a caller wants of the bindings: every connection made once, at its index on both ends. */
  ghost predicate Realizes(bindings: seq<Connection>, connections: seq<Connection>) {
    && NoDuplicates(bindings)
    && (forall c :: c in connections ==> (c in bindings) != (Flip(c) in bindings))
    && (forall c :: c in connections ==>
          c.from.index < |Peers(bindings, c.from.port)|
          && Peers(bindings, c.from.port)[c.from.index] == c.to)
    && (forall p, i :: 0 <= i < |Peers(bindings, p)| ==>
          Connection(PortConnection(p, i), Peers(bindings, p)[i]) in connections)
  }

  lemma CoverRealizes(s: seq<Connection>, made: seq<Connection>)
    requires WellFormed(s) && InOrder(made) && Elements(made) <= Elements(s)
    requires forall c :: c in s ==> c in made || Flip(c) in made
    ensures Realizes(made, s)
  {
    InOrderDistinct(made);
    forall d | d in made
      ensures d in s && Flip(d) in s && d.from != d.to
    {
      assert d in Elements(s);
    }
    forall c | c in s
      ensures (c in made) != (Flip(c) in made)
      ensures c.from.index < |Peers(made, c.from.port)|
      ensures Peers(made, c.from.port)[c.from.index] == c.to
    {
      assert Flip(Flip(c)) == c;
      PeersAt(made, if c in made then c else Flip(c));
    }
    forall p, i | 0 <= i < |Peers(made, p)|
      ensures Connection(PortConnection(p, i), Peers(made, p)[i]) in s
    {
      var c := Connection(PortConnection(p, i), Peers(made, p)[i]);
      PeersComeFrom(made, p, i);
      assert Flip(Flip(c)) == c;
    }
  }

  /** The half-count test accepts exactly the passes that realize the configuration. */
  lemma HalfCountIsExact(connections: seq<Connection>)
    requires WellFormed(connections)
    ensures var made := Greedy(SortedConnections(connections));
            2 * |made| == |connections| <==> Realizes(made, connections)
  {
    var s := SortedConnections(connections);
    SortedConnectionsWellFormed(connections);
    GreedyInOrder(s);
    HalfMeansAll(s, Greedy(s));
    if 2 * |Greedy(s)| == |connections| {
      CoverRealizes(s, Greedy(s));
    }
  }

  // ----- The greedy pass is as good as any pass -----

  /** The entries of `s` that are in `chosen`, in the order of `s`. */
  function Select(s: seq<Connection>, chosen: set<Connection>): seq<Connection> {
    if s == [] then []
    else Select(s[..|s| - 1], chosen) + (if s[|s| - 1] in chosen then [s[|s| - 1]] else [])
  }

  /** A choice of one direction per connection that can be bound in the order of `s`. */
  ghost predicate OnePassPlan(s: seq<Connection>, chosen: set<Connection>) {
    && (forall c {:trigger Flip(c)} :: c in s ==> (c in chosen) != (Flip(c) in chosen))
    && InOrder(Select(s, chosen))
  }

  lemma {:induction false} SelectMembers(s: seq<Connection>, chosen: set<Connection>)
    ensures forall c :: c in Select(s, chosen) <==> c in s && c in chosen
  {
    if s != [] {
      SelectMembers(s[..|s| - 1], chosen);
      assert s == s[..|s| - 1] + [s[|s| - 1]];
    }
  }

  /** In a list with a plan an end belongs to one connection, whichever way it is written. */
  lemma PlanEndsUnique(s: seq<Connection>, chosen: set<Connection>, c: Connection, d: Connection, e: PortConnection)
    requires OnePassPlan(s, chosen)
    requires Symmetric(s) && c in s && d in s && HasEnd(c, e) && HasEnd(d, e)
    ensures d == c || d == Flip(c)
  {
    var p := Select(s, chosen);
    SelectMembers(s, chosen);
    var c' := if c in chosen then c else Flip(c);
    var d' := if d in chosen then d else Flip(d);
    assert c' in p && d' in p;
    var i :| 0 <= i < |p| && p[i] == c';
    var j :| 0 <= j < |p| && p[j] == d';
    if i < j {
      EndBoundOnce(p, i, j, e);
    } else if j < i {
      EndBoundOnce(p, j, i, e);
    }
  }

  /** An end whose index has been passed on its port has been bound. */
  lemma PassedMeansBound(made: seq<Connection>, e: PortConnection) returns (c: Connection)
    requires InOrder(made) && NoSelf(made) && e.index < Uses(made, e.port)
    ensures c in made && HasEnd(c, e)
  {
    PeersComeFrom(made, e.port, e.index);
    c := Connection(e, Peers(made, e.port)[e.index]);
    if c !in made {
      c := Flip(c);
    }
  }

  /** A connection that no longer fits on one end has been bound, on both ends. */
  lemma MissedMeansBound(s: seq<Connection>, chosen: set<Connection>, made: seq<Connection>, c: Connection)
    requires WellFormed(s) && OnePassPlan(s, chosen) && c in s
    requires InOrder(made) && Elements(made) <= Elements(s) && !Fits(made, c)
    requires c.from.index <= Uses(made, c.from.port) && c.to.index <= Uses(made, c.to.port)
    ensures c.from.index < Uses(made, c.from.port) && c.to.index < Uses(made, c.to.port)
  {
    forall d | d in made
      ensures d in s && d.from != d.to
    {
      assert d in Elements(s);
    }
    var e := if c.from.index != Uses(made, c.from.port) then c.from else c.to;
    var d := PassedMeansBound(made, e);
    PlanEndsUnique(s, chosen, c, d, e);
    PeersAt(made, d);
  }

  /** The pick of the plan at position `n` fits the picks before it. */
  lemma PlanPickFits(s: seq<Connection>, chosen: set<Connection>, n: nat)
    requires OnePassPlan(s, chosen) && n < |s| && s[n] in chosen
    ensures Fits(Select(s[..n], chosen), s[n])
  {
    SelectPrefix(s, chosen, n + 1);
    var k := |Select(s[..n], chosen)|;
    assert Fits(Select(s, chosen)[..k], Select(s, chosen)[k]);
  }

  /** If the pass skips a pick of the plan, it has been past both of its ends. */
  lemma SkippedPick(s: seq<Connection>, chosen: set<Connection>, n: nat)
    requires WellFormed(s) && OnePassPlan(s, chosen) && n < |s|
    requires !Fits(Greedy(s[..n]), s[n])
    requires var c, made := s[n], Greedy(s[..n]);
             c.from.index <= Uses(made, c.from.port) && c.to.index <= Uses(made, c.to.port)
    ensures var c, made := s[n], Greedy(s[..n]);
            c.from.index < Uses(made, c.from.port) && c.to.index < Uses(made, c.to.port)
  {
    GreedyInOrder(s[..n]);
    assert Elements(s[..n]) <= Elements(s);
    MissedMeansBound(s, chosen, Greedy(s[..n]), s[n]);
  }

  ghost predicate Ahead(s: seq<Connection>, chosen: set<Connection>, n: nat, p: Port)
    requires n <= |s|
  {
    Uses(Select(s[..n], chosen), p) <= Uses(Greedy(s[..n]), p)
  }

  /** At every point of the pass, no port is behind where the plan has it. */
  lemma {:induction false} GreedyStaysAhead(s: seq<Connection>, chosen: set<Connection>, n: nat, p: Port)
    requires WellFormed(s) && OnePassPlan(s, chosen) && n <= |s|
    ensures Ahead(s, chosen, n, p)
  {
    if n > 0 {
      GreedyStaysAhead(s, chosen, n - 1, p);
      GreedyStaysAhead(s, chosen, n - 1, s[n - 1].from.port);
      GreedyStaysAhead(s, chosen, n - 1, s[n - 1].to.port);
      AheadNext(s, chosen, n - 1, p);
    } else {
      assert s[..0] == [];
    }
  }

  lemma AheadNext(s: seq<Connection>, chosen: set<Connection>, n: nat, p: Port)
    requires WellFormed(s) && OnePassPlan(s, chosen) && n < |s| && Ahead(s, chosen, n, p)
    requires Ahead(s, chosen, n, s[n].from.port) && Ahead(s, chosen, n, s[n].to.port)
    ensures Ahead(s, chosen, n + 1, p)
  {
    var made, plan, c := Greedy(s[..n]), Select(s[..n], chosen), s[n];
    GreedyStep(s, n);
    SelectStep(s, chosen, n);
    if c in chosen && !Fits(made, c) {
      AheadWhereSkipped(s, chosen, n, p);
    }
    AheadStep(made, plan, Greedy(s[..n + 1]), Select(s[..n + 1], chosen), c, c in chosen, p);
  }

  /** The new counts follow from whether the pass and the plan have taken `c`. */
  lemma AheadStep(made: seq<Connection>, plan: seq<Connection>, made': seq<Connection>, plan': seq<Connection>,
                  c: Connection, picked: bool, p: Port)
    requires made' == if Fits(made, c) then made + [c] else made
    requires plan' == if picked then plan + [c] else plan
    requires Uses(plan, p) <= Uses(made, p)
    requires picked && !Fits(made, c) ==> Uses(plan + [c], p) <= Uses(made, p)
    ensures Uses(plan', p) <= Uses(made', p)
  {
    UsesSnoc(made, c, p);
    UsesSnoc(plan, c, p);
  }

  lemma AheadWhereSkipped(s: seq<Connection>, chosen: set<Connection>, n: nat, p: Port)
    requires WellFormed(s) && OnePassPlan(s, chosen) && n < |s|
    requires s[n] in chosen && !Fits(Greedy(s[..n]), s[n])
    requires Ahead(s, chosen, n, p) && Ahead(s, chosen, n, s[n].from.port) && Ahead(s, chosen, n, s[n].to.port)
    ensures Uses(Select(s[..n], chosen) + [s[n]], p) <= Uses(Greedy(s[..n]), p)
  {
    PlanPickFits(s, chosen, n);
    SkippedPick(s, chosen, n);
    StillAhead(Greedy(s[..n]), Select(s[..n], chosen), s[n], p);
  }

  /** The plan's pick only catches up with a pass that is past both of its ends. */
  lemma StillAhead(made: seq<Connection>, plan: seq<Connection>, c: Connection, p: Port)
    requires Fits(plan, c) && c.from != c.to && Uses(plan, p) <= Uses(made, p)
    requires c.from.index < Uses(made, c.from.port) && c.to.index < Uses(made, c.to.port)
    ensures Uses(plan + [c], p) <= Uses(made, p)
  {
    UsesSnoc(plan, c, p);
  }

  lemma SelectStep(s: seq<Connection>, chosen: set<Connection>, n: nat)
    requires n < |s|
    ensures var picked := Select(s[..n], chosen);
            Select(s[..n + 1], chosen) == if s[n] in chosen then picked + [s[n]] else picked
  {
    assert s[..n + 1][..n] == s[..n];
  }

  lemma {:induction false} SelectPrefix(s: seq<Connection>, chosen: set<Connection>, n: nat)
    requires 0 < n <= |s| && s[n - 1] in chosen
    ensures var k := |Select(s[..n - 1], chosen)|;
            k < |Select(s, chosen)| && Select(s, chosen)[..k] == Select(s[..n - 1], chosen)
            && Select(s, chosen)[k] == s[n - 1]
  {
    if n == |s| {
      assert s[..n - 1] == s[..|s| - 1];
    } else {
      var front := s[..|s| - 1];
      SelectPrefix(front, chosen, n);
      assert front[..n - 1] == s[..n - 1];
    }
  }

  lemma {:induction false} GreedySelects(s: seq<Connection>, n: nat)
    requires NoDuplicates(s) && n <= |s|
    ensures Select(s[..n], Elements(Greedy(s))) == Greedy(s[..n])
  {
    if n > 0 {
      GreedySelects(s, n - 1);
      assert s[..n][..n - 1] == s[..n - 1];
      GreedyKeeps(s, n);
    }
  }

  lemma {:induction false} GreedyKeeps(s: seq<Connection>, n: nat)
    requires NoDuplicates(s) && 0 < n <= |s|
    ensures s[n - 1] in Greedy(s) <==> Fits(Greedy(s[..n - 1]), s[n - 1])
  {
    var front := s[..|s| - 1];
    if n == |s| {
      GreedyInOrder(front);
      assert s[n - 1] !in Elements(front);
    } else {
      GreedyKeeps(front, n);
      assert front[..n - 1] == s[..n - 1];
    }
  }

  /**
   The pass binds everything if and only if one direction of each connection can be
   picked so that the picks, in the order of the list, count up from 0 on every port.
   */
  lemma GreedyIsOptimal(s: seq<Connection>)
    requires WellFormed(s)
    ensures 2 * |Greedy(s)| == |s| <==> exists chosen :: OnePassPlan(s, chosen)
  {
    var made := Greedy(s);
    GreedyInOrder(s);
    HalfMeansAll(s, made);
    if 2 * |made| == |s| {
      InOrderDistinct(made);
      GreedySelects(s, |s|);
      assert s[..|s|] == s;
      assert forall c :: c in s ==> Flip(Flip(c)) == c;
      assert OnePassPlan(s, Elements(made));
    }
    if chosen :| OnePassPlan(s, chosen) {
      forall c | c in s
        ensures c in made || Flip(c) in made
      {
        PlanMakesGreedyBind(s, chosen, c);
      }
    }
  }

  lemma PlanMakesGreedyBind(s: seq<Connection>, chosen: set<Connection>, c: Connection)
    requires WellFormed(s) && OnePassPlan(s, chosen) && c in s
    ensures c in Greedy(s) || Flip(c) in Greedy(s)
  {
    var made, plan := Greedy(s), Select(s, chosen);
    GreedyInOrder(s);
    SelectMembers(s, chosen);
    var picked := if c in chosen then c else Flip(c);
    PeersAt(plan, picked);
    GreedyStaysAhead(s, chosen, |s|, c.from.port);
    assert s[..|s|] == s;
    forall d | d in made
      ensures d in s
    {
      assert d in Elements(s);
    }
    var d := PassedMeansBound(made, c.from);
    PlanEndsUnique(s, chosen, c, d, c.from);
  }

  // ----- A class of configurations the pass always orders -----

  ghost predicate SinglePort(s: seq<Connection>, p: Port) {
    forall c, d :: c in s && d in s && c.from.port == p && d.from.port == p ==> c == d
  }

  ghost predicate ContiguousIndices(s: seq<Connection>) {
    && (forall c, d :: c in s && d in s && c.from == d.from ==> c == d)
    && (forall c, i :: c in s && 0 <= i < c.from.index ==> exists d :: d in s && d.from == PortConnection(c.from.port, i))
  }

  ghost predicate StarWiring(s: seq<Connection>) {
    forall c :: c in s ==> SinglePort(s, c.from.port) || SinglePort(s, c.to.port)
  }

  /** Bind from the many-connection side; between two single ports, from the lower one. */
  ghost predicate PickedFrom(s: seq<Connection>, c: Connection) {
    && SinglePort(s, c.to.port)
    && (SinglePort(s, c.from.port) ==> PortConnectionLe(c.from, c.to))
  }

  lemma {:induction false} SelectOrder(s: seq<Connection>, chosen: set<Connection>, j: nat, k: nat)
    requires SortedBy(ConnectionLe, s) && j < k < |Select(s, chosen)|
    ensures ConnectionLe(Select(s, chosen)[j], Select(s, chosen)[k])
  {
    var front := s[..|s| - 1];
    if k < |Select(front, chosen)| {
      SelectOrder(front, chosen, j, k);
    } else {
      SelectMembers(front, chosen);
      var c := Select(front, chosen)[j];
      assert c in front;
      var i :| 0 <= i < |front| && front[i] == c;
      assert s[i] == c;
    }
  }

  /** On every port the two share, `c` has the lower index. */
  predicate Below(c: Connection, d: Connection) {
    && (c.from.port == d.from.port ==> c.from.index < d.from.index)
    && (c.from.port == d.to.port ==> c.from.index < d.to.index)
    && (c.to.port == d.from.port ==> c.to.index < d.from.index)
    && (c.to.port == d.to.port ==> c.to.index < d.to.index)
  }

  ghost predicate Increasing(plan: seq<Connection>) {
    forall i, j :: 0 <= i < j < |plan| ==> Below(plan[i], plan[j])
  }

  /** `plan` holds each connection of `s` in one direction, between different ports. */
  ghost predicate Covers(s: seq<Connection>, plan: seq<Connection>) {
    && (forall c :: c in plan ==> c in s && c.from.port != c.to.port)
    && (forall c :: c in s ==> c in plan || Flip(c) in plan)
  }

  /** The end of a pick has not been passed by the picks before it... */
  lemma PickNotPassed(plan: seq<Connection>, k: nat, e: PortConnection)
    requires Increasing(plan) && k < |plan| && HasEnd(plan[k], e) && InOrder(plan[..k]) && NoSelf(plan[..k])
    ensures Uses(plan[..k], e.port) <= e.index
  {
    if e.index < Uses(plan[..k], e.port) {
      var _ := PassedMeansBound(plan[..k], e);
    }
  }

  /** ...and no lower end on its port is left for the picks after it. */
  lemma NoPickLeftBelow(plan: seq<Connection>, k: nat, e: PortConnection, d: Connection, f: PortConnection)
    requires Increasing(plan) && k < |plan| && HasEnd(plan[k], e) && plan[k].from.port != plan[k].to.port
    requires d in plan && HasEnd(d, f) && f.port == e.port && f.index < e.index
    ensures d in plan[..k]
  {
    var m :| 0 <= m < |plan| && plan[m] == d;
  }

  lemma IncreasingEndFits(s: seq<Connection>, plan: seq<Connection>, k: nat, e: PortConnection)
    requires Symmetric(s) && ContiguousIndices(s) && Covers(s, plan) && Increasing(plan)
    requires k < |plan| && HasEnd(plan[k], e) && InOrder(plan[..k])
    ensures e.index == Uses(plan[..k], e.port)
  {
    var used := Uses(plan[..k], e.port);
    PickNotPassed(plan, k, e);
    if used < e.index {
      var whole := if plan[k].from == e then plan[k] else Flip(plan[k]);
      assert plan[k] in plan && whole in s && whole.from == e;
      var d :| d in s && d.from == PortConnection(e.port, used);
      var picked := if d in plan then d else Flip(d);
      NoPickLeftBelow(plan, k, e, picked, d.from);
      PeersAt(plan[..k], picked);
    }
  }

  /**
   If later picks have higher indices on each port, the picks cover every connection
   and the indices leave no gap, then the picks count up from 0 on every port.
   */
  lemma {:induction false} IncreasingMeansInOrder(s: seq<Connection>, plan: seq<Connection>, k: nat)
    requires Symmetric(s) && ContiguousIndices(s) && Covers(s, plan) && Increasing(plan)
    requires k <= |plan|
    ensures InOrder(plan[..k])
  {
    if k > 0 {
      IncreasingMeansInOrder(s, plan, k - 1);
      IncreasingEndFits(s, plan, k - 1, plan[k - 1].from);
      IncreasingEndFits(s, plan, k - 1, plan[k - 1].to);
      InOrderSnoc(plan[..k - 1], plan[k - 1]);
      assert plan[..k] == plan[..k - 1] + [plan[k - 1]];
    }
  }

  lemma StarPortsDiffer(s: seq<Connection>, c: Connection)
    requires WellFormed(s) && StarWiring(s) && c in s
    ensures c.from.port != c.to.port
  {
    assert Flip(c) in s;
  }

  lemma StarHasPlan(s: seq<Connection>)
    requires WellFormed(s) && SortedBy(ConnectionLe, s) && ContiguousIndices(s) && StarWiring(s)
    ensures exists chosen :: OnePassPlan(s, chosen)
  {
    var chosen := set c | c in s && PickedFrom(s, c);
    var plan := Select(s, chosen);
    SelectMembers(s, chosen);
    forall c | c in s
      ensures (c in chosen) != (Flip(c) in chosen)
    {
      assert Flip(c) in s && Flip(Flip(c)) == c;
      PortConnectionLeOrder(c.from, c.to, c.from);
    }
    forall c | c in s
      ensures c.from.port != c.to.port
    {
      StarPortsDiffer(s, c);
    }
    forall i, j | 0 <= i < j < |plan|
      ensures Below(plan[i], plan[j])
    {
      StarPicksIncrease(s, chosen, i, j);
    }
    IncreasingMeansInOrder(s, plan, |plan|);
    assert plan[..|plan|] == plan;
    assert OnePassPlan(s, chosen);
  }

  lemma {:induction false} SelectDistinct(s: seq<Connection>, chosen: set<Connection>)
    requires NoDuplicates(s)
    ensures NoDuplicates(Select(s, chosen))
  {
    if s != [] {
      SelectDistinct(s[..|s| - 1], chosen);
      SelectMembers(s[..|s| - 1], chosen);
      assert s[|s| - 1] !in s[..|s| - 1];
    }
  }

  /** A single-connection port is an end of one pick only. */
  lemma PicksOnSinglePort(s: seq<Connection>, c: Connection, d: Connection, e: PortConnection, f: PortConnection)
    requires WellFormed(s) && StarWiring(s) && c in s && d in s && PickedFrom(s, c) && PickedFrom(s, d)
    requires HasEnd(c, e) && HasEnd(d, f) && e.port == f.port && SinglePort(s, e.port)
    ensures c == d
  {
    assert Flip(c) in s && Flip(d) in s;
    var c' := if c.from == e then c else Flip(c);
    var d' := if d.from == f then d else Flip(d);
    assert c' == d';
    PortConnectionLeOrder(c.from, c.to, c.from);
  }

  lemma StarPicksIncrease(s: seq<Connection>, chosen: set<Connection>, i: nat, j: nat)
    requires WellFormed(s) && SortedBy(ConnectionLe, s) && ContiguousIndices(s) && StarWiring(s)
    requires chosen == set c | c in s && PickedFrom(s, c)
    requires i < j < |Select(s, chosen)|
    ensures Below(Select(s, chosen)[i], Select(s, chosen)[j])
  {
    var plan := Select(s, chosen);
    var c, d := plan[i], plan[j];
    SelectMembers(s, chosen);
    SelectDistinct(s, chosen);
    SelectOrder(s, chosen, i, j);
    assert c in plan && d in plan;
    forall e, f | HasEnd(c, e) && HasEnd(d, f) && e.port == f.port
      ensures e == c.from && f == d.from && e.index < f.index
    {
      if SinglePort(s, e.port) {
        PicksOnSinglePort(s, c, d, e, f);
      }
    }
  }

  /**
   Indices without gaps and one single-connection port per connection are enough:
   the sorted pass binds everything.
   */
  lemma StarWiringIsOrdered(connections: seq<Connection>)
    requires WellFormed(connections) && ContiguousIndices(connections) && StarWiring(connections)
    ensures 2 * |Greedy(SortedConnections(connections))| == |connections|
  {
    var s := SortedConnections(connections);
    SortedConnectionsWellFormed(connections);
    ConnectionLeOrder();
    SortIsSorted(ConnectionLe, connections);
    StarHasPlan(s);
    GreedyIsOptimal(s);
  }

  // ----- Wiring that can be ordered, but not in one sorted pass -----

  function ChainEnd(name: char, index: nat): PortConnection {
    PortConnection(Port([name], "port"), index)
  }

  /** a[0]-b[1], b[0]-c[1], c[0]-d[0], each in both directions, already sorted. */
  const CHAIN: seq<Connection> := [
    Connection(ChainEnd('a', 0), ChainEnd('b', 1)),
    Connection(ChainEnd('b', 0), ChainEnd('c', 1)),
    Connection(ChainEnd('b', 1), ChainEnd('a', 0)),
    Connection(ChainEnd('c', 0), ChainEnd('d', 0)),
    Connection(ChainEnd('c', 1), ChainEnd('b', 0)),
    Connection(ChainEnd('d', 0), ChainEnd('c', 0))]

  lemma ChainSorted()
    ensures SortedConnections(CHAIN) == CHAIN
  {
    forall i, j | 0 <= i < j < |CHAIN|
      ensures ConnectionLe(CHAIN[i], CHAIN[j])
    {
      assert StringLe([], []);
      assert CHAIN[i].from.port.objectName[1..] == [];
    }
    SortOfSorted(ConnectionLe, CHAIN);
  }

  lemma GreedyStep(s: seq<Connection>, n: nat)
    requires n < |s|
    ensures var made := Greedy(s[..n]);
            Greedy(s[..n + 1]) == if Fits(made, s[n]) then made + [s[n]] else made
  {
    assert s[..n + 1][..n] == s[..n];
  }

  lemma UsesOfTwo(c: Connection, d: Connection, p: Port)
    ensures Uses([c], p) == Touches(c, p) && Uses([c, d], p) == Touches(c, p) + Touches(d, p)
  {
    assert [] + [c] == [c] && [c] + [d] == [c, d];
    UsesSnoc([], c, p);
    UsesSnoc([c], d, p);
  }

  lemma ChainGreedyStart()
    ensures Greedy(CHAIN[..3]) == []
  {
    GreedyStep(CHAIN, 0);
    GreedyStep(CHAIN, 1);
    GreedyStep(CHAIN, 2);
  }

  lemma ChainGreedyFourth()
    ensures Greedy(CHAIN[..4]) == [CHAIN[3]]
  {
    assert [] + [CHAIN[3]] == [CHAIN[3]];
    ChainGreedyStart();
    assert Fits([], CHAIN[3]);
    GreedyStep(CHAIN, 3);
  }

  lemma ChainGreedyMiddle()
    ensures Greedy(CHAIN[..5]) == [CHAIN[3], CHAIN[4]]
  {
    assert [CHAIN[3]] + [CHAIN[4]] == [CHAIN[3], CHAIN[4]];
    assert Fits([CHAIN[3]], CHAIN[4]) by {
      UsesOfTwo(CHAIN[3], CHAIN[4], CHAIN[4].from.port);
      UsesOfTwo(CHAIN[3], CHAIN[4], CHAIN[4].to.port);
    }
    ChainGreedyFourth();
    GreedyStep(CHAIN, 4);
  }

  lemma ChainGreedy()
    ensures Greedy(CHAIN) == [CHAIN[3], CHAIN[4]]
  {
    ChainGreedyMiddle();
    UsesOfTwo(CHAIN[3], CHAIN[4], CHAIN[5].from.port);
    GreedyStep(CHAIN, 5);
    assert CHAIN[..6] == CHAIN;
  }

  const CHAIN_ORDER: seq<Connection> := [CHAIN[3], CHAIN[4], CHAIN[2]]

  lemma ChainOrderInOrder()
    ensures InOrder(CHAIN_ORDER)
  {
    var order := CHAIN_ORDER;
    assert order[..0] == [] && order[..1] == [CHAIN[3]] && order[..2] == [CHAIN[3], CHAIN[4]];
    UsesOfTwo(CHAIN[3], CHAIN[4], order[1].from.port);
    UsesOfTwo(CHAIN[3], CHAIN[4], order[1].to.port);
    UsesOfTwo(CHAIN[3], CHAIN[4], order[2].from.port);
    UsesOfTwo(CHAIN[3], CHAIN[4], order[2].to.port);
    assert Fits(order[..0], order[0]);
    assert Fits(order[..1], order[1]);
    assert Fits(order[..2], order[2]);
  }

  lemma ChainOrderCovers()
    ensures Elements(CHAIN_ORDER) <= Elements(CHAIN)
    ensures forall c :: c in CHAIN ==> c in CHAIN_ORDER || Flip(c) in CHAIN_ORDER
  {
    assert CHAIN[3] in CHAIN && CHAIN[4] in CHAIN && CHAIN[2] in CHAIN;
    assert Flip(CHAIN[0]) == CHAIN_ORDER[2] && Flip(CHAIN[1]) == CHAIN_ORDER[1] && Flip(CHAIN[5]) == CHAIN_ORDER[0];
  }

  lemma ChainWellFormed()
    ensures WellFormed(CHAIN)
  {
    assert Flip(CHAIN[0]) == CHAIN[2] && Flip(CHAIN[1]) == CHAIN[4] && Flip(CHAIN[3]) == CHAIN[5];
  }

  lemma ChainContiguous()
    ensures ContiguousIndices(CHAIN)
  {
    assert CHAIN[1].from.index == 0 && CHAIN[3].from.index == 0;
  }

  /**
   The pass is not complete: a configuration with gapless indices that has a correct
   binding order, and that `bind_ports` nevertheless rejects.
   */
  lemma OnePassMissesAnOrder()
    ensures WellFormed(CHAIN) && ContiguousIndices(CHAIN)
    ensures exists order :: InOrder(order) && Realizes(order, CHAIN)
    ensures 2 * |Greedy(SortedConnections(CHAIN))| != |CHAIN|
  {
    ChainSorted();
    ChainGreedy();
    ChainWellFormed();
    ChainContiguous();
    ChainOrderInOrder();
    ChainOrderCovers();
    CoverRealizes(CHAIN, CHAIN_ORDER);
  }

  // ----- The method itself -----

  datatype BindResult =
    | Bound(order: seq<Connection>)
    | CannotBeOrdered
    | UnknownPort(port: Port)
    | MissingObject(name: string)
    | AlreadyConnected(port: Port)

  ghost predicate FromPort(connections: seq<Connection>, p: Port) {
    exists c :: c in connections && c.from.port == p
  }

  /** Marks every port that is the `from` end of a connection with 0 bindings. */
  method InitialIndices(connections: seq<Connection>) returns (indices: map<Port, nat>)
    ensures forall p :: p in indices <==> FromPort(connections, p)
    ensures forall p :: p in indices ==> indices[p] == 0
  {
    indices := map[];
    for i := 0 to |connections|
      invariant forall p :: p in indices <==> FromPort(connections[..i], p)
      invariant forall p :: p in indices ==> indices[p] == 0
    {
      assert connections[..i + 1] == connections[..i] + [connections[i]];
      var p := connections[i].from.port;
      assert connections[i] in connections[..i + 1] && FromPort(connections[..i + 1], p);
      assert forall q :: FromPort(connections[..i + 1], q) <==> FromPort(connections[..i], q) || q == p;
      indices := indices[p := 0];
    }
    assert connections[..|connections|] == connections;
  }

  function Increment(indices: map<Port, nat>, p: Port): map<Port, nat>
    requires p in indices
  {
    indices[p := indices[p] + 1]
  }

  ghost predicate Counts(indices: map<Port, nat>, made: seq<Connection>) {
    forall p :: p in indices ==> indices[p] == Uses(made, p)
  }

  lemma CountsStep(indices: map<Port, nat>, made: seq<Connection>, c: Connection)
    requires Counts(indices, made) && c.from.port in indices && c.to.port in indices
    ensures Counts(Increment(Increment(indices, c.from.port), c.to.port), made + [c])
  {
    UsesSnocAll(made, c);
  }

  /** The pass over the sorted connections, up to and including the half-count test. */
  method ChooseOrder(connections: seq<Connection>) returns (r: BindResult)
    ensures r.Bound? || r.CannotBeOrdered? || r.UnknownPort?
    ensures r.Bound? ==> r.order == Greedy(SortedConnections(connections)) && 2 * |r.order| == |connections|
    ensures r.CannotBeOrdered? ==> 2 * |Greedy(SortedConnections(connections))| != |connections|
    ensures r.UnknownPort? ==> !FromPort(connections, r.port) && exists c :: c in connections && c.to.port == r.port
  {
    var portBindIndices := InitialIndices(connections);
    var s := SortedConnections(connections);
    ghost var known := portBindIndices.Keys;
    assert forall c :: c in s ==> c in connections && c.from.port in known by {
      SortedMembers(connections);
      assert forall c :: c in connections ==> FromPort(connections, c.from.port);
    }
    var connectionsToMake: seq<Connection> := [];
    for i := 0 to |s|
      invariant connectionsToMake == Greedy(s[..i])
      invariant portBindIndices.Keys == known
      invariant Counts(portBindIndices, connectionsToMake)
    {
      var c := s[i];
      GreedyStep(s, i);
      if portBindIndices[c.from.port] == c.from.index {
        if c.to.port !in portBindIndices {
          return UnknownPort(c.to.port);
        }
        if portBindIndices[c.to.port] == c.to.index {
          CountsStep(portBindIndices, connectionsToMake, c);
          connectionsToMake := connectionsToMake + [c];
          portBindIndices := Increment(Increment(portBindIndices, c.from.port), c.to.port);
        }
      }
    }
    assert s[..|s|] == s;
    return if |connectionsToMake| * 2 != |connections| then CannotBeOrdered else Bound(connectionsToMake);
  }

  lemma PeersSnoc(bindings: seq<Connection>, c: Connection, p: Port)
    ensures Peers(bindings + [c], p) == Peers(bindings, p) + Peers([c], p)
  {
    assert (bindings + [c])[..|bindings|] == bindings && [c][..0] == [];
  }

  // ----- Making the connections -----

  /** The objects that exist by name, and the ports that take one peer only. */
  datatype System = System(objects: set<string>, scalars: set<Port>)

  predicate NamesMissing(system: System, c: Connection) {
    c.from.port.objectName !in system.objects || c.to.port.objectName !in system.objects
  }

  /** An object does not exist, or an end is a scalar port that `taken` says has a peer. */
  predicate Refused(system: System, taken: set<Port>, c: Connection) {
    NamesMissing(system, c) || c.from.port in system.scalars * taken || c.to.port in system.scalars * taken
  }

  /** The scalar ports that have a peer: those that had one, and those the bindings have given one. */
  ghost function Taken(system: System, before: set<Port>, bindings: seq<Connection>): set<Port> {
    set p | p in system.scalars && (p in before || Uses(bindings, p) > 0)
  }

  /** The object that is named does not exist; the port that is named is a scalar end of `c`. */
  ghost predicate Explains(system: System, c: Connection, r: BindResult) {
    && (r.MissingObject? ==>
          r.name !in system.objects && (r.name == c.from.port.objectName || r.name == c.to.port.objectName))
    && (r.AlreadyConnected? ==> r.port in system.scalars && (r.port == c.from.port || r.port == c.to.port))
  }

  /** What the configuration must not ask for: a missing object, or a second peer on a scalar port. */
  predicate Usable(system: System, c: Connection) {
    c.from.port.objectName in system.objects && (c.from.port in system.scalars ==> c.from.index == 0)
  }

  /** Binding number `k` is refused once those before it have been made. */
  ghost predicate RefusedAt(system: System, before: set<Port>, order: seq<Connection>, k: int) {
    0 <= k < |order| && Refused(system, Taken(system, before, order[..k]), order[k])
  }

  /** The first `n` bindings can all be made. */
  ghost predicate Connectable(system: System, before: set<Port>, order: seq<Connection>, n: nat)
    requires n <= |order|
  {
    forall k :: 0 <= k < n ==> !RefusedAt(system, before, order, k)
  }

  /** In an order that fits, only missing objects and scalar ports with a further index are refused. */
  lemma RefusedExactly(system: System, order: seq<Connection>, k: nat)
    requires InOrder(order) && k < |order|
    ensures RefusedAt(system, {}, order, k) <==>
            !Usable(system, order[k]) || !Usable(system, Flip(order[k]))
  {
    assert Fits(order[..k], order[k]);
  }

  /** All bindings of a realized configuration can be made exactly when every connection is usable. */
  lemma ConnectableExactly(system: System, connections: seq<Connection>, order: seq<Connection>)
    requires Symmetric(connections) && InOrder(order) && Elements(order) <= Elements(connections)
    requires forall c :: c in connections ==> c in order || Flip(c) in order
    ensures Connectable(system, {}, order, |order|) <==> forall c :: c in connections ==> Usable(system, c)
  {
    if Connectable(system, {}, order, |order|) {
      forall c | c in connections
        ensures Usable(system, c)
      {
        var picked := if c in order then c else Flip(c);
        var k :| 0 <= k < |order| && order[k] == picked;
        RefusedExactly(system, order, k);
        assert Flip(Flip(c)) == c;
      }
    }
    if forall c :: c in connections ==> Usable(system, c) {
      forall k | 0 <= k < |order|
        ensures !RefusedAt(system, {}, order, k)
      {
        assert order[k] in Elements(order) && order[k] in connections && Flip(order[k]) in connections;
        RefusedExactly(system, order, k);
      }
    }
  }

  function At(elements: map<Port, seq<PortConnection>>, p: Port): seq<PortConnection> {
    if p in elements then elements[p] else []
  }

  function WithPeers(elements: map<Port, seq<PortConnection>>): set<Port> {
    set p | p in elements && elements[p] != []
  }

  lemma ExtendsStep(before: map<Port, seq<PortConnection>>, were: map<Port, seq<PortConnection>>,
                    now: map<Port, seq<PortConnection>>, bindings: seq<Connection>, c: Connection)
    requires forall p :: At(were, p) == At(before, p) + Peers(bindings, p)
    requires forall p :: At(now, p) == At(were, p) + Peers([c], p)
    ensures forall p :: At(now, p) == At(before, p) + Peers(bindings + [c], p)
  {
    forall p
      ensures At(now, p) == At(before, p) + Peers(bindings + [c], p)
    {
      PeersSnoc(bindings, c, p);
      Associative(At(before, p), Peers(bindings, p), Peers([c], p));
    }
  }

  lemma Associative<T>(a: seq<T>, b: seq<T>, c: seq<T>)
    ensures a + (b + c) == (a + b) + c
  {
  }

  lemma ConnectableStep(system: System, before: set<Port>, order: seq<Connection>, n: nat)
    requires n < |order| && Connectable(system, before, order, n)
    requires !RefusedAt(system, before, order, n)
    ensures Connectable(system, before, order, n + 1)
  {
  }

  class ConfigManager {
    const system: System
    /** The peers appended so far to each port; a port nobody has bound is empty. */
    var elements: map<Port, seq<PortConnection>>

    constructor (system: System)
      ensures this.system == system && elements == map[]
    {
      this.system, elements := system, map[];
    }

    function ElementsOf(p: Port): seq<PortConnection>
      reads this
    {
      At(elements, p)
    }

    ghost function Connected(): set<Port>
      reads this
    {
      WithPeers(elements)
    }

    /** What stands in the way of `c`: looking up the objects, then a scalar port that has a peer. */
    method Obstacle(c: Connection) returns (r: Option<BindResult>)
      ensures r.None? <==> !Refused(system, Connected(), c)
      ensures r.Some? ==> r.value.MissingObject? || r.value.AlreadyConnected?
      ensures r.Some? ==> (r.value.MissingObject? <==> NamesMissing(system, c)) && Explains(system, c, r.value)
    {
      if c.from.port.objectName !in system.objects {
        return Some(MissingObject(c.from.port.objectName));
      }
      if c.to.port.objectName !in system.objects {
        return Some(MissingObject(c.to.port.objectName));
      }
      if c.from.port in system.scalars && ElementsOf(c.from.port) != [] {
        return Some(AlreadyConnected(c.from.port));
      }
      if c.to.port in system.scalars && ElementsOf(c.to.port) != [] {
        return Some(AlreadyConnected(c.to.port));
      }
      return None;
    }

    /** `setattr` on one port with the other: both ports append a new element. */
    method Connect(c: Connection)
      modifies this
      ensures forall p :: ElementsOf(p) == old(ElementsOf(p)) + Peers([c], p)
    {
      elements := elements[c.from.port := ElementsOf(c.from.port) + [c.to]];
      elements := elements[c.to.port := ElementsOf(c.to.port) + [c.from]];
      assert [c][..0] == [];
    }

    /** Makes the bindings of `order`, up to the first that is refused. */
    method ConnectAll(order: seq<Connection>) returns (failure: Option<BindResult>, made: nat)
      modifies this
      ensures made <= |order| && Extends(old(elements), order[..made])
      ensures Connectable(system, old(Connected()), order, made)
      ensures failure.None? <==> made == |order|
      ensures failure.Some? ==> RefusedAt(system, old(Connected()), order, made)
      ensures failure.Some? ==> failure.value.MissingObject? || failure.value.AlreadyConnected?
      ensures failure.Some? ==> Explains(system, order[made], failure.value)
    {
      made := 0;
      ghost var before := elements;
      while made < |order|
        invariant made <= |order| && Extends(before, order[..made])
        invariant Connectable(system, WithPeers(before), order, made)
      {
        failure := TryNext(before, order, made);
        if failure.Some? {
          return;
        }
        ConnectableStep(system, WithPeers(before), order, made);
        made := made + 1;
      }
      failure := None;
    }

    /** Makes binding number `made`, unless it is refused. */
    method TryNext(ghost before: map<Port, seq<PortConnection>>, order: seq<Connection>, made: nat) returns (failure: Option<BindResult>)
      requires made < |order| && Extends(before, order[..made])
      modifies this
      ensures failure.Some? <==> RefusedAt(system, WithPeers(before), order, made)
      ensures failure.Some? ==> elements == old(elements) && (failure.value.MissingObject? || failure.value.AlreadyConnected?)
      ensures failure.Some? ==> Explains(system, order[made], failure.value)
      ensures failure.None? ==> Extends(before, order[..made + 1])
    {
      failure := Obstacle(order[made]);
      SameTaken(before, order, made);
      if failure.None? {
        assert order[..made + 1] == order[..made] + [order[made]];
        ghost var were := elements;
        Connect(order[made]);
        ExtendsStep(before, were, elements, order[..made], order[made]);
      }
    }

    /** Since `before`, every port has got the peers of `bindings`. */
    ghost predicate Extends(before: map<Port, seq<PortConnection>>, bindings: seq<Connection>)
      reads this
    {
      forall p :: ElementsOf(p) == At(before, p) + Peers(bindings, p)
    }

    lemma SameTaken(before: map<Port, seq<PortConnection>>, order: seq<Connection>, k: nat)
      requires k < |order| && Extends(before, order[..k])
      ensures Refused(system, Connected(), order[k]) <==> RefusedAt(system, WithPeers(before), order, k)
    {
      HasPeers(before, order[..k], order[k].from.port);
      HasPeers(before, order[..k], order[k].to.port);
    }

    lemma HasPeers(before: map<Port, seq<PortConnection>>, bindings: seq<Connection>, p: Port)
      requires Extends(before, bindings)
      ensures p in Connected() <==> p in WithPeers(before) || Uses(bindings, p) > 0
    {
      assert |ElementsOf(p)| == |At(before, p)| + |Peers(bindings, p)|;
    }

    method BindPorts(connections: seq<Connection>) returns (r: BindResult)
      modifies this
      ensures r.Bound? ==> Extends(old(elements), r.order)
      ensures r.CannotBeOrdered? || r.UnknownPort? ==> elements == old(elements)
      ensures r.MissingObject? || r.AlreadyConnected? ==>
                exists made :: StoppedAt(connections, old(elements), made, r)
      ensures r.UnknownPort? ==> !FromPort(connections, r.port) && exists c :: c in connections && c.to.port == r.port
      ensures WellFormed(connections) ==> !r.UnknownPort?
      ensures WellFormed(connections) && r.Bound? ==> Realizes(r.order, connections)
      ensures WellFormed(connections) ==>
                (r.CannotBeOrdered? <==>
                 !exists s, chosen :: multiset(s) == multiset(connections) && InSourceOrder(s) && OnePassPlan(s, chosen))
      ensures WellFormed(connections) && old(Connected()) == {} && !r.CannotBeOrdered? ==>
                (r.Bound? <==> forall c :: c in connections ==> Usable(system, c))
    {
      r := ChooseOrder(connections);
      WellFormedOutcome(connections, r);
      if r.Bound? {
        ghost var order := r.order;
        var failure, made := ConnectAll(r.order);
        if WellFormed(connections) {
          BoundCovers(connections);
          ConnectableExactly(system, connections, order);
        }
        if failure.Some? {
          assert StoppedAt(connections, old(elements), made, failure.value);
          r := failure.value;
        } else {
          assert order[..made] == order;
        }
      }
    }

    /** The first `made` bindings have been made and the next one is refused. */
    ghost predicate StoppedAt(connections: seq<Connection>, before: map<Port, seq<PortConnection>>, made: int, r: BindResult)
      reads this
    {
      var order := Greedy(SortedConnections(connections));
      && 0 <= made < |order| && Extends(before, order[..made]) && Explains(system, order[made], r)
      && RefusedAt(system, WithPeers(before), order, made)
    }
  }

  /** An accepted pass is in order, taken from the list, and covers it. */
  lemma BoundCovers(connections: seq<Connection>)
    requires WellFormed(connections) && 2 * |Greedy(SortedConnections(connections))| == |connections|
    ensures var order := Greedy(SortedConnections(connections));
            && InOrder(order) && Elements(order) <= Elements(connections)
            && forall c :: c in connections ==> c in order || Flip(c) in order
  {
    var s := SortedConnections(connections);
    SortedConnectionsWellFormed(connections);
    GreedyInOrder(s);
    HalfMeansAll(s, Greedy(s));
    assert Elements(s) == Elements(connections);
  }

  lemma PlansInSourceOrder(connections: seq<Connection>)
    ensures (exists chosen :: OnePassPlan(SortedConnections(connections), chosen)) <==>
            exists s, chosen :: multiset(s) == multiset(connections) && InSourceOrder(s) && OnePassPlan(s, chosen)
  {
    SortedExactly(connections, SortedConnections(connections));
    if s, chosen :| multiset(s) == multiset(connections) && InSourceOrder(s) && OnePassPlan(s, chosen) {
      SortedExactly(connections, s);
    }
  }

  lemma WellFormedOutcome(connections: seq<Connection>, r: BindResult)
    requires r.Bound? || r.CannotBeOrdered? || r.UnknownPort?
    requires r.Bound? ==> r.order == Greedy(SortedConnections(connections)) && 2 * |r.order| == |connections|
    requires r.CannotBeOrdered? ==> 2 * |Greedy(SortedConnections(connections))| != |connections|
    requires r.UnknownPort? ==> !FromPort(connections, r.port) && exists c :: c in connections && c.to.port == r.port
    ensures WellFormed(connections) ==> !r.UnknownPort?
    ensures WellFormed(connections) && r.Bound? ==> Realizes(r.order, connections)
    ensures WellFormed(connections) ==>
              (r.Bound? <==>
               exists s, chosen :: multiset(s) == multiset(connections) && InSourceOrder(s) && OnePassPlan(s, chosen))
  {
    if WellFormed(connections) {
      PlansInSourceOrder(connections);
      HalfCountIsExact(connections);
      SortedConnectionsWellFormed(connections);
      GreedyIsOptimal(SortedConnections(connections));
      assert forall c :: c in connections ==> Flip(c) in connections && FromPort(connections, Flip(c).from.port);
    }
  }
}
