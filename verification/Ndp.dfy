/** The neighbour table: echo, down, clear and ageing, against the history of what happened. */
module Ndp {
  import opened Options

  const AGE_TIME: nat := 120

  /** A packet: the message type and 24 bytes of name. */
  const PACKET_SIZE: nat := 28
  const TYPE_ECHO: nat := 1
  const TYPE_DOWN: nat := 2

  datatype Neighbor = Neighbor(ip: nat, port: nat, name: string, age: nat)

  /** What can happen to the table. */
  datatype Event =
    | Echo(ip: nat, port: nat, name: string)
    | Down(ip: nat, port: nat)
    | Clear
    | Tick
    | Ignored

  // ---------- What the history says about one neighbour ----------

  /** Does the event settle whether the neighbour is there? */
  predicate Settles(e: Event, ip: nat, port: nat) {
    e == Clear || ((e.Echo? || e.Down?) && e.ip == ip && e.port == port)
  }

  /** The last event of h that does. */
  function LastSettling(h: seq<Event>, ip: nat, port: nat): (r: Option<nat>)
    ensures r.Some? ==> r.value < |h| && Settles(h[r.value], ip, port)
    ensures r.Some? ==> forall i | r.value < i < |h| :: !Settles(h[i], ip, port)
    ensures r == None ==> forall i | 0 <= i < |h| :: !Settles(h[i], ip, port)
  {
    if h == [] then None
    else if Settles(h[|h| - 1], ip, port) then Some(|h| - 1)
    else LastSettling(h[..|h| - 1], ip, port)
  }

  function Ticks(h: seq<Event>): nat {
    if h == [] then 0 else Ticks(h[..|h| - 1]) + if h[|h| - 1] == Tick then 1 else 0
  }

  /** There with 120 less the ticks since the latest echo, if neither a down nor a clear nor 120 ticks came after it. */
  function Expected(h: seq<Event>, ip: nat, port: nat): Option<Neighbor> {
    match LastSettling(h, ip, port)
    case None => None
    case Some(i) =>
      var ticks := Ticks(h[i + 1..]);
      if h[i].Echo? && ticks < AGE_TIME then Some(Neighbor(ip, port, h[i].name, AGE_TIME - ticks)) else None
  }

  // ---------- The table as a list ----------

  predicate At(n: Neighbor, ip: nat, port: nat) {
    n.ip == ip && n.port == port
  }

  /** The first entry for the key; the length if there is none. */
  function Index(t: seq<Neighbor>, ip: nat, port: nat): (i: nat)
    ensures i <= |t|
    ensures i < |t| ==> At(t[i], ip, port)
    ensures forall j | 0 <= j < i :: !At(t[j], ip, port)
  {
    if t == [] || At(t[0], ip, port) then 0 else 1 + Index(t[1..], ip, port)
  }

  function Lookup(t: seq<Neighbor>, ip: nat, port: nat): Option<Neighbor> {
    var i := Index(t, ip, port);
    if i < |t| then Some(t[i]) else None
  }

  predicate Unique(t: seq<Neighbor>) {
    forall i, j | 0 <= i < j < |t| :: !At(t[i], t[j].ip, t[j].port)
  }

  function Added(t: seq<Neighbor>, ip: nat, port: nat, name: string): seq<Neighbor> {
    var i := Index(t, ip, port);
    if i < |t| then t[i := t[i].(name := name, age := AGE_TIME)]
    else t + [Neighbor(ip, port, name, AGE_TIME)]
  }

  function Deleted(t: seq<Neighbor>, ip: nat, port: nat): seq<Neighbor> {
    var i := Index(t, ip, port);
    if i < |t| then t[..i] + t[i + 1..] else t
  }

  function Aged(t: seq<Neighbor>): seq<Neighbor> {
    if t == [] then []
    else
      var last := t[|t| - 1];
      Aged(t[..|t| - 1]) + if last.age <= 1 then [] else [last.(age := last.age - 1)]
  }

  function Apply(t: seq<Neighbor>, e: Event): seq<Neighbor> {
    match e
    case Echo(ip, port, name) => Added(t, ip, port, name)
    case Down(ip, port) => Deleted(t, ip, port)
    case Clear => []
    case Tick => Aged(t)
    case Ignored => t
  }

  /** The table after a history. */
  function Run(h: seq<Event>): seq<Neighbor> {
    if h == [] then [] else Apply(Run(h[..|h| - 1]), h[|h| - 1])
  }

  // ---------- Every step ----------

  /** An entry found anywhere in a table without duplicates is the one looked up. */
  lemma LookupAt(t: seq<Neighbor>, i: nat)
    requires Unique(t) && i < |t|
    ensures Lookup(t, t[i].ip, t[i].port) == Some(t[i])
  {
    var j := Index(t, t[i].ip, t[i].port);
    assert At(t[i], t[i].ip, t[i].port) && j <= i;
  }

  lemma AddedKeeps(t: seq<Neighbor>, ip: nat, port: nat, name: string)
    requires Unique(t)
    ensures Unique(Added(t, ip, port, name))
    ensures Lookup(Added(t, ip, port, name), ip, port) == Some(Neighbor(ip, port, name, 120))
    ensures forall p, q | p != ip || q != port :: Lookup(Added(t, ip, port, name), p, q) == Lookup(t, p, q)
  {
    var i, u := Index(t, ip, port), Added(t, ip, port, name);
    if i < |t| {
      assert At(u[i], ip, port) && Index(u, ip, port) <= i;
      assert forall j | 0 <= j < i :: u[j] == t[j];
    } else {
      LookupLast(t, Neighbor(ip, port, name, AGE_TIME), ip, port);
    }
    forall p, q | p != ip || q != port
      ensures Lookup(u, p, q) == Lookup(t, p, q)
    {
      SameIndex(t, u, p, q);
    }
  }

  /** Two tables with the same entries for a key at the same places. */
  lemma SameIndex(t: seq<Neighbor>, u: seq<Neighbor>, p: nat, q: nat)
    requires |t| <= |u|
    requires forall i | 0 <= i < |t| :: (At(t[i], p, q) <==> At(u[i], p, q)) && (At(t[i], p, q) ==> t[i] == u[i])
    requires forall i | |t| <= i < |u| :: !At(u[i], p, q)
    ensures Lookup(u, p, q) == Lookup(t, p, q)
  {
  }

  lemma DeletedKeeps(t: seq<Neighbor>, ip: nat, port: nat)
    requires Unique(t)
    ensures Unique(Deleted(t, ip, port))
    ensures Lookup(Deleted(t, ip, port), ip, port) == None
    ensures forall p, q | p != ip || q != port :: Lookup(Deleted(t, ip, port), p, q) == Lookup(t, p, q)
  {
    hide Lookup, Unique;
    var i := Index(t, ip, port);
    if i < |t| {
      WithoutUnique(t, i);
    } else {
      NoEntry(t, ip, port);
    }
    forall p, q | p != ip || q != port
      ensures Lookup(Deleted(t, ip, port), p, q) == Lookup(t, p, q)
    {
      DeletedOther(t, i, p, q);
    }
  }

  lemma NoEntry(t: seq<Neighbor>, p: nat, q: nat)
    requires forall j | 0 <= j < |t| :: !At(t[j], p, q)
    ensures Lookup(t, p, q) == None
  {
  }

  lemma WithoutUnique(t: seq<Neighbor>, i: nat)
    requires Unique(t) && i < |t|
    ensures var u := t[..i] + t[i + 1..];
            Unique(u) && Lookup(u, t[i].ip, t[i].port) == None
  {
    var u := t[..i] + t[i + 1..];
    assert forall j | 0 <= j < |u| :: u[j] == t[if j < i then j else j + 1];
    hide Lookup;
    forall j | 0 <= j < |u|
      ensures !At(u[j], t[i].ip, t[i].port)
    {
    }
    NoEntry(u, t[i].ip, t[i].port);
  }

  lemma DeletedOther(t: seq<Neighbor>, i: nat, p: nat, q: nat)
    requires i <= |t| && (i < |t| ==> !At(t[i], p, q))
    ensures Lookup(if i < |t| then t[..i] + t[i + 1..] else t, p, q) == Lookup(t, p, q)
  {
    if i < |t| {
      var u := t[..i] + t[i + 1..];
      assert forall m | 0 <= m < |u| :: u[m] == t[if m < i then m else m + 1];
      var j, k := Index(t, p, q), Index(u, p, q);
      assert k < |u| ==> At(t[if k < i then k else k + 1], p, q);
      assert j < |t| ==> At(u[if j < i then j else j - 1], p, q);
    }
  }

  /** One second less for everyone; who has none left is gone. */
  function Older(n: Option<Neighbor>): Option<Neighbor> {
    if n.None? || n.value.age <= 1 then None else Some(n.value.(age := n.value.age - 1))
  }

  lemma LookupLast(t: seq<Neighbor>, n: Neighbor, p: nat, q: nat)
    ensures Lookup(t + [n], p, q) == if Lookup(t, p, q).Some? then Lookup(t, p, q) else if At(n, p, q) then Some(n) else None
  {
    var u := t + [n];
    assert u[|t|] == n && forall k | 0 <= k < |t| :: u[k] == t[k];
    var i, j := Index(t, p, q), Index(u, p, q);
    assert i < |t| ==> At(u[i], p, q) && j <= i;
    assert j < |t| ==> At(t[j], p, q) && i <= j;
    assert At(u[|t|], p, q) ==> j <= |t|;
  }

  lemma {:induction false} AgedKeeps(t: seq<Neighbor>)
    requires Unique(t)
    ensures Unique(Aged(t))
    ensures forall p, q :: Lookup(Aged(t), p, q) == Older(Lookup(t, p, q))
  {
    if t != [] {
      var s, n := t[..|t| - 1], t[|t| - 1];
      AgedKeeps(s);
      assert t == s + [n];
      NotBefore(s, n);
      var m := n.(age := if n.age <= 1 then 0 else n.age - 1);
      assert Aged(t) == if n.age <= 1 then Aged(s) else Aged(s) + [m];
      hide Aged, Lookup;
      forall p, q
        ensures Lookup(Aged(t), p, q) == Older(Lookup(t, p, q))
      {
        LookupLast(s, n, p, q);
        LookupLast(Aged(s), m, p, q);
        assert At(n, p, q) ==> Lookup(s, p, q) == None;
      }
      UniqueLast(Aged(s), m);
    }
  }

  lemma UniqueLast(s: seq<Neighbor>, n: Neighbor)
    requires Unique(s) && Lookup(s, n.ip, n.port) == None
    ensures Unique(s + [n])
  {
  }

  lemma NotBefore(s: seq<Neighbor>, n: Neighbor)
    requires Unique(s + [n])
    ensures Lookup(s, n.ip, n.port) == None
  {
    var t := s + [n];
    forall i | 0 <= i < |s|
      ensures !At(s[i], n.ip, n.port)
    {
      assert t[i] == s[i] && t[|s|] == n;
    }
  }

  // ---------- The table and the history ----------

  lemma TicksNext(h: seq<Event>, i: nat)
    requires i < |h| - 1
    ensures Ticks(h[i + 1..]) == Ticks(h[..|h| - 1][i + 1..]) + if h[|h| - 1] == Tick then 1 else 0
  {
    assert h[i + 1..][..|h| - i - 2] == h[..|h| - 1][i + 1..];
  }

  lemma ExpectedNext(h: seq<Event>, p: nat, q: nat)
    requires h != []
    ensures var e, before := h[|h| - 1], Expected(h[..|h| - 1], p, q);
            Expected(h, p, q) ==
            if e == Tick then Older(before)
            else if e == Clear then None
            else if e.Down? && e.ip == p && e.port == q then None
            else if e.Echo? && e.ip == p && e.port == q then Some(Neighbor(p, q, e.name, AGE_TIME))
            else before
  {
    var n := |h| - 1;
    if Settles(h[n], p, q) {
      assert h[n + 1..] == [];
    } else {
      var r := LastSettling(h[..n], p, q);
      if r.Some? {
        TicksNext(h, r.value);
      }
    }
  }

  /** After every history: no key twice, and exactly the neighbours, names and ages that the history says. */
  lemma {:induction false} TableIsHistory(h: seq<Event>)
    ensures Unique(Run(h))
    ensures forall p, q :: Lookup(Run(h), p, q) == Expected(h, p, q)
  {
    if h != [] {
      var t, e := Run(h[..|h| - 1]), h[|h| - 1];
      TableIsHistory(h[..|h| - 1]);
      forall p, q
        ensures Lookup(Apply(t, e), p, q) == Expected(h, p, q)
      {
        ExpectedNext(h, p, q);
        StepLookup(t, e, p, q);
      }
      StepUnique(t, e);
    }
  }

  lemma StepUnique(t: seq<Neighbor>, e: Event)
    requires Unique(t)
    ensures Unique(Apply(t, e))
  {
    match e
    case Echo(ip, port, name) => AddedKeeps(t, ip, port, name);
    case Down(ip, port) => DeletedKeeps(t, ip, port);
    case Tick => AgedKeeps(t);
    case _ =>
  }

  lemma StepLookup(t: seq<Neighbor>, e: Event, p: nat, q: nat)
    requires Unique(t)
    ensures var before := Lookup(t, p, q);
            Lookup(Apply(t, e), p, q) ==
            if e == Tick then Older(before)
            else if e == Clear then None
            else if e.Down? && e.ip == p && e.port == q then None
            else if e.Echo? && e.ip == p && e.port == q then Some(Neighbor(p, q, e.name, AGE_TIME))
            else before
  {
    match e
    case Echo(ip, port, name) => AddedKeeps(t, ip, port, name);
    case Down(ip, port) => DeletedKeeps(t, ip, port);
    case Tick => AgedKeeps(t);
    case _ =>
  }

  // ---------- What a lookup finds ----------

  /** Neither an echo nor a down of the key nor a clear comes after place i. */
  predicate Quiet(h: seq<Event>, i: int, ip: nat, port: nat) {
    forall j | 0 <= j < |h| && i < j ::
      h[j] != Clear && !(h[j].Echo? && h[j].ip == ip && h[j].port == port) && !(h[j].Down? && h[j].ip == ip && h[j].port == port)
  }

  lemma {:induction false} TicksCounted(h: seq<Event>)
    ensures Ticks(h) == multiset(h)[Tick]
  {
    if h != [] {
      TicksCounted(h[..|h| - 1]);
      assert h == h[..|h| - 1] + [h[|h| - 1]];
    }
  }

  lemma QuietLast(h: seq<Event>, i: nat, ip: nat, port: nat)
    requires i < |h| && Quiet(h, i, ip, port) && Settles(h[i], ip, port)
    ensures LastSettling(h, ip, port) == Some(i)
  {
    assert LastSettling(h, ip, port).Some?;
  }

  /** After the latest echo of a neighbour it is found with its name and 120 less the ticks since, until 120 ticks
      have passed. */
  lemma EchoedNeighbour(h: seq<Event>, i: nat, ip: nat, port: nat, name: string)
    requires i < |h| && h[i] == Echo(ip, port, name) && Quiet(h, i, ip, port)
    ensures var ticks := multiset(h[i + 1..])[Tick];
            Lookup(Run(h), ip, port) == if ticks < 120 then Some(Neighbor(ip, port, name, 120 - ticks)) else None
  {
    hide Lookup, Run, Quiet;
    TableIsHistory(h);
    QuietLast(h, i, ip, port);
    TicksCounted(h[i + 1..]);
  }

  /** After a down or a clear, or before the first echo, it is not found. */
  lemma GoneNeighbour(h: seq<Event>, i: int, ip: nat, port: nat)
    requires -1 <= i < |h| && Quiet(h, i, ip, port) && (i >= 0 ==> h[i] == Clear || h[i] == Down(ip, port))
    ensures Lookup(Run(h), ip, port) == None
  {
    TableIsHistory(h);
    hide Lookup, Run;
    if i >= 0 {
      QuietLast(h, i, ip, port);
    }
  }

  // ---------- The table as it runs ----------

  lemma AgedNothing()
    ensures Aged([]) == []
  {
  }

  /** One entry of the ageing loop: cur is the aged front of t and its untouched back. */
  lemma AgeStep(t: seq<Neighbor>, done: nat, cur: seq<Neighbor>)
    requires done < |t| && cur == Aged(t[..done]) + t[done..]
    ensures var i, n := |Aged(t[..done])|, t[done];
            i < |cur| && cur[i] == n
            && Aged(t[..done + 1]) + t[done + 1..]
            == (if n.age <= 1 then cur[..i] + cur[i + 1..] else cur[i := n.(age := n.age - 1)])
            && |Aged(t[..done + 1])| == if n.age <= 1 then i else i + 1
  {
    assert t[..done + 1][..done] == t[..done];
    assert t[done..] == [t[done]] + t[done + 1..];
  }

  class NeighborTable {
    var neighbors: seq<Neighbor>
    ghost var history: seq<Event>

    /** The list is what its history makes it. */
    ghost predicate Valid()
      reads this
    {
      neighbors == Run(history)
    }

    constructor ()
      ensures Valid() && history == []
    {
      neighbors, history := [], [];
    }

    ghost method Record(e: Event)
      requires neighbors == Apply(Run(history), e)
      modifies this`history
      ensures Valid() && history == old(history) + [e]
    {
      var h := history + [e];
      assert h[..|h| - 1] == history;
      history := h;
    }

    /** DL_SEARCH with NDP_NeighborCompare. */
    method Search(ip: nat, port: nat) returns (i: nat)
      ensures i == Index(neighbors, ip, port)
    {
      i := 0;
      while i < |neighbors| && !(neighbors[i].ip == ip && neighbors[i].port == port)
        invariant 0 <= i <= |neighbors|
        invariant forall j | 0 <= j < i :: !At(neighbors[j], ip, port)
      {
        i := i + 1;
      }
    }

    /** NDP_NeighborAdd: a known neighbour is refreshed in its place, a new one goes to the end. */
    method Add(ip: nat, port: nat, name: string)
      requires Valid()
      modifies this
      ensures Valid() && history == old(history) + [Echo(ip, port, name)]
    {
      var i := Search(ip, port);
      if i < |neighbors| {
        neighbors := neighbors[i := neighbors[i].(name := name, age := AGE_TIME)];
      } else {
        neighbors := neighbors + [Neighbor(ip, port, name, AGE_TIME)];
      }
      Record(Echo(ip, port, name));
    }

    /** NDP_NeighborDel. */
    method Del(ip: nat, port: nat)
      requires Valid()
      modifies this
      ensures Valid() && history == old(history) + [Down(ip, port)]
    {
      var i := Search(ip, port);
      if i < |neighbors| {
        neighbors := neighbors[..i] + neighbors[i + 1..];
      }
      Record(Down(ip, port));
    }

    /** NDP_NeighborClearAll: from the head, one by one. */
    method ClearAll()
      requires Valid()
      modifies this
      ensures Valid() && history == old(history) + [Clear]
    {
      while neighbors != []
        invariant history == old(history)
        decreases |neighbors|
      {
        neighbors := neighbors[1..];
      }
      Record(Clear);
    }

    /** One turn of the loop of NDP_NeighborsAge. */
    method AgeEntry(i: nat, ghost t: seq<Neighbor>, ghost done: nat) returns (next: nat)
      requires done < |t| && i == |Aged(t[..done])| && neighbors == Aged(t[..done]) + t[done..]
      modifies this`neighbors
      ensures next == |Aged(t[..done + 1])| && neighbors == Aged(t[..done + 1]) + t[done + 1..]
    {
      hide Aged;
      AgeStep(t, done, neighbors);
      next := i;
      if neighbors[i].age <= 1 {
        neighbors := neighbors[..i] + neighbors[i + 1..];
      } else {
        neighbors := neighbors[i := neighbors[i].(age := neighbors[i].age - 1)];
        next := i + 1;
      }
    }

    /** NDP_NeighborsAge, once a second. */
    method Age()
      requires Valid()
      modifies this
      ensures Valid() && history == old(history) + [Tick]
    {
      hide Aged, Run;
      ghost var t := neighbors;
      ghost var done := 0;
      var i := 0;
      AgedNothing();
      assert t[..0] == [] && t[0..] == t;
      while i < |neighbors|
        invariant 0 <= done <= |t| && i == |Aged(t[..done])|
        invariant neighbors == Aged(t[..done]) + t[done..]
        invariant history == old(history)
        decreases |t| - done
      {
        i := AgeEntry(i, t, done);
        done := done + 1;
      }
      assert t[..done] == t;
      Record(Tick);
    }

    /** NDP_ProcessMsg. */
    method ProcessMsg(ip: nat, port: nat, dataLen: nat, msgType: nat, name: string) returns (ok: bool)
      requires Valid()
      modifies this
      ensures ok == (dataLen == 28)
      ensures Valid()
      ensures history == old(history) +
                         [if dataLen == 28 && msgType == 1 then Echo(ip, port, name)
                          else if dataLen == 28 && msgType == 2 then Down(ip, port)
                          else Ignored]
    {
      if dataLen != PACKET_SIZE {
        Record(Ignored);
        return false;
      }
      if msgType == TYPE_ECHO {
        Add(ip, port, name);
      } else if msgType == TYPE_DOWN {
        Del(ip, port);
      } else {
        Record(Ignored);
      }
      ok := true;
    }
  }
}
