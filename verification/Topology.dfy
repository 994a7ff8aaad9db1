/** Recovering the tree from link counts: the search for the parent in `ecx_config_init`. */
module Topology {
  import opened Network

  /** `top[b..]` holds the link counts of tree `t`, slaves numbered from `b`. */
  ghost predicate LinkCounts(top: seq<nat>, t: Tree, b: nat)
    decreases t
  {
    b + Size(t) <= |top|
    && top[b] == 1 + Children(t)
    && LinkCountsBehind(top, t.on3, b + 1)
    && LinkCountsBehind(top, t.on1, b + 1 + LinkSize(t.on3))
    && LinkCountsBehind(top, t.on2, b + 1 + LinkSize(t.on3) + LinkSize(t.on1))
  }

  ghost predicate LinkCountsBehind(top: seq<nat>, l: Link, b: nat)
    decreases l
  {
    l.Cable? ==> LinkCounts(top, l.far, b)
  }

  /** `parent[b..]` names, for every slave of `t` numbered from `b`, the slave its port 0 is cabled to. */
  ghost predicate TrueParents(parent: seq<nat>, t: Tree, b: nat, p: nat)
    decreases t
  {
    b + Size(t) <= |parent|
    && parent[b] == p
    && TrueParentsBehind(parent, t.on3, b + 1, b)
    && TrueParentsBehind(parent, t.on1, b + 1 + LinkSize(t.on3), b)
    && TrueParentsBehind(parent, t.on2, b + 1 + LinkSize(t.on3) + LinkSize(t.on1), b)
  }

  ghost predicate TrueParentsBehind(parent: seq<nat>, l: Link, b: nat, p: nat)
    decreases l
  {
    l.Cable? ==> TrueParents(parent, l.far, b, p)
  }

  /** How one slave's link count changes the running count. */
  function Weight(links: nat): int {
    if links == 1 then -1 else if links == 3 then 1 else if links == 4 then 2 else 0
  }

  /** The backwards scan, started at slave `c` with running count `count`. */
  function Scan(top: seq<nat>, c: nat, count: int): (p: nat)
    requires 1 <= c < |top|
    ensures 1 <= p <= c
    decreases c
  {
    var now := count + Weight(top[c]);
    if (now >= 0 && top[c] > 1) || c == 1 then c else Scan(top, c - 1, now)
  }

  /** The inner loop of the search, for one slave. */
  method FindParent(topology: array<nat>, slave: nat) returns (parent: nat)
    requires 1 <= slave < topology.Length
    ensures parent == if slave > 1 then Scan(topology[..], slave - 1, 0) else 0
  {
    parent := 0;
    if slave > 1 {
      var topoc: int := 0;
      var slavec: int := slave - 1;
      ghost var goal := Scan(topology[..], slave - 1, 0);
      while slavec > 0
        invariant slavec < slave
        invariant slavec > 0 ==> goal == Scan(topology[..], slavec, topoc)
        invariant slavec <= 0 ==> parent == goal
        decreases slavec
      {
        var topology := topology[slavec];
        if topology == 1 {
          topoc := topoc - 1;
        }
        if topology == 3 {
          topoc := topoc + 1;
        }
        if topology == 4 {
          topoc := topoc + 2;
        }
        if (topoc >= 0 && topology > 1) || slavec == 1 {
          parent := slavec;
          slavec := 1;
        }
        slavec := slavec - 1;
      }
    }
  }

  /** The parent search over the whole slave list. */
  method FindParents(topology: array<nat>, parent: array<nat>)
    requires topology.Length == parent.Length > 0 && topology != parent
    modifies parent
    ensures parent[0] == old(parent[0])
    ensures forall s :: 1 <= s < parent.Length ==>
      parent[s] == if s > 1 then Scan(topology[..], s - 1, 0) else 0
  {
    for slave := 1 to topology.Length
      invariant parent[0] == old(parent[0])
      invariant forall s :: 1 <= s < slave ==>
        parent[s] == if s > 1 then Scan(topology[..], s - 1, 0) else 0
    {
      var p := FindParent(topology, slave);
      parent[slave] := p;
    }
  }

  lemma ScanStep(top: seq<nat>, c: nat, count: int)
    requires 1 < c < |top|
    ensures var now := count + Weight(top[c]);
      Scan(top, c, count) == if now >= 0 && top[c] > 1 then c else Scan(top, c - 1, now)
  {
  }

  /** Scanning over a complete subtree can never stop inside it, and lowers the count by one. */
  lemma {:induction false} ScanSkipsSubtree(top: seq<nat>, t: Tree, b: nat, count: int)
    requires LinkCounts(top, t, b) && b > 1 && count <= 0
    ensures Scan(top, b + Size(t) - 1, count) == Scan(top, b - 1, count - 1)
    decreases t
  {
    hide Scan;
    var c2 := if t.on2.Cable? then count - 1 else count;
    var c1 := if t.on1.Cable? then c2 - 1 else c2;
    ScanStep(top, b, if t.on3.Cable? then c1 - 1 else c1);
    ScanSkipsLink(top, t.on2, b + 1 + LinkSize(t.on3) + LinkSize(t.on1), count);
    ScanSkipsLink(top, t.on1, b + 1 + LinkSize(t.on3), c2);
    ScanSkipsLink(top, t.on3, b + 1, c1);
  }

  lemma {:induction false} ScanSkipsLink(top: seq<nat>, l: Link, b: nat, count: int)
    requires LinkCountsBehind(top, l, b) && 1 < b <= |top| && count <= 0
    ensures b + LinkSize(l) <= |top|
    ensures Scan(top, b + LinkSize(l) - 1, count) == Scan(top, b - 1, if l.Cable? then count - 1 else count)
    decreases l
  {
    if l.Cable? {
      ScanSkipsSubtree(top, l.far, b, count);
    }
  }

  /** A scan that comes down to a slave of which fewer than all branches were skipped stops there. */
  lemma ScanStopsAtParent(top: seq<nat>, t: Tree, b: nat, skipped: nat)
    requires LinkCounts(top, t, b) && b >= 1 && skipped < Children(t)
    ensures Scan(top, b, 0 - skipped) == b
  {
  }

  /** The scan started just before a branch skips the earlier branches and stops at the slave they share. */
  lemma ScanReachesParent(top: seq<nat>, t: Tree, b: nat)
    requires LinkCounts(top, t, b) && b >= 1
    ensures t.on3.Cable? ==> Scan(top, b, 0) == b
    ensures t.on1.Cable? ==> Scan(top, b + LinkSize(t.on3), 0) == b
    ensures t.on2.Cable? ==> Scan(top, b + LinkSize(t.on3) + LinkSize(t.on1), 0) == b
  {
    var n3 := if t.on3.Cable? then 1 else 0;
    var n1 := if t.on1.Cable? then 1 else 0;
    if t.on3.Cable? {
      ScanStopsAtParent(top, t, b, 0);
    }
    if t.on1.Cable? {
      ScanSkipsLink(top, t.on3, b + 1, 0);
      ScanStopsAtParent(top, t, b, n3);
    }
    if t.on2.Cable? {
      ScanSkipsLink(top, t.on1, b + 1 + LinkSize(t.on3), 0);
      ScanSkipsLink(top, t.on3, b + 1, 0 - n1);
      ScanStopsAtParent(top, t, b, n3 + n1);
    }
  }

  /** On the link counts of any tree the scan finds the true parent of every slave. */
  lemma {:induction false} ScanFindsParents(top: seq<nat>, parent: seq<nat>, t: Tree, b: nat, p: nat)
    requires b >= 1 && LinkCounts(top, t, b) && |parent| == |top| && parent[b] == p
    requires forall s :: b < s < b + Size(t) ==> parent[s] == Scan(top, s - 1, 0)
    ensures TrueParents(parent, t, b, p)
    decreases t
  {
    ScanReachesParent(top, t, b);
    ScanFindsParentsBehind(top, parent, t.on3, b + 1, b);
    ScanFindsParentsBehind(top, parent, t.on1, b + 1 + LinkSize(t.on3), b);
    ScanFindsParentsBehind(top, parent, t.on2, b + 1 + LinkSize(t.on3) + LinkSize(t.on1), b);
  }

  lemma {:induction false} ScanFindsParentsBehind(top: seq<nat>, parent: seq<nat>, l: Link, c: nat, b: nat)
    requires c > b >= 1 && LinkCountsBehind(top, l, c) && c + LinkSize(l) <= |top| == |parent|
    requires forall s :: c <= s < c + LinkSize(l) ==> parent[s] == Scan(top, s - 1, 0)
    requires l.Cable? ==> Scan(top, c - 1, 0) == b
    ensures TrueParentsBehind(parent, l, c, b)
    decreases l
  {
    if l.Cable? {
      ScanFindsParents(top, parent, l.far, c, b);
    }
  }

  /** Hence the search over the slave list recovers the network. */
  method DiscoverTree(topology: array<nat>, parent: array<nat>, ghost t: Tree)
    requires topology.Length == parent.Length == Size(t) + 1 && topology != parent
    requires LinkCounts(topology[..], t, 1)
    modifies parent
    ensures TrueParents(parent[..], t, 1, 0)
  {
    FindParents(topology, parent);
    ScanFindsParents(topology[..], parent[..], t, 1, 0);
  }
}
