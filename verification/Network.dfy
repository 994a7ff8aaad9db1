/** The physical network: a tree of slaves hanging off the master.
  *
  * Every slave is entered through port 0. A frame then leaves through the other connected
  * ports in the order 3, 1, 2, visits what hangs there, and finally returns through port 0.
  * Slaves are numbered in the order in which the frame first reaches them (preorder), the first
  * slave being number 1; number 0 is the master.
  */
module Network {

  type Port = p: nat | p < 4

  /** `dc` tells whether the slave has a distributed clock, `offset` is how far that clock is off. */
  datatype Tree = Node(dc: bool, offset: int, on3: Link, on1: Link, on2: Link)

  /** What is plugged into a port: nothing, or a cable with the same delay both ways. */
  datatype Link = Open | Cable(delay: nat, far: Tree)

  function Size(t: Tree): (n: nat)
    ensures n >= 1
  {
    1 + LinkSize(t.on3) + LinkSize(t.on1) + LinkSize(t.on2)
  }

  function LinkSize(l: Link): nat {
    match l
    case Open => 0
    case Cable(_, far) => Size(far)
  }

  /** Number of cables leading away from the master. */
  function Children(t: Tree): nat {
    (if t.on3.Cable? then 1 else 0) + (if t.on1.Cable? then 1 else 0) + (if t.on2.Cable? then 1 else 0)
  }

  /** The ports on which communication is established; port 0 always is. */
  function Ports(t: Tree): set<Port> {
    {0} + (if t.on3.Cable? then {3} else {}) + (if t.on1.Cable? then {1} else {})
        + (if t.on2.Cable? then {2} else {})
  }

  /** The moment the frame leaves slave `t` through port 0, having entered it at `now`. */
  function Exit(t: Tree, now: int): (e: int)
    ensures e >= now
  {
    Return(t.on2, Return(t.on1, Return(t.on3, now)))
  }

  /** The moment the frame is back at a port, having been handed to it at `now`. */
  function Return(l: Link, now: int): (e: int)
    ensures e >= now
    ensures l.Open? ==> e == now
  {
    match l
    case Open => now
    case Cable(d, far) => Exit(far, now + d) + d
  }
}
