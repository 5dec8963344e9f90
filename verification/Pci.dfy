/** The bus scan of drivers/pci/pci.c, over configuration space as a function of bus, device,
    function and register. Bridges make it recursive, and nothing in it stops a loop of bridges. */
module Pci {
  import opened Arithmetic
  import opened Words

  const NO_VENDOR := 0xFFFF
  const VENDOR_ID := 0x00
  const CLASS := 0x08
  const HEADER_TYPE := 0x0C
  const SECONDARY := 0x18
  const BUSES := 256
  const DEVICES := 32
  const FUNCTIONS := 8

  /** The registers named here are the aligned ones that pci_read_config's mask leaves. */
  type Config = (nat, nat, nat, nat) -> Word

  datatype Loc = Loc(bus: nat, dev: nat, fn: nat)

  predicate Present(c: Config, l: Loc) { c(l.bus, l.dev, l.fn, VENDOR_ID) % 0x1_0000 != NO_VENDOR }

  /** Bit 7 of the header type of function 0. */
  predicate Multi(c: Config, bus: nat, dev: nat) { c(bus, dev, 0, HEADER_TYPE) / 0x80_0000 % 2 == 1 }

  predicate Bridge(c: Config, l: Loc) {
    var w := c(l.bus, l.dev, l.fn, CLASS);
    w / 0x100_0000 == 0x06 && w / 0x1_0000 % 0x100 == 0x04
  }

  function Secondary(c: Config, l: Loc): (bus: nat)
    ensures bus < BUSES
  {
    c(l.bus, l.dev, l.fn, SECONDARY) / 0x100 % 0x100
  }

  /** A function the scan of its bus looks at. */
  predicate Scanned(c: Config, l: Loc) {
    && l.dev < DEVICES && l.fn < FUNCTIONS && Present(c, l) && Present(c, Loc(l.bus, l.dev, 0))
    && (l.fn == 0 || Multi(c, l.bus, l.dev))
  }

  /** The four bytes of a register, lowest first. */
  ghost predicate Bytes(w: Word, b0: nat, b1: nat, b2: nat, b3: nat) {
    b0 < 256 && b1 < 256 && b2 < 256 && b3 < 256 && w == b0 + 0x100 * b1 + 0x1_0000 * b2 + 0x100_0000 * b3
  }

  /** Which bytes of which registers the scan goes by: the vendor in the low two bytes of the first
      register, the top bit of the header type in the third byte of its, class and subclass in the
      upper two of theirs, and a bridge's secondary bus in the second. */
  lemma {:induction false} RegisterBytes(c: Config, l: Loc, reg: nat, b0: nat, b1: nat, b2: nat, b3: nat)
    requires Bytes(c(l.bus, l.dev, l.fn, reg), b0, b1, b2, b3)
    ensures reg == 0x00 ==> (Present(c, l) <==> !(b0 == 0xFF && b1 == 0xFF))
    ensures reg == 0x0C && l.fn == 0 ==> (Multi(c, l.bus, l.dev) <==> b2 >= 0x80)
    ensures reg == 0x08 ==> (Bridge(c, l) <==> b3 == 6 && b2 == 4)
    ensures reg == 0x18 ==> Secondary(c, l) == b1
  {
    var w := c(l.bus, l.dev, l.fn, reg);
    DivUnique(w, 0x1_0000, b2 + 0x100 * b3, b0 + 0x100 * b1);
    DivUnique(w, 0x100, b1 + 0x100 * b2 + 0x1_0000 * b3, b0);
    DivUnique(b1 + 0x100 * b2 + 0x1_0000 * b3, 0x100, b2 + 0x100 * b3, b1);
    DivUnique(w, 0x100_0000, b3, b0 + 0x100 * b1 + 0x1_0000 * b2);
    DivUnique(b2 + 0x100 * b3, 0x100, b3, b2);
    DivUnique(w, 0x80_0000, 2 * b3 + b2 / 0x80, b0 + 0x100 * b1 + 0x1_0000 * (b2 % 0x80));
  }

  /** Every device on the bus has a function 0, whose header says so if there are others. */
  ghost predicate WellFormed(c: Config, bus: nat) {
    forall l: Loc :: l.bus == bus && l.dev < 32 && l.fn < 8 && Present(c, l) ==>
      Present(c, Loc(bus, l.dev, 0)) && (l.fn > 0 ==> Multi(c, bus, l.dev))
  }

  /** On such a bus the scan looks at every function there is; and only on such a bus. */
  lemma {:induction false} ScansAllPresent(c: Config, bus: nat)
    ensures WellFormed(c, bus) <==>
      forall l: Loc :: l.bus == bus && l.dev < 32 && l.fn < 8 ==> (Present(c, l) <==> Scanned(c, l))
  {
    hide Present, Multi;
  }

  // ---- What a scan visits, in order --------------------------------------------------

  function Functions(c: Config, bus: nat, dev: nat, n: nat): seq<Loc> {
    if n == 0 then []
    else Functions(c, bus, dev, n - 1) + (if Present(c, Loc(bus, dev, n - 1)) then [Loc(bus, dev, n - 1)] else [])
  }

  function OnDevice(c: Config, bus: nat, dev: nat): seq<Loc> {
    if !Present(c, Loc(bus, dev, 0)) then []
    else if Multi(c, bus, dev) then Functions(c, bus, dev, FUNCTIONS)
    else [Loc(bus, dev, 0)]
  }

  function OnDevices(c: Config, bus: nat, n: nat): seq<Loc> {
    if n == 0 then [] else OnDevices(c, bus, n - 1) + OnDevice(c, bus, n - 1)
  }

  function OnBus(c: Config, bus: nat): seq<Loc> { OnDevices(c, bus, DEVICES) }

  /** The visits of pci_scan_bus, or None if it calls itself more than k deep. */
  function Visits(c: Config, bus: nat, k: nat): Option<seq<Loc>>
    decreases k, 2, 0
  {
    if k == 0 then None else All(c, OnBus(c, bus), k)
  }

  function All(c: Config, ls: seq<Loc>, k: nat): Option<seq<Loc>>
    requires k > 0
    decreases k, 1, |ls|
  {
    if ls == [] then Some([])
    else
      var front, last := All(c, ls[..|ls| - 1], k), One(c, ls[|ls| - 1], k);
      if front.None? || last.None? then None else Some(front.value + last.value)
  }

  /** The visits of pci_scan_function: the function, then what is behind it. */
  function One(c: Config, l: Loc, k: nat): Option<seq<Loc>>
    requires k > 0
    decreases k, 0, 0
  {
    if !Bridge(c, l) then Some([l])
    else
      var v := Visits(c, Secondary(c, l), k - 1);
      if v.None? then None else Some([l] + v.value)
  }

  /** pci_scan_bus returns. */
  ghost predicate Terminates(c: Config, bus: nat) { exists k: nat :: Visits(c, bus, k).Some? }

  // ---- Which functions sit on a bus --------------------------------------------------

  lemma {:induction false} FunctionsMember(c: Config, bus: nat, dev: nat, n: nat, l: Loc)
    ensures l in Functions(c, bus, dev, n) <==> l.bus == bus && l.dev == dev && l.fn < n && Present(c, l)
    decreases n
  {
    if n > 0 {
      FunctionsMember(c, bus, dev, n - 1, l);
    }
  }

  lemma {:induction false} OnDeviceMember(c: Config, bus: nat, dev: nat, l: Loc)
    requires dev < DEVICES
    ensures l in OnDevice(c, bus, dev) <==> l.bus == bus && l.dev == dev && Scanned(c, l)
  {
    hide Functions, Multi;
    FunctionsMember(c, bus, dev, FUNCTIONS, l);
    if l.bus == bus && l.dev == dev && l.fn == 0 {
      assert l == Loc(bus, dev, 0);
    }
  }

  lemma {:induction false} OnDevicesMember(c: Config, bus: nat, n: nat, l: Loc)
    requires n <= DEVICES
    ensures l in OnDevices(c, bus, n) <==> l.bus == bus && l.dev < n && Scanned(c, l)
    decreases n
  {
    hide OnDevice, Scanned;
    if n > 0 {
      OnDevicesMember(c, bus, n - 1, l);
      OnDeviceMember(c, bus, n - 1, l);
    }
  }

  // ---- Depth -------------------------------------------------------------------------

  ghost predicate Edge(c: Config, a: nat, b: nat) {
    exists l :: l in OnBus(c, a) && Bridge(c, l) && Secondary(c, l) == b
  }

  /** Buses, each behind a bridge on the one before. */
  ghost predicate Path(c: Config, p: seq<nat>) {
    p != [] && forall i, j :: 0 <= i && j == i + 1 && j < |p| ==> Edge(c, p[i], p[j])
  }

  ghost predicate Distinct(p: seq<nat>) {
    forall i, j :: 0 <= i < j < |p| ==> p[i] != p[j]
  }

  lemma {:induction false} AllSome(c: Config, ls: seq<Loc>, k: nat)
    requires k > 0
    ensures All(c, ls, k).Some? <==> forall l :: l in ls ==> One(c, l, k).Some?
    decreases |ls|
  {
    hide One;
    if ls != [] {
      var front, last := ls[..|ls| - 1], ls[|ls| - 1];
      assert ls == front + [last] && last in ls;
      AllSome(c, front, k);
      if All(c, front, k).None? {
        var l :| l in front && One(c, l, k).None?;
        assert l in ls;
      }
    }
  }

  lemma {:induction false} Cons(c: Config, a: nat, p: seq<nat>)
    requires Path(c, p) && Edge(c, a, p[0])
    ensures Path(c, [a] + p)
  {
  }

  lemma {:induction false} Tail(c: Config, p: seq<nat>)
    requires Path(c, p) && |p| > 1
    ensures Path(c, p[1..]) && Edge(c, p[0], p[1])
  {
  }

  /** A scan limited to depth k gets through exactly when no path from its bus is longer. */
  lemma {:induction false} Depth(c: Config, bus: nat, k: nat)
    ensures Visits(c, bus, k).Some? <==> forall p :: Path(c, p) && p[0] == bus ==> |p| <= k
    decreases k
  {
    hide OnBus, Bridge, Secondary;
    if k == 0 {
      assert Path(c, [bus]);
    } else {
      AllSome(c, OnBus(c, bus), k);
      if Visits(c, bus, k).Some? {
        forall p | Path(c, p) && p[0] == bus ensures |p| <= k {
          if |p| > 1 { LongTail(c, p, k); }
        }
      } else {
        var l :| l in OnBus(c, bus) && One(c, l, k).None?;
        Depth(c, Secondary(c, l), k - 1);
        var p :| Path(c, p) && p[0] == Secondary(c, l) && |p| > k - 1;
        Cons(c, bus, p);
        assert ([bus] + p)[0] == bus;
      }
    }
  }

  lemma {:induction false} LongTail(c: Config, p: seq<nat>, k: nat)
    requires k > 0 && Path(c, p) && |p| > 1 && forall l :: l in OnBus(c, p[0]) ==> One(c, l, k).Some?
    ensures |p| <= k
    decreases k, 0
  {
    hide OnBus, Bridge, Secondary;
    Tail(c, p);
    var l :| l in OnBus(c, p[0]) && Bridge(c, l) && Secondary(c, l) == p[1];
    assert One(c, l, k).Some?;
    Depth(c, p[1], k - 1);
    assert p[1..][0] == p[1];
  }

  // ---- Exactly when the scan terminates ----------------------------------------------

  lemma {:induction false} Pump(c: Config, p: seq<nat>, i: nat, j: nat, n: nat)
    requires Path(c, p) && i < j < |p| && p[i] == p[j]
    ensures exists q :: Path(c, q) && q[0] == p[0] && |q| > n
    decreases n + 1 - |p|
  {
    if |p| <= n {
      var q := p[..j] + p[i..];
      assert Path(c, q) by { Splice(c, p, i, j); }
      assert q[i] == q[j] && q[0] == p[0];
      Pump(c, q, i, j, n);
    }
  }

  lemma {:induction false} Splice(c: Config, p: seq<nat>, i: nat, j: nat)
    requires Path(c, p) && i < j < |p| && p[i] == p[j]
    ensures Path(c, p[..j] + p[i..])
  {
    hide Edge;
    var q := p[..j] + p[i..];
    forall x, y | 0 <= x && y == x + 1 && y < |q| ensures Edge(c, q[x], q[y]) {
      if y < j {
        assert Edge(c, p[x], p[y]);
      } else if y == j {
        assert Edge(c, p[x], p[y]);
      } else {
        assert Edge(c, p[x - j + i], p[y - j + i]);
      }
    }
  }

  lemma {:induction false} OnPathBelow(c: Config, p: seq<nat>, i: nat)
    requires Path(c, p) && p[0] < BUSES && i < |p|
    ensures p[i] < BUSES
  {
    if i > 0 {
      assert Edge(c, p[i - 1], p[i]);
    }
  }

  ghost function Below(n: nat): (s: set<nat>)
    ensures |s| == n && forall x: nat :: x in s <==> x < n
  {
    if n == 0 then {} else Below(n - 1) + {n - 1}
  }

  ghost function Elements(p: seq<nat>): set<nat> { set i | 0 <= i < |p| :: p[i] }

  lemma {:induction false} DistinctElements(p: seq<nat>)
    requires Distinct(p)
    ensures |Elements(p)| == |p|
    decreases |p|
  {
    if p != [] {
      var front := p[..|p| - 1];
      DistinctElements(front);
      forall x ensures x in Elements(p) <==> x in Elements(front) + {p[|p| - 1]} {
        if x in Elements(front) {
          var i :| 0 <= i < |front| && front[i] == x;
          assert p[i] == x;
        }
      }
      assert Elements(p) == Elements(front) + {p[|p| - 1]};
    }
  }

  lemma {:induction false} Subset(a: set<nat>, b: set<nat>)
    requires a <= b
    ensures |a| <= |b|
  {
    assert b == a + (b - a);
  }

  lemma {:induction false} DistinctShort(c: Config, p: seq<nat>)
    requires Path(c, p) && p[0] < BUSES && Distinct(p)
    ensures |p| <= BUSES
  {
    hide Path;
    DistinctElements(p);
    forall x | x in Elements(p) ensures x in Below(BUSES) {
      var i :| 0 <= i < |p| && p[i] == x;
      OnPathBelow(c, p, i);
    }
    Subset(Elements(p), Below(BUSES));
  }

  /** The scan terminates exactly when no chain of bridges from its bus comes back to a bus it
      has passed; it is then at most 256 calls deep. */
  lemma {:induction false} TerminatesExactly(c: Config, bus: nat)
    requires bus < BUSES
    ensures Terminates(c, bus) <==> forall p :: Path(c, p) && p[0] == bus ==> Distinct(p)
    ensures Terminates(c, bus) <==> Visits(c, bus, BUSES).Some?
  {
    hide Visits, Edge;
    if Terminates(c, bus) {
      var k: nat :| Visits(c, bus, k).Some?;
      Depth(c, bus, k);
      forall p | Path(c, p) && p[0] == bus ensures Distinct(p) {
        forall i, j | 0 <= i < j < |p| ensures p[i] != p[j] {
          if p[i] == p[j] { Pump(c, p, i, j, k); }
        }
      }
    }
    if forall p :: Path(c, p) && p[0] == bus ==> Distinct(p) {
      forall p | Path(c, p) && p[0] == bus ensures |p| <= BUSES {
        DistinctShort(c, p);
      }
      Depth(c, bus, BUSES);
    }
  }

  /** So it terminates whenever every bridge leads to a bus of a higher number. */
  lemma {:induction false} AscendingTerminates(c: Config, bus: nat)
    requires bus < BUSES && forall a, b :: Edge(c, a, b) ==> a < b
    ensures Terminates(c, bus)
  {
    TerminatesExactly(c, bus);
    forall p, i, j | Path(c, p) && p[0] == bus && 0 <= i < j < |p| ensures p[i] != p[j] {
      Ascends(c, p, i, j);
    }
  }

  lemma {:induction false} Ascends(c: Config, p: seq<nat>, i: nat, j: nat)
    requires Path(c, p) && i < j < |p| && forall a, b :: Edge(c, a, b) ==> a < b
    ensures p[i] < p[j]
    decreases j
  {
    hide Edge;
    assert Edge(c, p[j - 1], p[j]);
    if i < j - 1 {
      Ascends(c, p, i, j - 1);
    }
  }

  // ---- What a terminating scan visits ------------------------------------------------

  ghost predicate Reaches(c: Config, a: nat, b: nat) {
    exists p :: Path(c, p) && p[0] == a && p[|p| - 1] == b
  }

  lemma {:induction false} AllMember(c: Config, ls: seq<Loc>, k: nat, l: Loc)
    requires k > 0 && All(c, ls, k).Some?
    ensures l in All(c, ls, k).value <==> exists m :: m in ls && One(c, m, k).Some? && l in One(c, m, k).value
    decreases |ls|
  {
    hide One;
    if ls != [] {
      var front, last := ls[..|ls| - 1], ls[|ls| - 1];
      assert ls == front + [last] && last in ls;
      AllMember(c, front, k, l);
      if l in All(c, front, k).value {
        var m :| m in front && One(c, m, k).Some? && l in One(c, m, k).value;
        assert m in ls;
      }
    }
  }

  lemma {:induction false} ReachesStep(c: Config, a: nat, b: nat)
    ensures Reaches(c, a, b) <==> a == b || exists m :: Edge(c, a, m) && Reaches(c, m, b)
  {
    hide Edge;
    if a == b {
      assert Path(c, [a]) && [a][0] == a;
    } else if Reaches(c, a, b) {
      var p :| Path(c, p) && p[0] == a && p[|p| - 1] == b;
      Tail(c, p);
      assert p[1..][0] == p[1] && p[1..][|p| - 2] == b;
    }
    if m :| Edge(c, a, m) && Reaches(c, m, b) {
      var p :| Path(c, p) && p[0] == m && p[|p| - 1] == b;
      Cons(c, a, p);
      assert ([a] + p)[|p|] == b;
    }
  }

  /** The scan visits exactly the functions on the buses reachable from its bus. */
  lemma {:induction false} VisitsReachable(c: Config, bus: nat, k: nat, l: Loc)
    requires Visits(c, bus, k).Some?
    ensures l in Visits(c, bus, k).value <==> Scanned(c, l) && Reaches(c, bus, l.bus)
    decreases k
  {
    hide OnBus, Bridge, Secondary, Scanned, Reaches;
    var ls := OnBus(c, bus);
    OnBusMember(c, l.bus, l);
    OnBusMember(c, bus, l);
    AllSome(c, ls, k);
    AllMember(c, ls, k, l);
    ReachesStep(c, bus, l.bus);
    if l in Visits(c, bus, k).value {
      var m :| m in ls && One(c, m, k).Some? && l in One(c, m, k).value;
      if l != m {
        assert Edge(c, bus, Secondary(c, m));
        VisitsReachable(c, Secondary(c, m), k - 1, l);
      }
    }
    if Scanned(c, l) && Reaches(c, bus, l.bus) {
      if l.bus == bus {
        assert l in ls && One(c, l, k).Some? && l in One(c, l, k).value;
      } else {
        var b :| Edge(c, bus, b) && Reaches(c, b, l.bus);
        var m :| m in ls && Bridge(c, m) && Secondary(c, m) == b;
        VisitsReachable(c, b, k - 1, l);
        assert One(c, m, k).Some? && l in One(c, m, k).value;
      }
    }
  }

  lemma {:induction false} OnBusMember(c: Config, bus: nat, l: Loc)
    ensures l in OnBus(c, bus) <==> l.bus == bus && Scanned(c, l)
  {
    OnDevicesMember(c, bus, DEVICES, l);
  }

  // ---- Where pci_init starts ---------------------------------------------------------

  /** The first function of device 0 on bus 0, from fn on, that is not there. */
  function FirstAbsent(c: Config, fn: nat): (r: nat)
    requires fn <= FUNCTIONS
    ensures fn <= r <= FUNCTIONS && (r < FUNCTIONS ==> !Present(c, Loc(0, 0, r)))
    ensures forall f :: fn <= f < r ==> Present(c, Loc(0, 0, f))
    decreases FUNCTIONS - fn
  {
    if fn == FUNCTIONS || !Present(c, Loc(0, 0, fn)) then fn else FirstAbsent(c, fn + 1)
  }

  /** The scan starts on the buses below this one. */
  function Roots(c: Config): nat { if Multi(c, 0, 0) then FirstAbsent(c, 0) else 1 }

  /** Bus 0 alone, unless the host bridge has several functions; then the bus of each function
      that is there with all before it. */
  lemma {:induction false} RootsExactly(c: Config, b: nat)
    ensures b < Roots(c) <==>
      if Multi(c, 0, 0) then b < 8 && forall f: nat :: f <= b ==> Present(c, Loc(0, 0, f)) else b == 0
  {
    hide Present, Multi;
  }

  ghost predicate FromRoots(c: Config, l: Loc, n: nat) {
    Scanned(c, l) && exists r: nat :: r < n && Reaches(c, r, l.bus)
  }

  lemma {:induction false} NextRoot(c: Config, found: seq<Loc>, n: nat)
    requires Visits(c, n, BUSES).Some?
    requires forall l :: l in found <==> FromRoots(c, l, n)
    ensures forall l :: l in found + Visits(c, n, BUSES).value <==> FromRoots(c, l, n + 1)
  {
    hide Visits, Reaches, Scanned;
    forall l ensures l in found + Visits(c, n, BUSES).value <==> FromRoots(c, l, n + 1) {
      VisitsReachable(c, n, BUSES, l);
      assert l in found <==> FromRoots(c, l, n);
    }
  }

  // ---- The scan ----------------------------------------------------------------------

  lemma {:induction false} AllConcat(c: Config, a: seq<Loc>, b: seq<Loc>, k: nat)
    requires k > 0 && All(c, a + b, k).Some?
    ensures All(c, a, k).Some? && All(c, b, k).Some?
    ensures All(c, a + b, k).value == All(c, a, k).value + All(c, b, k).value
    decreases |b|
  {
    hide One;
    if b == [] {
      assert a + b == a;
    } else {
      assert (a + b)[..|a + b| - 1] == a + b[..|b| - 1];
      AllConcat(c, a, b[..|b| - 1], k);
    }
  }

  lemma {:induction false} AllOfOne(c: Config, l: Loc, k: nat)
    requires k > 0
    ensures All(c, [l], k) == One(c, l, k)
  {
    var ls := [l];
    assert ls[..|ls| - 1] == [] && ls[|ls| - 1] == l;
    NoneVisited(c, k);
    if One(c, l, k).Some? {
      assert [] + One(c, l, k).value == One(c, l, k).value;
    }
  }

  /** The functions found so far, in the order of their log lines. */
  class Scan {
    const config: Config
    var visited: seq<Loc>

    constructor (config: Config)
      ensures this.config == config && visited == []
    {
      this.config, visited := config, [];
    }

    /** pci_scan_function. */
    method ScanFunction(bus: nat, dev: nat, fn: nat, ghost k: nat)
      requires k > 0 && One(config, Loc(bus, dev, fn), k).Some?
      modifies this
      ensures visited == old(visited) + One(config, Loc(bus, dev, fn), k).value
      decreases k, 0, 0
    {
      hide Visits;
      var l := Loc(bus, dev, fn);
      visited := visited + [l];
      if Bridge(config, l) {
        ScanBus(Secondary(config, l), k - 1);
      }
    }

    /** pci_scan_device. */
    method ScanDevice(bus: nat, dev: nat, ghost k: nat)
      requires k > 0 && All(config, OnDevice(config, bus, dev), k).Some?
      modifies this
      ensures visited == old(visited) + All(config, OnDevice(config, bus, dev), k).value
      decreases k, 1
    {
      hide One, All, Present, Multi;
      if !Present(config, Loc(bus, dev, 0)) {
        NoneVisited(config, k);
        return;
      }
      if Multi(config, bus, dev) {
        ScanFunctions(bus, dev, k);
      } else {
        AllOfOne(config, Loc(bus, dev, 0), k);
        ScanFunction(bus, dev, 0, k);
      }
    }

    /** The loop of pci_scan_device over a multi-function device. */
    method ScanFunctions(bus: nat, dev: nat, ghost k: nat)
      requires k > 0 && All(config, Functions(config, bus, dev, FUNCTIONS), k).Some?
      modifies this
      ensures visited == old(visited) + All(config, Functions(config, bus, dev, FUNCTIONS), k).value
      decreases k, 0, 1
    {
      hide One, All, Present;
      var fn := 0;
      NoneVisited(config, k);
      while fn < FUNCTIONS
        invariant fn <= FUNCTIONS && All(config, Functions(config, bus, dev, fn), k).Some?
        invariant visited == old(visited) + All(config, Functions(config, bus, dev, fn), k).value
      {
        FunctionsUpTo(config, bus, dev, fn + 1, FUNCTIONS, k);
        if Present(config, Loc(bus, dev, fn)) {
          AllConcat(config, Functions(config, bus, dev, fn), [Loc(bus, dev, fn)], k);
          AllOfOne(config, Loc(bus, dev, fn), k);
          ScanFunction(bus, dev, fn, k);
        } else {
          assert Functions(config, bus, dev, fn + 1) == Functions(config, bus, dev, fn);
        }
        fn := fn + 1;
      }
    }

    /** pci_scan_bus, of a bus from which the scan terminates. */
    method ScanBus(bus: nat, ghost k: nat)
      requires Visits(config, bus, k).Some?
      modifies this
      ensures visited == old(visited) + Visits(config, bus, k).value
      decreases k, 2
    {
      hide One, All, OnDevice;
      var dev := 0;
      NoneVisited(config, k);
      while dev < DEVICES
        invariant dev <= DEVICES && All(config, OnDevices(config, bus, dev), k).Some?
        invariant visited == old(visited) + All(config, OnDevices(config, bus, dev), k).value
      {
        DevicesUpTo(config, bus, dev + 1, DEVICES, k);
        AllConcat(config, OnDevices(config, bus, dev), OnDevice(config, bus, dev), k);
        ScanDevice(bus, dev, k);
        dev := dev + 1;
      }
    }

    /** pci_init: bus 0, or one bus for each function of a multi-function host bridge up to the
        first that is missing. What is found is what those buses reach. */
    method Init()
      requires visited == [] && forall r: nat :: r < Roots(config) ==> Terminates(config, r)
      modifies this
      ensures forall l :: l in visited <==> FromRoots(config, l, Roots(config))
    {
      hide Visits, Scanned, Reaches, Terminates, Present, Multi;
      if !Multi(config, 0, 0) {
        Root(0);
        return;
      }
      var fn := 0;
      while fn < FUNCTIONS
        invariant fn <= FirstAbsent(config, 0)
        invariant forall l :: l in visited <==> FromRoots(config, l, fn)
      {
        if !Present(config, Loc(0, 0, fn)) {
          break;
        }
        Root(fn);
        fn := fn + 1;
      }
    }

    /** One bus that pci_init starts from. */
    method Root(bus: nat)
      requires bus < BUSES && Terminates(config, bus)
      requires forall l :: l in visited <==> FromRoots(config, l, bus)
      modifies this
      ensures forall l :: l in visited <==> FromRoots(config, l, bus + 1)
    {
      hide Visits, Scanned, Reaches, FromRoots;
      TerminatesExactly(config, bus);
      NextRoot(config, visited, bus);
      ScanBus(bus, BUSES);
    }
  }

  lemma {:induction false} NoneVisited(c: Config, k: nat)
    requires k > 0
    ensures All(c, [], k) == Some([])
  {
  }

  lemma {:induction false} FunctionsUpTo(c: Config, bus: nat, dev: nat, n: nat, m: nat, k: nat)
    requires k > 0 && n <= m && All(c, Functions(c, bus, dev, m), k).Some?
    ensures All(c, Functions(c, bus, dev, n), k).Some?
    decreases m - n
  {
    hide All, Present;
    if n < m {
      AllConcat(c, Functions(c, bus, dev, m - 1),
                if Present(c, Loc(bus, dev, m - 1)) then [Loc(bus, dev, m - 1)] else [], k);
      FunctionsUpTo(c, bus, dev, n, m - 1, k);
    }
  }

  lemma {:induction false} DevicesUpTo(c: Config, bus: nat, n: nat, m: nat, k: nat)
    requires k > 0 && n <= m && All(c, OnDevices(c, bus, m), k).Some?
    ensures All(c, OnDevices(c, bus, n), k).Some?
    decreases m - n
  {
    hide All, OnDevice;
    if n < m {
      AllConcat(c, OnDevices(c, bus, m - 1), OnDevice(c, bus, m - 1), k);
      DevicesUpTo(c, bus, n, m - 1, k);
    }
  }
}
