/**
  The search for a source port that leads to the driver's shard, the loop of
  `make_cluster_stream` in scylla-proxy/src/proxy.rs. Whether a bind succeeds is
  an oracle over the number of the attempt and the port.
 */
module PortSearch {
  import opened Arith
  import opened Wire
  import opened CqlTypes

  const PORTS: nat := 0x1_0000

  /** `u16::wrapping_add`. */
  function NextPort(port: u16, shards: u16): (next: u16) {
    if port + shards < PORTS then port + shards else port + shards - PORTS
  }

  /** The port of the `k`-th attempt, counting from zero. */
  function PortAt(port: u16, shards: u16, k: nat): (r: u16) {
    (port + k * shards) % PORTS
  }

  /** How often the first `k` steps went past the last port. */
  function Wraps(port: u16, shards: u16, k: nat): (w: nat) {
    (port + k * shards) / PORTS
  }

  /** The least number of copies of `a` whose sum is a multiple of `n`. */
  function Order(a: nat, n: nat): (r: nat)
    requires n > 0
  {
    n / Gcd(a, n)
  }

  /** How many ports the search visits before it is back at the first. */
  function Period(shards: u16): (n: nat) {
    Order(shards, PORTS)
  }

  // ----------------------------------------------------------- the period

  /** The multiples `k * a` that `n` divides are those where the order divides `k`. */
  lemma MultiplesOf(a: nat, n: nat, k: nat)
    requires n > 0
    ensures Order(a, n) > 0
    ensures (k * a) % n == 0 <==> k % Order(a, n) == 0
  {
    var g := Gcd(a, n);
    GcdDivides(a, n);
    DivMod(a, g);
    DivMod(n, g);
    QuotientPositive(n, g, n / g);
    var x, y := Bezout(a, n);
    CoprimeParts(a, n, g, x, y);
    MultiplesOfParts(a / g, n / g, g, k, x, y);
  }

  lemma QuotientPositive(n: int, g: int, q: int)
    requires n > 0 && g > 0 && n == q * g
    ensures q > 0
  {
    if q <= 0 {
      MulMonotone(q, 0, g);
    }
  }

  lemma MultiplesOfParts(b: nat, m: nat, g: nat, k: nat, x: int, y: int)
    requires m > 0 && g > 0 && b * x + m * y == 1
    ensures m * g > 0
    ensures (k * (b * g)) % (m * g) == 0 <==> k % m == 0
  {
    Reduced(b, m, k, x, y);
    Scaled(k * b, m, g);
    assert k * (b * g) == (k * b) * g;
  }

  /** Without the common divisor the combination is one. */
  lemma CoprimeParts(a: nat, n: nat, g: nat, x: int, y: int)
    requires g > 0 && a == (a / g) * g && n == (n / g) * g && a * x + n * y == g
    ensures (a / g) * x + (n / g) * y == 1
  {
    var b, m := a / g, n / g;
    assert (b * x + m * y) * g == (b * g) * x + (m * g) * y;
    assert (b * x + m * y) * g == 1 * g;
    Cancel(b * x + m * y, 1, g);
  }

  lemma Reduced(b: nat, m: nat, k: nat, x: int, y: int)
    requires m > 0 && b * x + m * y == 1
    ensures (k * b) % m == 0 <==> k % m == 0
  {
    if k % m == 0 {
      DivMod(k, m);
      assert k * b == ((k / m) * b) * m;
      MultipleMod((k / m) * b, m);
    }
    if (k * b) % m == 0 {
      var q := (k * b) / m;
      DivMod(k * b, m);
      Combine(b, m, k, x, y, q);
      MultipleMod(q * x + k * y, m);
    }
  }

  lemma Combine(b: int, m: int, k: int, x: int, y: int, q: int)
    requires b * x + m * y == 1 && k * b == q * m
    ensures k == (q * x + k * y) * m
  {
    assert k == k * (b * x + m * y);
    assert k * (b * x + m * y) == (k * b) * x + k * (m * y);
    assert (k * b) * x == (q * m) * x == (q * x) * m;
    assert k * (m * y) == (k * y) * m;
  }

  lemma Scaled(c: nat, m: nat, g: nat)
    requires m > 0 && g > 0
    ensures m * g > 0
    ensures (c * g) % (m * g) == 0 <==> c % m == 0
  {
    MulAtLeast(m, g);
    if c % m == 0 {
      DivMod(c, m);
      assert c * g == (c / m) * (m * g);
      MultipleMod(c / m, m * g);
    }
    if (c * g) % (m * g) == 0 {
      var q := (c * g) / (m * g);
      DivMod(c * g, m * g);
      assert c * g == (q * m) * g;
      Cancel(c, q * m, g);
      MultipleMod(q, m);
    }
  }

  /** The search is back at a port exactly after whole periods. */
  lemma ReturnsAfterPeriod(port: u16, shards: u16, i: nat, j: nat)
    requires i <= j
    ensures Period(shards) > 0
    ensures PortAt(port, shards, i) == PortAt(port, shards, j) <==> (j - i) % Period(shards) == 0
  {
    MultiplesOf(shards, PORTS, j - i);
    ModDifference(port + j * shards, port + i * shards, PORTS);
    MulSub(j, i, shards);
  }

  /** No port is tried twice within a period. */
  lemma DistinctPorts(port: u16, shards: u16, i: nat, j: nat)
    requires i < j < Period(shards)
    ensures PortAt(port, shards, i) != PortAt(port, shards, j)
  {
    ReturnsAfterPeriod(port, shards, i, j);
    DivModUnique(j - i, Period(shards), 0, j - i);
  }

  lemma PeriodEnds(k: nat, period: nat)
    requires 0 < k <= period && k % period == 0
    ensures k == period
  {
    DivMod(k, period);
    if k < period {
      DivModUnique(k, period, 0, k);
    }
  }

  lemma NextIsPortAt(port: u16, shards: u16, k: nat)
    ensures NextPort(PortAt(port, shards, k), shards) == PortAt(port, shards, k + 1)
  {
    var a := port + k * shards;
    DivMod(a, PORTS);
    assert (k + 1) * shards == k * shards + shards;
    var r := a % PORTS + shards;
    if r < PORTS {
      DivModUnique(a + shards, PORTS, a / PORTS, r);
    } else {
      DivModUnique(a + shards, PORTS, a / PORTS + 1, r - PORTS);
    }
  }

  // ----------------------------------------------------------- the search

  /**
    Binds to the first port of the driver's residue class that can be bound; the
    ports are tried once each and all of them before the search gives up.
   */
  method FindPort(driverPort: u16, shards: u16, binds: (nat, u16) -> bool)
    returns (r: Option<u16>, tried: seq<u16>)
    ensures 0 < |tried| <= Period(shards) && tried[0] == driverPort
    ensures forall k :: 0 <= k < |tried| ==> tried[k] == (driverPort + k * shards) % 65536
    ensures forall i, j :: 0 <= i < j < |tried| ==> tried[i] != tried[j]
    ensures forall k :: 0 <= k < |tried| - 1 ==> !binds(k, tried[k])
    ensures r == if binds(|tried| - 1, tried[|tried| - 1]) then Some(tried[|tried| - 1]) else None
    ensures r.None? ==> |tried| == Period(shards)
  {
    ReturnsAfterPeriod(driverPort, shards, 0, 0);
    var desired, attempt := driverPort, 0;
    tried := [driverPort];
    while !binds(attempt, desired)
      invariant attempt < Period(shards) && |tried| == attempt + 1
      invariant desired == PortAt(driverPort, shards, attempt)
      invariant forall k :: 0 <= k < |tried| ==> tried[k] == PortAt(driverPort, shards, k)
      invariant forall k :: 0 <= k < attempt ==> !binds(k, tried[k])
      decreases Period(shards) - attempt
    {
      var next := NextPort(desired, shards);
      NextIsPortAt(driverPort, shards, attempt);
      ReturnsAfterPeriod(driverPort, shards, 0, attempt + 1);
      if next == driverPort {
        PeriodEnds(attempt + 1, Period(shards));
        AllDistinct(driverPort, shards, tried);
        return None, tried;
      }
      DivModUnique(Period(shards), Period(shards), 1, 0);
      desired, attempt := next, attempt + 1;
      tried := tried + [next];
    }
    AllDistinct(driverPort, shards, tried);
    r := Some(desired);
  }

  lemma AllDistinct(port: u16, shards: u16, tried: seq<u16>)
    requires |tried| <= Period(shards)
    requires forall k :: 0 <= k < |tried| ==> tried[k] == PortAt(port, shards, k)
    ensures forall i, j :: 0 <= i < j < |tried| ==> tried[i] != tried[j]
  {
    forall i, j | 0 <= i < j < |tried|
      ensures tried[i] != tried[j]
    {
      DistinctPorts(port, shards, i, j);
    }
  }

  // ----------------------------------------------------------- the shard

  /** Each wraparound shifts the port by the number of ports. */
  lemma PortAfterWraps(port: u16, shards: u16, k: nat)
    requires shards > 0
    ensures PortAt(port, shards, k) % shards == (port - Wraps(port, shards, k) * PORTS) % shards
  {
    DivMod(port + k * shards, PORTS);
    ModShift(port - Wraps(port, shards, k) * PORTS, k, shards);
  }

  /** The shard is kept exactly when the order of the ports divides the wraparounds. */
  lemma ShardKeptExactlyWhen(port: u16, shards: u16, k: nat)
    requires shards > 0
    ensures Order(PORTS, shards) > 0
    ensures PortAt(port, shards, k) % shards == port % shards
            <==> Wraps(port, shards, k) % Order(PORTS, shards) == 0
  {
    var w := Wraps(port, shards, k);
    PortAfterWraps(port, shards, k);
    ModDifference(port, port - w * PORTS, shards);
    MultiplesOf(PORTS, shards, w);
  }

  /** So it is kept without a wraparound, and always if the shards divide the ports. */
  lemma ShardKept(port: u16, shards: u16, k: nat)
    requires shards > 0
    requires Wraps(port, shards, k) == 0 || PORTS % shards == 0
    ensures PortAt(port, shards, k) % shards == port % shards
  {
    PortAfterWraps(port, shards, k);
    if PORTS % shards == 0 {
      var w := Wraps(port, shards, k);
      DivMod(PORTS, shards);
      assert port - w * PORTS == port + (-w * (PORTS / shards)) * shards;
      ModShift(port, -w * (PORTS / shards), shards);
    }
  }

  /** Three shards do not divide the ports: one step from the last port changes the shard. */
  lemma ShardLost()
    ensures PortAt(65535, 3, 1) % 3 != 65535 % 3
  {
  }
}
