/** Which nodes a source is routed to. The hashers are libraries: a node is any index the jump hash may return. */
module RoutingTables {
  import opened Envelopes
  import opened Divisibility

  datatype HostRange = HostRange(hostIndex: int, start: nat, end: nat)

  datatype RoutingTable = RoutingTable(addresses: map<string, nat>, replicationFactor: nat, table: seq<HostRange>)

  /** The index under which an address was last listed. */
  ghost predicate IsLastIndex(addrs: seq<string>, a: string, i: int) {
    0 <= i < |addrs| && addrs[i] == a && forall j :: i < j < |addrs| ==> addrs[j] != a
  }

  method NewRoutingTable(addrs: seq<string>, replicationFactor: nat) returns (r: Result<RoutingTable>)
    ensures r.Ok? <==> 1 <= replicationFactor <= |addrs|
    ensures r.Ok? ==> r.value.replicationFactor == replicationFactor && r.value.table == []
    ensures r.Ok? ==> r.value.addresses.Keys == set a | a in addrs
    ensures r.Ok? ==> forall a :: a in addrs ==> IsLastIndex(addrs, a, r.value.addresses[a])
  {
    if replicationFactor == 0 {
      return Err("replication factor must be greater than 0");
    }
    if replicationFactor > |addrs| {
      return Err("replication factor cannot exceed number of available hosts");
    }
    var addresses: map<string, nat> := map[];
    for i := 0 to |addrs|
      invariant addresses.Keys == set a | a in addrs[..i]
      invariant forall a :: a in addresses ==> IsLastIndex(addrs[..i], a, addresses[a])
    {
      addresses := addresses[addrs[i] := i];
    }
    assert addrs[..|addrs|] == addrs;
    r := Ok(RoutingTable(addresses, replicationFactor, []));
  }

  /** The nodes that replicate a source whose hash falls on `node`. */
  ghost function Replicas(node: nat, r: nat, n: nat): seq<int>
    requires n > 0
  {
    seq(r, i => (node + i * r) % n)
  }

  ghost function Overrides(table: seq<HostRange>, hash: nat): seq<int> {
    if table == [] then [] else
    var last := table[|table| - 1];
    Overrides(table[..|table| - 1], hash) + if last.start <= hash <= last.end then [last.hostIndex] else []
  }

  method Lookup(t: RoutingTable, hash: nat, node: nat) returns (result: seq<int>)
    requires |t.addresses| > 0
    ensures result == Replicas(node, t.replicationFactor, |t.addresses|) + Overrides(t.table, hash)
    ensures |result| >= t.replicationFactor
    ensures forall i :: 0 <= i < t.replicationFactor ==> result[i] == (node + i * t.replicationFactor) % |t.addresses|
    ensures forall x :: x in result[t.replicationFactor..] <==>
      exists j :: 0 <= j < |t.table| && t.table[j].hostIndex == x && t.table[j].start <= hash <= t.table[j].end
  {
    result := [];
    var r := t.replicationFactor;
    for n := 0 to r
      invariant result == Replicas(node, r, |t.addresses|)[..n]
    {
      result := result + [(node + n * r) % |t.addresses|];
    }
    ghost var replicas := result;
    for i := 0 to |t.table|
      invariant result == replicas + Overrides(t.table[..i], hash)
    {
      assert t.table[..i + 1][..i] == t.table[..i];
      var range := t.table[i];
      if hash >= range.start && hash <= range.end {
        result := result + [range.hostIndex];
      }
    }
    assert t.table[..|t.table|] == t.table;
    OverridesMember(t.table, hash);
  }

  /** Exactly the hosts of the ranges that contain the hash. */
  lemma {:induction false} OverridesMember(table: seq<HostRange>, hash: nat)
    ensures forall x :: x in Overrides(table, hash) <==>
      exists j :: 0 <= j < |table| && table[j].hostIndex == x && table[j].start <= hash <= table[j].end
  {
    if table != [] { OverridesMember(table[..|table| - 1], hash); }
  }

  ghost predicate Distinct(s: seq<int>) {
    forall i, j :: 0 <= i < j < |s| ==> s[i] != s[j]
  }

  /** Two replicas coincide exactly when `n` divides their distance times the factor. */
  lemma ReplicasCoincideIff(node: nat, r: nat, n: nat, i: nat, j: nat)
    requires n > 0 && i < r && j < r
    ensures Replicas(node, r, n)[i] == Replicas(node, r, n)[j] <==> Divides(n, (j - i) * r)
  {
    DistributeRight(j, i, r);
    SameRemainderIff(node + i * r, node + j * r, n);
  }

  /** If `n` divides `d * r` then it divides `d` times their greatest common divisor. */
  lemma DividesByGcd(n: nat, r: nat, d: int)
    requires n > 0 && r > 0 && Divides(n, d * r)
    ensures Divides(n, d * Gcd(r, n))
  {
    var x, y := Bezout(r, n);
    DividesMultiple(n, d);
    Combine(n, x, d * r, y, d * n);
    Regroup(x, d, r, y, n);
  }

  lemma Regroup(x: int, d: int, r: int, y: int, n: int)
    ensures x * (d * r) + y * (d * n) == d * (x * r + y * n)
  {
    Assoc(x, d, r);
    Commute(x, d);
    Assoc(d, x, r);
    Assoc(y, d, n);
    Commute(y, d);
    Assoc(d, y, n);
    DistributeLeft(d, x * r, y * n);
  }

  /** `n / gcd` is a distance at which replicas coincide. */
  lemma PeriodCoincides(n: nat, r: nat) returns (d: int)
    requires n > 0 && r > 0
    ensures d > 0 && d * Gcd(r, n) == n && Divides(n, d * r)
  {
    var g := Gcd(r, n);
    var x, y := Bezout(r, n);
    d := DividesElim(g, n);
    var k := DividesElim(g, r);
    if d <= 0 { MulMonotone(d, 0, g); }
    Assoc(d, k, g);
    Commute(d, k);
    Assoc(k, d, g);
    DividesIntro(n, d * r, k);
  }

  /**
   Every source gets as many replicas as the factor asks for, all of them existing nodes, and they are
   pairwise different exactly when the factor times its greatest common divisor with the number of
   nodes does not exceed that number.
   */
  lemma ReplicasDistinctIff(node: nat, r: nat, n: nat)
    requires n > 0 && r > 0
    ensures |Replicas(node, r, n)| == r && forall i :: 0 <= i < r ==> 0 <= Replicas(node, r, n)[i] < n
    ensures Distinct(Replicas(node, r, n)) <==> r * Gcd(r, n) <= n
  {
    var g := Gcd(r, n);
    var d := PeriodCoincides(n, r);
    var x, y := Bezout(r, n);
    if r * g > n {
      if r <= d { MulMonotone(r, d, g); }
      ReplicasCoincideIff(node, r, n, 0, d);
    } else {
      forall i, j | 0 <= i < j < r ensures Replicas(node, r, n)[i] != Replicas(node, r, n)[j] {
        ReplicasCoincideIff(node, r, n, i, j);
        if Divides(n, (j - i) * r) {
          DividesByGcd(n, r, j - i);
          MulStrict(0, j - i, g);
          PositiveMultiple(n, (j - i) * g);
          MulStrict(j - i, r, g);
        }
      }
    }
  }

  /** With replication factor one, as the cluster uses it, a source has exactly one owner. */
  lemma SingleOwner(node: nat, n: nat)
    requires node < n
    ensures Replicas(node, 1, n) == [node]
  {
    assert (node + 0) % n == node;
  }
}
