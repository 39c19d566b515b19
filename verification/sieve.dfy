/** The daisy-chained prime sieve (doc/play/sieve.go), as a network of processes on unbuffered
    channels: every step is one rendezvous, and the steps may come in any order. */
module Sieve {
  import opened Wrappers

  /** A filter waits for a value, or holds one that it has let through and offers downstream. */
  datatype Filter = Filter(prime: nat, pending: Option<nat>)

  /** next is what the generator offers; filter c reads channel c and writes channel c + 1; main
      reads the last channel. primes is what main has received; sent holds, for each channel, the
      values that have passed on it. */
  datatype State = State(next: nat, filters: seq<Filter>, primes: seq<nat>, sent: seq<seq<nat>>)

  /** The test i%prime == 0 of a filter. */
  predicate Divides(d: nat, n: nat) { d > 0 && n % d == 0 }

  ghost predicate Init(s: State) {
    s == State(2, [], [], [[]])
  }

  /** What the writer of channel c offers. */
  function Offer(s: State, c: nat): Option<nat>
    requires c <= |s.filters|
  {
    if c == 0 then Some(s.next) else s.filters[c - 1].pending
  }

  /** The writer of channel c has got rid of its value v. */
  function Taken(s: State, c: nat, v: nat): (s': State)
    requires c <= |s.filters| && |s.sent| == |s.filters| + 1
    ensures |s'.filters| == |s.filters| && |s'.sent| == |s.sent|
  {
    var sent := s.sent[c := s.sent[c] + [v]];
    if c == 0 then s.(next := s.next + 1, sent := sent)
    else s.(filters := s.filters[c - 1 := s.filters[c - 1].(pending := None)], sent := sent)
  }

  /** Filter c receives v: it keeps it for sending, or drops it. */
  ghost predicate Pass(s: State, s': State, c: nat, v: nat)
    requires |s.sent| == |s.filters| + 1
  {
    c < |s.filters| && Offer(s, c) == Some(v) && s.filters[c].pending.None? && s.filters[c].prime > 0 &&
    var prime := s.filters[c].prime;
    var t := Taken(s, c, v);
    s' == t.(filters := t.filters[c := Filter(prime, if Divides(prime, v) then None else Some(v))])
  }

  /** Main receives v from the last channel, and starts a filter for it on a new channel. */
  ghost predicate Receive(s: State, s': State, stages: nat, v: nat)
    requires |s.sent| == |s.filters| + 1
  {
    |s.primes| < stages && Offer(s, |s.filters|) == Some(v) &&
    var t := Taken(s, |s.filters|, v);
    s' == State(t.next, t.filters + [Filter(v, None)], t.primes + [v], t.sent + [[]])
  }

  ghost predicate Next(s: State, s': State, stages: nat) {
    exists c: nat, v: nat :: Step(s, s', stages, c, v)
  }

  /** A rendezvous on channel c, passing v. */
  ghost predicate Step(s: State, s': State, stages: nat, c: nat, v: nat) {
    && |s.sent| == |s.filters| + 1
    && if c == |s.filters| then Receive(s, s', stages, v) else Pass(s, s', c, v)
  }

  ghost predicate Run(run: seq<State>, stages: nat) {
    |run| > 0 && Init(run[0]) && forall i :: 0 <= i < |run| - 1 ==> Next(run[i], run[i + 1], stages)
  }

  // ---- The invariant ----

  /** What a filter for prime lets through. */
  function Sift(prime: nat, vs: seq<nat>): seq<nat>
    requires prime > 0
  {
    if vs == [] then []
    else Sift(prime, vs[..|vs| - 1]) + if Divides(prime, vs[|vs| - 1]) then [] else [vs[|vs| - 1]]
  }

  function Held(p: Option<nat>): seq<nat> { if p.Some? then [p.value] else [] }

  /** 2, 3, ..., n - 1. */
  function Range(n: nat): seq<nat> { if n <= 2 then [] else Range(n - 1) + [n - 1] }

  /** Each channel has carried what its filter let through of the channel before it, except for the
      value still held; the first value on a channel went to main, and names the next filter. */
  ghost predicate Inv(s: State) {
    && |s.sent| == |s.filters| + 1 == |s.primes| + 1
    && s.next >= 2 && s.sent[0] == Range(s.next)
    && s.sent[|s.filters|] == []
    && forall c :: 0 <= c < |s.filters| ==> Link(s.filters[c], s.primes[c], s.sent[c], s.sent[c + 1])
  }

  ghost predicate Link(f: Filter, prime: nat, inflow: seq<nat>, outflow: seq<nat>) {
    && f.prime == prime >= 2 && inflow != [] && inflow[0] == prime
    && outflow + Held(f.pending) == Sift(prime, inflow)
  }

  lemma SiftNext(prime: nat, vs: seq<nat>, v: nat)
    requires prime > 0
    ensures Sift(prime, vs + [v]) == Sift(prime, vs) + if Divides(prime, v) then [] else [v]
  {
    assert (vs + [v])[..|vs|] == vs;
  }

  lemma {:induction false} SiftFrom(prime: nat, vs: seq<nat>)
    requires prime > 0
    ensures forall v :: v in Sift(prime, vs) <==> v in vs && !Divides(prime, v)
    ensures Sift(prime, vs) != [] ==>
      exists i :: 0 <= i < |vs| && vs[i] == Sift(prime, vs)[0] && Sift(prime, vs[..i]) == []
  {
    if vs != [] {
      var init, last := vs[..|vs| - 1], vs[|vs| - 1];
      SiftFrom(prime, init);
      assert vs == init + [last];
      if Sift(prime, init) != [] {
        var i :| 0 <= i < |init| && init[i] == Sift(prime, init)[0] && Sift(prime, init[..i]) == [];
        assert vs[..i] == init[..i];
      }
    }
  }

  lemma {:induction false} RangeIs(n: nat)
    ensures |Range(n)| == (if n <= 2 then 0 else n - 2) && forall i :: 0 <= i < |Range(n)| ==> Range(n)[i] == i + 2
  {
    if n > 2 { RangeIs(n - 1); }
  }

  /** The writer of channel c gets rid of its value: everything up to channel c stays linked. */
  lemma TakenKeeps(s: State, c: nat, v: nat)
    requires Inv(s) && c <= |s.filters| && Offer(s, c) == Some(v)
    ensures var t := Taken(s, c, v);
            && t.next >= 2 && t.sent[0] == Range(t.next) && t.primes == s.primes
            && (forall i :: 0 <= i < c ==> Link(t.filters[i], t.primes[i], t.sent[i], t.sent[i + 1]))
            && (forall i :: c <= i < |s.filters| ==> t.filters[i] == s.filters[i] && t.sent[i + 1] == s.sent[i + 1])
            && t.sent[c] == s.sent[c] + [v]
  {
  }

  lemma PassKeepsInv(s: State, s': State, c: nat, v: nat)
    requires Inv(s) && Pass(s, s', c, v)
    ensures Inv(s')
  {
    TakenKeeps(s, c, v);
    var prime := s.primes[c];
    assert Link(s.filters[c], prime, s.sent[c], s.sent[c + 1]);
    SiftNext(prime, s.sent[c], v);
    assert s.sent[c + 1] + [] == s.sent[c + 1];
    assert Link(s'.filters[c], prime, s'.sent[c], s'.sent[c + 1]);
  }

  /** The first value on the last channel is at least 2, since all values are. */
  lemma {:induction false} ValuesFromTwo(s: State, c: nat)
    requires Inv(s) && c <= |s.filters|
    ensures forall v :: v in s.sent[c] ==> v >= 2
    ensures Offer(s, c).Some? ==> Offer(s, c).value >= 2
  {
    if c == 0 {
      RangeIs(s.next);
    } else {
      ValuesFromTwo(s, c - 1);
      var f := s.filters[c - 1];
      assert Link(f, s.primes[c - 1], s.sent[c - 1], s.sent[c]);
      SiftFrom(f.prime, s.sent[c - 1]);
      assert forall v :: v in s.sent[c] || v in Held(f.pending) ==> v in s.sent[c] + Held(f.pending);
      assert f.pending.Some? ==> f.pending.value in Held(f.pending);
    }
  }

  lemma ReceiveKeepsInv(s: State, s': State, stages: nat, v: nat)
    requires Inv(s) && Receive(s, s', stages, v)
    ensures Inv(s')
  {
    var k := |s.filters|;
    TakenKeeps(s, k, v);
    ValuesFromTwo(s, k);
    SiftNext(v, [], v);
    assert s'.sent[k] == [v] && s'.sent[k + 1] == [] && Sift(v, []) == [];
    assert Link(s'.filters[k], v, s'.sent[k], s'.sent[k + 1]);
    forall i | 0 <= i < k ensures Link(s'.filters[i], s'.primes[i], s'.sent[i], s'.sent[i + 1]) {
      var t := Taken(s, k, v);
      assert Link(t.filters[i], t.primes[i], t.sent[i], t.sent[i + 1]);
    }
  }

  lemma {:induction false} InvAlways(run: seq<State>, stages: nat, i: nat)
    requires Run(run, stages) && i < |run|
    ensures Inv(run[i])
  {
    if i == 0 {
      assert Range(2) == [];
    } else {
      InvAlways(run, stages, i - 1);
      assert Next(run[i - 1], run[i - 1 + 1], stages);
      var c: nat, v: nat :| Step(run[i - 1], run[i], stages, c, v);
      if c < |run[i - 1].filters| { PassKeepsInv(run[i - 1], run[i], c, v); }
      else { ReceiveKeepsInv(run[i - 1], run[i], stages, v); }
    }
  }

  // ---- What the channels carry ----

  ghost predicate Survives(ps: seq<nat>, n: nat) {
    forall p :: p in ps ==> !Divides(p, n)
  }

  /** The integers from 2 below n that no number of ps divides, in order. */
  ghost function Survivors(ps: seq<nat>, n: nat): seq<nat> {
    if n <= 2 then [] else Survivors(ps, n - 1) + if Survives(ps, n - 1) then [n - 1] else []
  }

  lemma {:induction false} SiftSurvivors(ps: seq<nat>, p: nat, n: nat)
    requires p > 0
    ensures Sift(p, Survivors(ps, n)) == Survivors(ps + [p], n)
  {
    if n > 2 {
      SiftSurvivors(ps, p, n - 1);
      hide Survives, Divides, Sift;
      SurvivesMore(ps, p, n - 1);
      SiftNext(p, Survivors(ps, n - 1), n - 1);
      assert Survivors(ps, n - 1) + [] == Survivors(ps, n - 1);
    }
  }

  lemma SurvivesMore(ps: seq<nat>, p: nat, n: nat)
    requires p > 0
    ensures Survives(ps + [p], n) <==> Survives(ps, n) && !Divides(p, n)
  {
    hide Divides;
    assert forall q :: q in ps + [p] <==> q in ps || q == p;
  }

  lemma {:induction false} SiftPrefix(p: nat, a: seq<nat>, b: seq<nat>)
    requires p > 0 && a <= b
    ensures Sift(p, a) <= Sift(p, b)
  {
    if |a| < |b| {
      SiftPrefix(p, a, b[..|b| - 1]);
    } else {
      assert a == b;
    }
  }

  lemma {:induction false} SurvivorsOfNone(n: nat)
    ensures Survivors([], n) == Range(n)
  {
    if n > 2 { SurvivorsOfNone(n - 1); }
  }

  /** After c filters a channel carries, in order and without a gap, the integers from 2 that none of
      the first c primes divides. */
  lemma {:induction false} ChannelCarries(s: State, c: nat)
    requires Inv(s) && c <= |s.filters|
    ensures s.sent[c] <= Survivors(s.primes[..c], s.next)
  {
    if c == 0 {
      SurvivorsOfNone(s.next);
    } else {
      ChannelCarries(s, c - 1);
      var p := s.primes[c - 1];
      assert Link(s.filters[c - 1], p, s.sent[c - 1], s.sent[c - 1 + 1]);
      SiftPrefix(p, s.sent[c - 1], Survivors(s.primes[..c - 1], s.next));
      SiftSurvivors(s.primes[..c - 1], p, s.next);
      assert s.primes[..c] == s.primes[..c - 1] + [p];
    }
  }

  // ---- The values main receives ----

  ghost predicate IsPrime(n: nat) {
    n >= 2 && forall d :: 2 <= d < n ==> !Divides(d, n)
  }

  ghost function PrimesBelow(n: nat): nat {
    if n == 0 then 0 else PrimesBelow(n - 1) + if IsPrime(n - 1) then 1 else 0
  }

  /** n is the least integer from 2 that no number of ps divides. */
  ghost predicate LeastSurvivor(ps: seq<nat>, n: nat) {
    n >= 2 && Survives(ps, n) && forall d :: 2 <= d < n ==> !Survives(ps, d)
  }

  lemma {:induction false} FirstSurvivor(ps: seq<nat>, n: nat)
    ensures Survivors(ps, n) == [] <==> forall d :: 2 <= d < n ==> !Survives(ps, d)
    ensures Survivors(ps, n) != [] ==> LeastSurvivor(ps, Survivors(ps, n)[0])
  {
    if n > 2 { FirstSurvivor(ps, n - 1); }
  }

  lemma ReceivesLeast(s: State, k: nat)
    requires Inv(s) && k < |s.primes|
    ensures LeastSurvivor(s.primes[..k], s.primes[k])
  {
    ChannelCarries(s, k);
    FirstSurvivor(s.primes[..k], s.next);
    assert Link(s.filters[k], s.primes[k], s.sent[k], s.sent[k + 1]);
  }

  lemma DividesTransitive(a: nat, b: nat, c: nat)
    requires Divides(a, b) && Divides(b, c)
    ensures Divides(a, c)
  {
    var x, y := b / a, c / b;
    assert b == a * x && c == b * y;
    assert c == a * (x * y);
    MultipleIsDivisible(a, x * y);
  }

  lemma MultipleIsDivisible(a: nat, k: nat)
    requires a > 0
    ensures a * k % a == 0
  {
    var m := a * k;
    var q, r := m / a, m % a;
    assert m == q * a + r;
    assert (k - q) * a == r;
    NoSmallMultiple(k - q, a, r);
  }

  lemma NoSmallMultiple(x: int, a: nat, r: nat)
    requires x * a == r < a
    ensures r == 0
  {
    assert x >= 1 ==> (x - 1) * a >= 0;
  }

  /** The primes received, each the least survivor of those before it. */
  ghost predicate Chain(ps: seq<nat>) {
    forall k :: 0 <= k < |ps| ==> LeastSurvivor(ps[..k], ps[k])
  }

  /** Below a least survivor everything is divisible by an earlier number of the chain. */
  lemma DividedBefore(ps: seq<nat>, k: nat, d: nat) returns (j: nat)
    requires Chain(ps) && k < |ps| && 2 <= d < ps[k]
    ensures j < k && ps[j] >= 2 && Divides(ps[j], d)
  {
    assert !Survives(ps[..k], d);
    var p :| p in ps[..k] && Divides(p, d);
    j :| 0 <= j < k && ps[..k][j] == p;
    assert LeastSurvivor(ps[..j], ps[j]);
  }

  lemma ChainIsPrime(ps: seq<nat>, k: nat)
    requires Chain(ps) && k < |ps|
    ensures IsPrime(ps[k])
  {
    forall d | 2 <= d < ps[k] ensures !Divides(d, ps[k]) {
      var j := DividedBefore(ps, k, d);
      assert ps[j] in ps[..k];
      if Divides(d, ps[k]) { DividesTransitive(ps[j], d, ps[k]); }
    }
  }

  /** Between a number of the chain and the one before it there is no prime. */
  lemma ChainSkipsNoPrime(ps: seq<nat>, k: nat, q: nat)
    requires Chain(ps) && k < |ps| && q < ps[k] && (k > 0 ==> ps[k - 1] < q)
    ensures !IsPrime(q)
  {
    if q >= 2 {
      var j := DividedBefore(ps, k, q);
      ChainIncreases(ps, j, k - 1);
    }
  }

  lemma {:induction false} ChainIncreases(ps: seq<nat>, i: nat, j: nat)
    requires Chain(ps) && i <= j < |ps|
    ensures ps[i] <= ps[j] && (i < j ==> ps[i] < ps[j])
    decreases j
  {
    if i < j {
      ChainIncreases(ps, i, j - 1);
      var n := ps[j];
      assert ps[j - 1] in ps[..j] && Survives(ps[..j], n);
      assert forall p :: p in ps[..j - 1] ==> p in ps[..j];
      assert Survives(ps[..j - 1], n);
      assert LeastSurvivor(ps[..j - 1], ps[j - 1]) && LeastSurvivor(ps[..j], n);
      assert n % n == 0;
    }
  }

  lemma {:induction false} NoPrimesBetween(a: nat, b: nat)
    requires a <= b && forall q :: a <= q < b ==> !IsPrime(q)
    ensures PrimesBelow(b) == PrimesBelow(a)
    decreases b
  {
    if a < b { NoPrimesBetween(a, b - 1); }
  }

  lemma {:induction false} ChainCounts(ps: seq<nat>, k: nat)
    requires Chain(ps) && k < |ps|
    ensures IsPrime(ps[k]) && PrimesBelow(ps[k]) == k
  {
    ChainIsPrime(ps, k);
    var from := if k == 0 then 0 else ps[k - 1] + 1;
    if k > 0 {
      ChainCounts(ps, k - 1);
      ChainIncreases(ps, k - 1, k);
      assert PrimesBelow(from) == PrimesBelow(ps[k - 1]) + 1;
    }
    forall q | from <= q < ps[k] ensures !IsPrime(q) {
      ChainSkipsNoPrime(ps, k, q);
    }
    NoPrimesBetween(from, ps[k]);
  }

  /** In every run, for any number of stages, the value that main receives at k is the prime with
      exactly k primes below it. */
  lemma ReceivesPrimes(run: seq<State>, stages: nat, i: nat, k: nat)
    requires Run(run, stages) && i < |run| && k < |run[i].primes|
    ensures IsPrime(run[i].primes[k]) && PrimesBelow(run[i].primes[k]) == k
  {
    InvAlways(run, stages, i);
    forall c | 0 <= c < |run[i].primes| ensures LeastSurvivor(run[i].primes[..c], run[i].primes[c]) {
      ReceivesLeast(run[i], c);
    }
    ChainCounts(run[i].primes, k);
  }

  // ---- The network never blocks ----

  /** The nearest offer at or above channel c: every filter between waits, so it can be taken. */
  lemma {:induction false} Upstream(s: State, c: nat) returns (d: nat, v: nat)
    requires Inv(s) && c <= |s.filters|
    ensures d <= c && Offer(s, d) == Some(v) && forall i :: d <= i < c ==> s.filters[i].pending.None?
  {
    if c == 0 || s.filters[c - 1].pending.Some? {
      d := c;
      v := Offer(s, c).value;
    } else {
      d, v := Upstream(s, c - 1);
    }
  }

  lemma DoPass(s: State, c: nat, v: nat) returns (s': State)
    requires Inv(s) && c < |s.filters| && Offer(s, c) == Some(v) && s.filters[c].pending.None?
    ensures Pass(s, s', c, v)
  {
    assert Link(s.filters[c], s.primes[c], s.sent[c], s.sent[c + 1]);
    var t := Taken(s, c, v);
    var prime := s.filters[c].prime;
    s' := t.(filters := t.filters[c := Filter(prime, if Divides(prime, v) then None else Some(v))]);
  }

  lemma DoReceive(s: State, stages: nat, v: nat) returns (s': State)
    requires Inv(s) && |s.primes| < stages && Offer(s, |s.filters|) == Some(v)
    ensures Receive(s, s', stages, v)
  {
    var t := Taken(s, |s.filters|, v);
    s' := State(t.next, t.filters + [Filter(v, None)], t.primes + [v], t.sent + [[]]);
  }

  /** Until main has had enough, some rendezvous is possible in every state of every run. */
  lemma NeverBlocks(run: seq<State>, stages: nat, i: nat) returns (s': State)
    requires Run(run, stages) && i < |run| && |run[i].primes| < stages
    ensures Next(run[i], s', stages)
  {
    var s := run[i];
    InvAlways(run, stages, i);
    var k := |s.filters|;
    var d, v := Upstream(s, k);
    if d == k {
      s' := DoReceive(s, stages, v);
    } else {
      s' := DoPass(s, d, v);
    }
    assert Step(s, s', stages, d, v);
  }

  // ---- Main always gets its next prime ----

  function Product(ps: seq<nat>): nat {
    if ps == [] then 1 else Product(ps[..|ps| - 1]) * ps[|ps| - 1]
  }

  lemma {:induction false} DividesProduct(ps: seq<nat>, p: nat)
    requires p in ps && forall q :: q in ps ==> q > 0
    ensures Divides(p, Product(ps))
  {
    var init, last := ps[..|ps| - 1], ps[|ps| - 1];
    assert ps == init + [last] && last in ps && forall q :: q in init ==> q in ps;
    if p == last {
      MultipleIsDivisible(p, Product(init));
    } else {
      DividesProduct(init, p);
      var k := Product(init) / p;
      assert Product(init) == p * k;
      assert Product(ps) == p * (k * last) by { assert p * k * last == p * (k * last); }
      MultipleIsDivisible(p, k * last);
    }
  }

  lemma {:induction false} ProductPositive(ps: seq<nat>)
    requires forall q :: q in ps ==> q > 0
    ensures Product(ps) > 0
  {
    if ps != [] {
      var init, last := ps[..|ps| - 1], ps[|ps| - 1];
      assert ps == init + [last] && last in ps && forall q :: q in init ==> q in ps;
      ProductPositive(init);
      assert Product(init) * last > 0;
    }
  }

  /** As in Euclid's theorem, one more than a multiple of all the primes is divided by none of them. */
  lemma LargeSurvivor(ps: seq<nat>, n: nat) returns (q: nat)
    requires forall p :: p in ps ==> p >= 2
    ensures q >= n && Survives(ps, q)
  {
    ProductPositive(ps);
    var m := Product(ps);
    q := n * m + 1;
    assert n * m >= n;
    forall p | p in ps ensures !Divides(p, q) {
      DividesProduct(ps, p);
      var k := m / p;
      assert m == p * k;
      assert n * m == p * (n * k) by { assert n * (p * k) == p * (n * k); }
      OneMore(p, n * k);
    }
  }

  lemma OneMore(p: nat, k: nat)
    requires p >= 2
    ensures !Divides(p, p * k + 1)
  {
    if Divides(p, p * k + 1) {
      var j := (p * k + 1) / p;
      NoSmallMultiple(j - k, p, 1);
    }
  }

  /** With all filters waiting, whatever survives them has already come out. */
  lemma {:induction false} DrainedChannel(s: State, c: nat)
    requires Inv(s) && c <= |s.filters| && forall i :: 0 <= i < c ==> s.filters[i].pending.None?
    ensures s.sent[c] == Survivors(s.primes[..c], s.next)
  {
    if c == 0 {
      SurvivorsOfNone(s.next);
    } else {
      DrainedChannel(s, c - 1);
      var p := s.primes[c - 1];
      assert Link(s.filters[c - 1], p, s.sent[c - 1], s.sent[c - 1 + 1]);
      assert s.sent[c] + [] == s.sent[c];
      SiftSurvivors(s.primes[..c - 1], p, s.next);
      assert s.primes[..c] == s.primes[..c - 1] + [p];
    }
  }

  /** So before main has its next prime, the generator still has every survivor to send. */
  lemma NotYetSent(s: State, q: nat)
    requires Inv(s) && Survives(s.primes, q) && q >= 2
    requires forall i :: 0 <= i < |s.filters| ==> s.filters[i].pending.None?
    ensures s.next <= q
  {
    DrainedChannel(s, |s.filters|);
    assert s.primes[..|s.filters|] == s.primes;
    FirstSurvivor(s.primes, s.next);
  }

  /** How far the held values of filters c, c + 1, ... are from main. */
  function Distance(filters: seq<Filter>, c: nat): nat
    requires c <= |filters|
    decreases |filters| - c
  {
    if c == |filters| then 0
    else (if filters[c].pending.Some? then |filters| - c else 0) + Distance(filters, c + 1)
  }

  lemma {:induction false} DistanceUpdate(filters: seq<Filter>, c: nat, d: nat, f: Filter)
    requires c <= d < |filters|
    ensures var away := |filters| - d;
            Distance(filters[d := f], c) == Distance(filters, c)
            - (if filters[d].pending.Some? then away else 0) + (if f.pending.Some? then away else 0)
    decreases |filters| - c
  {
    if c < d {
      DistanceUpdate(filters, c + 1, d, f);
    } else {
      DistanceTail(filters, filters[d := f], c + 1);
    }
  }

  lemma {:induction false} DistanceTail(a: seq<Filter>, b: seq<Filter>, c: nat)
    requires |a| == |b| && c <= |a| && forall i :: c <= i < |a| ==> a[i] == b[i]
    ensures Distance(a, c) == Distance(b, c)
    decreases |a| - c
  {
    if c < |a| { DistanceTail(a, b, c + 1); }
  }

  /** What is left to do before q can have reached main. */
  function Ahead(s: State, q: nat): int {
    (q + 1 - s.next) * (|s.filters| + 1) + Distance(s.filters, 0)
  }

  lemma PassGetsAhead(s: State, s': State, c: nat, v: nat, q: nat)
    requires Inv(s) && Pass(s, s', c, v)
    ensures Ahead(s', q) < Ahead(s, q) && s'.primes == s.primes
    ensures s'.next == if c == 0 then s.next + 1 else s.next
  {
    var t := Taken(s, c, v);
    var n := |s.filters|;
    DistanceUpdate(t.filters, 0, c, s'.filters[c]);
    if c > 0 {
      DistanceUpdate(s.filters, 0, c - 1, t.filters[c - 1]);
      assert t.filters[c].pending.None?;
    } else {
      assert (q + 1 - s.next) * (n + 1) == (q + 1 - (s.next + 1)) * (n + 1) + (n + 1);
    }
  }

  lemma AheadIsNatural(s: State, q: nat)
    requires s.next <= q + 1
    ensures Ahead(s, q) >= 0
  {
    assert (q + 1 - s.next) * (|s.filters| + 1) >= 0;
  }

  /** Possible steps one after the other. */
  ghost predicate Steps(path: seq<State>, stages: nat) {
    path != [] && forall i :: 0 <= i < |path| - 1 ==> Next(path[i], path[i + 1], stages)
  }

  lemma StepsPrepend(s: State, rest: seq<State>, stages: nat)
    requires Steps(rest, stages) && Next(s, rest[0], stages)
    ensures Steps([s] + rest, stages) && rest != []
  {
    hide Next;
    var path := [s] + rest;
    forall i | 0 <= i < |path| - 1 ensures Next(path[i], path[i + 1], stages) {
      if i > 0 { assert Next(rest[i - 1], rest[i - 1 + 1], stages); }
    }
  }

  /** From s on, by rendezvous that are always possible, main comes to receive once more. */
  lemma {:induction false} Onward(s: State, stages: nat, q: nat) returns (path: seq<State>)
    requires Inv(s) && |s.primes| < stages && Survives(s.primes, q) && q >= 2 && s.next <= q + 1
    ensures Steps(path, stages) && path[0] == s && |path[|path| - 1].primes| == |s.primes| + 1
    decreases Ahead(s, q)
  {
    hide Pass, Receive, Link, Ahead, Survives, Range, Steps;
    var k := |s.filters|;
    var c, v := Upstream(s, k);
    AheadIsNatural(s, q);
    if c < k {
      var s' := DoPass(s, c, v);
      PassKeepsInv(s, s', c, v);
      PassGetsAhead(s, s', c, v, q);
      if c == 0 { NotYetSent(s, q); }
      assert Step(s, s', stages, c, v);
      var rest := Onward(s', stages, q);
      StepsPrepend(s, rest, stages);
      path := [s] + rest;
    } else {
      path := MainReceives(s, stages, v);
    }
  }

  lemma MainReceives(s: State, stages: nat, v: nat) returns (path: seq<State>)
    requires Inv(s) && |s.primes| < stages && Offer(s, |s.filters|) == Some(v)
    ensures Steps(path, stages) && path[0] == s && |path[|path| - 1].primes| == |s.primes| + 1
  {
    var s' := DoReceive(s, stages, v);
    assert Step(s, s', stages, |s.filters|, v);
    path := [s, s'];
  }

  /** Every run in which main still waits for a prime can be continued to where it has received it. */
  lemma MainGetsNext(run: seq<State>, stages: nat, i: nat) returns (longer: seq<State>)
    requires Run(run, stages) && i < |run| && |run[i].primes| < stages
    ensures Run(longer, stages) && run[..i + 1] <= longer
    ensures |longer[|longer| - 1].primes| == |run[i].primes| + 1
  {
    var s := run[i];
    InvAlways(run, stages, i);
    forall p | p in s.primes ensures p >= 2 {
      var c :| 0 <= c < |s.primes| && s.primes[c] == p;
      assert Link(s.filters[c], s.primes[c], s.sent[c], s.sent[c + 1]);
    }
    var q := LargeSurvivor(s.primes, s.next);
    var path := Onward(s, stages, q);
    assert Steps(path, stages);
    longer := run[..i] + path;
    assert run[..i + 1] == run[..i] + [s];
    forall j | 0 <= j < |longer| - 1 ensures Next(longer[j], longer[j + 1], stages) {
      if j < i {
        assert Next(run[j], run[j + 1], stages);
      } else {
        assert Next(path[j - i], path[j - i + 1], stages);
      }
    }
  }
}
