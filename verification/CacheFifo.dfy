/** Two fifo caches fed the same trace: for which sizes the smaller one is included in the larger one. */
module CacheFifo {
  import opened Prelude
  import opened CacheSpec
  import opened CacheRuns
  import opened CacheInclusion

  function OrderOver<K(==, !new), V>(keys: seq<K>, trace: seq<Access<K, V>>, policy: Policy, capacity: nat): seq<K>
    decreases |trace|
  {
    if trace == [] then keys
    else OrderOver(OrderAfter(keys, trace[0], policy, capacity), trace[1..], policy, capacity)
  }

  lemma {:induction false} ReplayOrder<K(!new), V>(cfg: Config<V>, s: State<K, V>, trace: seq<Access<K, V>>, now: real)
    requires Plain(cfg) && Idle(cfg, s)
    ensures Replay(cfg, s, trace, now).entries.keys == OrderOver(s.entries.keys, trace, cfg.policy, cfg.capacity)
    decreases |trace|
  {
    if trace != [] {
      ApplyOrder(cfg, s, trace[0], now);
      ReplayOrder(cfg, Apply(cfg, s, trace[0], now), trace[1..], now);
    }
  }

  lemma {:induction false} OrderOverSnoc<K(!new), V>(keys: seq<K>, trace: seq<Access<K, V>>, a: Access<K, V>,
                                                     policy: Policy, n: nat)
    ensures OrderOver(keys, trace + [a], policy, n) == OrderAfter(OrderOver(keys, trace, policy, n), a, policy, n)
    decreases |trace|
  {
    if trace == [] {
      assert trace + [a] == [a] && [a][1..] == [];
    } else {
      assert (trace + [a])[1..] == trace[1..] + [a];
      OrderOverSnoc(OrderAfter(keys, trace[0], policy, n), trace[1..], a, policy, n);
    }
  }

  // ---- sizes for which inclusion holds ----------------------------------------------------------

  lemma {:induction false} SubsequenceSame<T>(a: seq<T>, b: seq<T>)
    requires Subsequence(a, b) && |a| >= |b|
    ensures a == b
    decreases |b|
  {
    if a != [] {
      if a[0] == b[0] && Subsequence(a[1..], b[1..]) {
        SubsequenceSame(a[1..], b[1..]);
        assert a == [a[0]] + a[1..] && b == [b[0]] + b[1..];
      } else {
        SubsequenceElements(a, b[1..]);
      }
    }
  }

  lemma {:induction false} SubsequenceSelf<T>(a: seq<T>)
    ensures Subsequence(a, a)
  {
    if a != [] { SubsequenceSelf(a[1..]); }
  }

  lemma {:induction false} MemberIsSubsequence<T>(b: seq<T>, x: T)
    requires x in b
    ensures Subsequence([x], b)
  {
    if b[0] != x {
      assert b == [b[0]] + b[1..];
      MemberIsSubsequence(b[1..], x);
    } else {
      assert [x][1..] == [];
    }
  }

  lemma UseEndsWith<T(!new)>(b: seq<T>, k: T, n: nat)
    requires n > 0
    ensures |UseKey(b, k, n)| <= n && UseKey(b, k, n) != [] && Last(UseKey(b, k, n)) == k
  {
  }

  /** Equal sizes hold equal keys, and a cache of one key holds the key entered last, which the larger one has too. */
  lemma FifoKeepsIncluded<K(!new), V>(a: seq<K>, b: seq<K>, access: Access<K, V>, m: nat, n: nat)
    requires (m <= 1 <= n || m == n || m == 0) && Included(a, b, m, n) && Distinct(a) && Distinct(b)
    ensures Included(OrderAfter(a, access, Fifo, m), OrderAfter(b, access, Fifo, n), m, n)
  {
    if m == n {
      SubsequenceSame(a, b);
      SubsequenceSelf(OrderAfter(a, access, Fifo, m));
    } else if m == 1 {
      OneKeyKeepsIncluded(a, b, access, n);
    }
  }

  lemma OneKeyKeepsIncluded<K(!new), V>(a: seq<K>, b: seq<K>, access: Access<K, V>, n: nat)
    requires 1 < n && Included(a, b, 1, n) && Distinct(a) && Distinct(b)
    ensures Included(OrderAfter(a, access, Fifo, 1), OrderAfter(b, access, Fifo, n), 1, n)
  {
    var k := access.k;
    SubsequenceElements(a, b);
    UseEndsWith(b, k, n);
    UseEndsWith(a, k, 1);
    MemberIsSubsequence(UseKey(b, k, n), k);
    assert UseKey(a, k, 1) == [k];
    if access.Deleting? {
      SubsequenceMinus(a, b, {k});
      if k in a {
        MinusLength(a, {k});
        MinusLength(b, {k});
      } else {
        MinusNothing(a, {k});
      }
    } else if access.LoadingThrough? && k !in a && k in b {
      MemberIsSubsequence(b, k);
    }
  }

  lemma {:induction false} FifoStaysIncluded<K(!new), V>(small: Config<V>, large: Config<V>, s: State<K, V>,
                                                         l: State<K, V>,
                                                         trace: seq<Access<K, V>>, now: real)
    requires Plain(small) && Plain(large) && small.policy.Fifo? && large.policy.Fifo?
    requires small.capacity <= large.capacity
    requires small.capacity <= 1 || small.capacity == large.capacity
    requires Idle(small, s) && Idle(large, l)
    requires Included(s.entries.keys, l.entries.keys, small.capacity, large.capacity)
    ensures Included(Replay(small, s, trace, now).entries.keys, Replay(large, l, trace, now).entries.keys,
                     small.capacity, large.capacity)
    decreases |trace|
  {
    if trace != [] {
      ApplyOrder(small, s, trace[0], now);
      ApplyOrder(large, l, trace[0], now);
      FifoKeepsIncluded(s.entries.keys, l.entries.keys, trace[0], small.capacity, large.capacity);
      FifoStaysIncluded(small, large, Apply(small, s, trace[0], now), Apply(large, l, trace[0], now), trace[1..], now);
    }
  }

  // ---- sizes for which it fails --------------------------------------------------------------------

  function Loads<K, V>(ks: seq<K>, v: V): seq<Access<K, V>> {
    seq(|ks|, i requires 0 <= i < |ks| => LoadingThrough(ks[i], v))
  }

  lemma LoadsSnoc<K(!new), V>(keys: seq<K>, ks: seq<K>, k: K, v: V, n: nat)
    ensures OrderOver(keys, Loads(ks + [k], v), Fifo, n) ==
      var before := OrderOver(keys, Loads(ks, v), Fifo, n);
      if k in before then before else UseKey(before, k, n)
  {
    assert Loads(ks + [k], v) == Loads(ks, v) + [LoadingThrough(k, v)];
    OrderOverSnoc(keys, Loads(ks, v), LoadingThrough(k, v), Fifo, n);
  }

  /** Using a key that is not there appends it and drops the oldest of a full cache. */
  lemma UseNewKey<K(!new)>(keys: seq<K>, k: K, n: nat)
    requires k !in keys
    ensures UseKey(keys, k, n) == Youngest(keys + [k], n)
  {
    MinusNothing(keys, {k});
  }

  lemma YoungestOfMore<K(!new)>(rest: seq<K>, k: K, n: nat)
    requires Distinct(rest + [k])
    ensures k !in Youngest(rest, n) && UseKey(Youngest(rest, n), k, n) == Youngest(rest + [k], n)
  {
    var all := rest + [k];
    forall i | 0 <= i < |rest| ensures rest[i] != k { assert all[i] != all[|rest|]; }
    UseNewKey(Youngest(rest, n), k, n);
  }

  /** Loading distinct keys one after the other leaves the youngest. */
  lemma {:induction false} LoadsFill<K(!new), V>(ks: seq<K>, v: V, n: nat)
    requires Distinct(ks)
    ensures OrderOver([], Loads(ks, v), Fifo, n) == Youngest(ks, n)
    decreases |ks|
  {
    if ks != [] {
      var rest, k := Front(ks), Last(ks);
      assert ks == rest + [k];
      LoadsFill(rest, v, n);
      LoadsSnoc([], rest, k, v, n);
      YoungestOfMore(rest, k, n);
    }
  }

  /** k1 ... kn, k1, x: the load of k1 is a miss for the smaller cache, which makes k1 young there, and a hit for the
      larger one, which drops it next. */
  lemma FirstKeyComesBack<K(!new), V>(ks: seq<K>, v: V, m: nat, n: nat)
    requires 2 <= m < n && Distinct(ks) && |ks| == n + 1
    ensures var trace := Loads(ks[..n] + [ks[0]] + [ks[n]], v);
      ks[0] in OrderOver([], trace, Fifo, m) && ks[0] !in OrderOver([], trace, Fifo, n)
  {
    var first, k, x := ks[..n], ks[0], ks[n];
    LoadsFill(first, v, m);
    LoadsFill(first, v, n);
    LoadsSnoc([], first, k, v, m);
    LoadsSnoc([], first, k, v, n);
    LoadsSnoc([], first + [k], x, v, m);
    LoadsSnoc([], first + [k], x, v, n);
    SmallBringsBack(ks, m, n);
    LargeDrops(ks, n);
  }

  lemma SmallBringsBack<K(!new)>(ks: seq<K>, m: nat, n: nat)
    requires 2 <= m < n && Distinct(ks) && |ks| == n + 1
    ensures var young := Youngest(ks[..n], m);
      && ks[0] !in young && ks[n] !in UseKey(young, ks[0], m)
      && ks[0] in UseKey(UseKey(young, ks[0], m), ks[n], m)
  {
    var young, k, x := Youngest(ks[..n], m), ks[0], ks[n];
    assert young == ks[n - m..n];
    UseNewKey(young, k, m);
    var back := UseKey(young, k, m);
    assert back == ks[n - m + 1..n] + [k];
    UseNewKey(back, x, m);
    var last := UseKey(back, x, m);
    assert last == ks[n - m + 2..n] + [k, x];
    assert last[m - 2] == k;
  }

  lemma LargeDrops<K(!new)>(ks: seq<K>, n: nat)
    requires 2 < n && Distinct(ks) && |ks| == n + 1
    ensures var all := Youngest(ks[..n], n);
      ks[0] in all && ks[n] !in all && ks[0] !in UseKey(all, ks[n], n)
  {
    var all := Youngest(ks[..n], n);
    assert all == ks[..n] && all[0] == ks[0];
    UseNewKey(all, ks[n], n);
    assert UseKey(all, ks[n], n) == ks[1..n] + [ks[n]];
  }

  ghost predicate AlwaysIncluded<K(!new), V(!new)>(small: Config<V>, large: Config<V>, now: real)
    requires Plain(small) && Plain(large)
  {
    forall trace: seq<Access<K, V>> ::
      Included(Replay(small, Init(), trace, now).entries.keys, Replay(large, Init(), trace, now).entries.keys,
               small.capacity, large.capacity)
  }

  /** After every trace the smaller fifo cache is included in the larger one if and only if it holds at most one key
      or the two have the same size. `ks` and `v` only say that there are enough keys, and a value, to fill the
      caches with. */
  lemma FifoIncludedIff<K(!new), V(!new)>(small: Config<V>, large: Config<V>, ks: seq<K>, v: V, now: real)
    requires Plain(small) && Plain(large) && small.policy.Fifo? && large.policy.Fifo?
    requires small.capacity <= large.capacity
    requires Distinct(ks) && |ks| == large.capacity + 1
    ensures AlwaysIncluded<K, V>(small, large, now) <==> small.capacity <= 1 || small.capacity == large.capacity
  {
    var m, n := small.capacity, large.capacity;
    if m <= 1 || m == n {
      forall trace: seq<Access<K, V>>
        ensures Included(Replay(small, Init(), trace, now).entries.keys,
          Replay(large, Init(), trace, now).entries.keys, m, n)
      {
        FifoStaysIncluded(small, large, Init(), Init(), trace, now);
      }
    } else {
      var trace := Loads(ks[..n] + [ks[0]] + [ks[n]], v);
      FirstKeyComesBack(ks, v, m, n);
      ReplayOrder(small, Init(), trace, now);
      ReplayOrder(large, Init(), trace, now);
      var a, b := OrderOver([], trace, Fifo, m), OrderOver([], trace, Fifo, n);
      if Subsequence(a, b) { SubsequenceElements(a, b); }
    }
  }
}
