/** Forward cursor iteration with a stop flag, shared by the primary store
    (`ObjectStoreHelper.forEach`) and by secondary indexes
    (`IndexHelper.forEach`), and the collectors built on it: `map`,
    `filter`, `all`, and the parallel-array `IndexResult`.

    A cursor is the sequence of entries the engine will deliver, followed
    by either exhaustion or an error. The callback is a closure: it
    receives its own state and the current entry, and returns its new
    state, its return value and whether it set `stopper.stop`. */
module Cursor {
  import opened Results

  datatype End<+E> = Exhausted | Failed(error: E)

  /** The entries a cursor request delivers, in cursor order, and how the
      request ends if the iteration runs past the last of them. */
  datatype Cursor<+V, +E> = Cursor(entries: seq<V>, end: End<E>)

  /** What one callback invocation leaves behind. */
  datatype Reply<+S, +A> = Reply(state: S, ret: A, stop: bool)

  // ---------------------------------------------------------------------
  // Reference: the callback folded left over a prefix of the entries.

  /** The closure state after the callback has run on the first `n` entries. */
  function StateAfter<S, V, A>(entries: seq<V>, s0: S, cb: (S, V) -> Reply<S, A>, n: nat): S
    requires n <= |entries|
  {
    if n == 0 then s0 else cb(StateAfter(entries, s0, cb, n - 1), entries[n - 1]).state
  }

  /** The callback's reply on entry `i`, when every earlier entry was visited. */
  function ReplyAt<S, V, A>(entries: seq<V>, s0: S, cb: (S, V) -> Reply<S, A>, i: nat): Reply<S, A>
    requires i < |entries|
  {
    cb(StateAfter(entries, s0, cb, i), entries[i])
  }

  /** No callback on the first `n` entries sets the stop flag. */
  ghost predicate NoStopBefore<S, V, A>(entries: seq<V>, s0: S, cb: (S, V) -> Reply<S, A>, n: nat)
    requires n <= |entries|
  {
    forall i :: 0 <= i < n ==> !ReplyAt(entries, s0, cb, i).stop
  }

  /** The callback's return values on the first `n` entries. */
  function RetsBefore<S, V, A>(entries: seq<V>, s0: S, cb: (S, V) -> Reply<S, A>, n: nat): (rs: seq<A>)
    requires n <= |entries|
    ensures |rs| == n
  {
    seq(n, i requires 0 <= i < n => ReplyAt(entries, s0, cb, i).ret)
  }

  // ---------------------------------------------------------------------
  // The success-handler chain.

  /** How far an iteration got: entries visited, the return values, the
      closure's final state, and whether it ended by the stop flag. */
  datatype Walk<S, A> = Walk(visited: nat, rets: seq<A>, state: S, stopped: bool)

  /** The cursor's `onsuccess` chain: call the callback on the current
      entry, then resolve if it set the stop flag, otherwise continue. */
  function Iterate<S, V, A>(entries: seq<V>, s: S, cb: (S, V) -> Reply<S, A>): (w: Walk<S, A>)
    ensures w.visited <= |entries| && |w.rets| == w.visited
    ensures w.stopped ==> w.visited > 0
    ensures !w.stopped ==> w.visited == |entries|
    decreases |entries|
  {
    if |entries| == 0 then Walk(0, [], s, false)
    else
      var r := cb(s, entries[0]);
      if r.stop then Walk(1, [r.ret], r.state, true)
      else
        var w := Iterate(entries[1..], r.state, cb);
        Walk(w.visited + 1, [r.ret] + w.rets, w.state, w.stopped)
  }

  lemma {:induction false} StateAfterShift<S, V, A>(entries: seq<V>, s0: S, cb: (S, V) -> Reply<S, A>, n: nat)
    requires 0 < |entries| && n < |entries|
    ensures StateAfter(entries, s0, cb, n + 1) == StateAfter(entries[1..], cb(s0, entries[0]).state, cb, n)
  {
    if n > 0 {
      StateAfterShift(entries, s0, cb, n - 1);
      assert entries[n] == entries[1..][n - 1];
    }
  }

  /** The handler chain agrees with the left fold: it visits a prefix of
      the entries, every return value is the callback's reply in cursor
      order, nobody before the last visited entry asked to stop, and the
      chain stopped early exactly when the last visited entry asked to. */
  lemma {:induction false} IterateIsFold<S, V, A>(entries: seq<V>, s0: S, cb: (S, V) -> Reply<S, A>)
    ensures var w := Iterate(entries, s0, cb);
            && w.state == StateAfter(entries, s0, cb, w.visited)
            && w.rets == RetsBefore(entries, s0, cb, w.visited)
            && (forall i :: 0 <= i < w.visited - 1 ==> !ReplyAt(entries, s0, cb, i).stop)
            && (w.stopped <==> w.visited > 0 && ReplyAt(entries, s0, cb, w.visited - 1).stop)
    decreases |entries|
  {
    var w := Iterate(entries, s0, cb);
    if |entries| > 0 {
      var r := cb(s0, entries[0]);
      assert ReplyAt(entries, s0, cb, 0) == r;
      if !r.stop {
        var tail := entries[1..];
        var w' := Iterate(tail, r.state, cb);
        IterateIsFold(tail, r.state, cb);
        forall i | 0 <= i < w'.visited
          ensures ReplyAt(entries, s0, cb, i + 1) == ReplyAt(tail, r.state, cb, i)
        {
          StateAfterShift(entries, s0, cb, i);
          assert entries[i + 1] == tail[i];
        }
        StateAfterShift(entries, s0, cb, w'.visited);
        assert w.rets == RetsBefore(entries, s0, cb, w.visited) by {
          forall i | 0 <= i < w.visited ensures w.rets[i] == RetsBefore(entries, s0, cb, w.visited)[i] {
            if i > 0 {
              assert w.rets[i] == w'.rets[i - 1];
            }
          }
        }
        forall i | 0 <= i < w.visited - 1 ensures !ReplyAt(entries, s0, cb, i).stop {
          if i > 0 {
            assert ReplyAt(entries, s0, cb, i) == ReplyAt(tail, r.state, cb, i - 1);
          }
        }
      }
    }
  }

  /** If the callback first sets the stop flag on the k-th entry, exactly k
      entries are visited and the closure never sees the rest. */
  lemma StopOnKth<S, V, A>(entries: seq<V>, s0: S, cb: (S, V) -> Reply<S, A>, k: nat)
    requires 1 <= k <= |entries|
    requires NoStopBefore(entries, s0, cb, k - 1)
    requires ReplyAt(entries, s0, cb, k - 1).stop
    ensures Iterate(entries, s0, cb).visited == k
    ensures Iterate(entries, s0, cb).stopped
    ensures Iterate(entries, s0, cb).state == StateAfter(entries, s0, cb, k)
  {
    IterateIsFold(entries, s0, cb);
  }

  /** If the callback never sets the stop flag, every entry is visited. */
  lemma NeverStopVisitsAll<S, V, A>(entries: seq<V>, s0: S, cb: (S, V) -> Reply<S, A>)
    requires NoStopBefore(entries, s0, cb, |entries|)
    ensures Iterate(entries, s0, cb).visited == |entries|
    ensures !Iterate(entries, s0, cb).stopped
    ensures Iterate(entries, s0, cb).rets == RetsBefore(entries, s0, cb, |entries|)
  {
    IterateIsFold(entries, s0, cb);
  }

  // ---------------------------------------------------------------------
  // forEach

  /** The result of `forEach`: how many entries the callback saw, the
      closure's final state, and the promise. */
  datatype Iteration<S, E> = Iteration(visited: nat, state: S, promise: Promise<(), E>)

  /** `forEach`: resolves once the iteration stops, by the flag or by
      exhaustion; rejects when the cursor request fails before anything
      asked to stop. */
  function ForEach<S, V, A, E>(c: Cursor<V, E>, s0: S, cb: (S, V) -> Reply<S, A>): (r: Iteration<S, E>)
    ensures r.visited <= |c.entries|
    ensures !r.promise.Pending?
    ensures r.promise.Rejected? ==> c.end == Failed(r.promise.error) && r.visited == |c.entries|
  {
    var w := Iterate(c.entries, s0, cb);
    var p: Promise<(), E> :=
      if w.stopped then Fulfilled(())
      else match c.end
        case Exhausted => Fulfilled(())
        case Failed(e) => Rejected(e);
    Iteration(w.visited, w.state, p)
  }

  /** `forEach` rejects exactly when the cursor fails and no callback asked
      to stop; the closure's final state is the fold over the visited
      entries. */
  lemma ForEachSettles<S, V, A, E>(c: Cursor<V, E>, s0: S, cb: (S, V) -> Reply<S, A>)
    ensures ForEach(c, s0, cb).state == StateAfter(c.entries, s0, cb, ForEach(c, s0, cb).visited)
    ensures ForEach(c, s0, cb).promise.Rejected? <==> c.end.Failed? && NoStopBefore(c.entries, s0, cb, |c.entries|)
  {
    IterateIsFold(c.entries, s0, cb);
    var w := Iterate(c.entries, s0, cb);
    if w.stopped {
      assert !NoStopBefore(c.entries, s0, cb, |c.entries|) by {
        assert ReplyAt(c.entries, s0, cb, w.visited - 1).stop;
      }
    }
  }

  // ---------------------------------------------------------------------
  // Collectors built on forEach

  /** The collectors resolve their own promise from `forEach(...).then(...)`
      and never call their `reject`: when `forEach` rejects, they stay
      pending. */
  function AfterForEach<T, E>(p: Promise<(), E>, v: T): (r: Promise<T, E>)
    ensures r.Fulfilled? <==> p.Fulfilled?
    ensures r.Fulfilled? ==> r.value == v
    ensures !r.Rejected?
  {
    if p.Fulfilled? then Fulfilled(v) else Pending
  }

  /** The result of a collector: entries visited, closure state, promise. */
  datatype Collected<S, T, E> = Collected(visited: nat, state: S, promise: Promise<T, E>)

  /** `map`: one callback return value per visited entry, in visit order.
      For an index the entries are `IndexEntry` values. */
  function Map<S, V, A, E>(c: Cursor<V, E>, s0: S, cb: (S, V) -> Reply<S, A>): (r: Collected<S, seq<A>, E>)
    ensures r.promise.Fulfilled? ==> |r.promise.value| == r.visited <= |c.entries|
  {
    var w := Iterate(c.entries, s0, cb);
    Collected(w.visited, w.state, AfterForEach(ForEach(c, s0, cb).promise, w.rets))
  }

  /** `map` collects exactly the callback's replies on the visited prefix,
      in cursor order, and stays pending (never rejects) when the cursor
      fails before a stop. */
  lemma MapCollectsReplies<S, V, A, E>(c: Cursor<V, E>, s0: S, cb: (S, V) -> Reply<S, A>)
    ensures var r := Map(c, s0, cb);
            r.promise.Fulfilled? ==> r.promise.value == RetsBefore(c.entries, s0, cb, r.visited)
    ensures Map(c, s0, cb).promise.Pending? <==> c.end.Failed? && NoStopBefore(c.entries, s0, cb, |c.entries|)
    ensures !Map(c, s0, cb).promise.Rejected?
  {
    IterateIsFold(c.entries, s0, cb);
    ForEachSettles(c, s0, cb);
  }

  /** The finding behind `MapSettling`: on a cursor that fails at once,
      `forEach` rejects while `map` never settles. */
  lemma MapHangsOnCursorError<S, V, A, E>(e: E, s0: S, cb: (S, V) -> Reply<S, A>)
    ensures ForEach(Cursor([], Failed(e)), s0, cb).promise == Rejected(e)
    ensures Map(Cursor([], Failed(e)), s0, cb).promise == Pending
  {
  }

  /** Passes `forEach`'s rejection on, as the collectors' unused `reject`
      parameter suggests was intended. */
  function Chain<T, E>(p: Promise<(), E>, v: T): (r: Promise<T, E>)
    ensures p.Fulfilled? ==> r == Fulfilled(v)
    ensures p.Rejected? ==> r == Rejected(p.error)
    ensures p.Pending? ==> r.Pending?
  {
    match p
    case Fulfilled(_) => Fulfilled(v)
    case Rejected(e) => Rejected(e)
    case Pending => Pending
  }

  /** `map` with the cursor error passed on: it always settles, rejecting
      exactly when `forEach` does, with the same error, and otherwise
      fulfilling with what the as-written `map` collects. */
  function MapSettling<S, V, A, E>(c: Cursor<V, E>, s0: S, cb: (S, V) -> Reply<S, A>): (r: Collected<S, seq<A>, E>)
    ensures r.visited <= |c.entries|
    ensures !r.promise.Pending?
    ensures r.promise.Rejected? <==> c.end.Failed? && NoStopBefore(c.entries, s0, cb, |c.entries|)
    ensures r.promise.Rejected? ==> c.end == Failed(r.promise.error)
    ensures r.promise.Fulfilled? ==> r.promise == Map(c, s0, cb).promise
    ensures r.promise.Fulfilled? ==> r.promise.value == RetsBefore(c.entries, s0, cb, r.visited)
  {
    ForEachSettles(c, s0, cb);
    MapCollectsReplies(c, s0, cb);
    var w := Iterate(c.entries, s0, cb);
    Collected(w.visited, w.state, Chain(ForEach(c, s0, cb).promise, w.rets))
  }

  /** The entries whose mask bit is set, in order. */
  function Kept<V>(xs: seq<V>, mask: seq<bool>): (r: seq<V>)
    requires |xs| == |mask|
    ensures |r| <= |xs|
  {
    if |xs| == 0 then []
    else (if mask[0] then [xs[0]] else []) + Kept(xs[1..], mask[1..])
  }

  /** Selection preserves order: it distributes over concatenation. */
  lemma {:induction false} KeptConcat<V>(xs: seq<V>, ys: seq<V>, mx: seq<bool>, my: seq<bool>)
    requires |xs| == |mx| && |ys| == |my|
    ensures Kept(xs + ys, mx + my) == Kept(xs, mx) + Kept(ys, my)
  {
    if |xs| == 0 {
      assert xs + ys == ys && mx + my == my;
    } else {
      var xy, m := xs + ys, mx + my;
      assert xy[0] == xs[0] && m[0] == mx[0];
      assert xy[1..] == xs[1..] + ys;
      assert m[1..] == mx[1..] + my;
      var h := if mx[0] then [xs[0]] else [];
      assert Kept(xy, m) == h + Kept(xs[1..] + ys, mx[1..] + my);
      assert Kept(xs, mx) == h + Kept(xs[1..], mx[1..]);
      KeptConcat(xs[1..], ys, mx[1..], my);
    }
  }

  /** Every kept element is an element whose mask bit is set, and every
      such element is kept. */
  lemma {:induction false} KeptExactly<V>(xs: seq<V>, mask: seq<bool>)
    requires |xs| == |mask|
    ensures forall i :: 0 <= i < |Kept(xs, mask)| ==> exists j :: 0 <= j < |xs| && mask[j] && xs[j] == Kept(xs, mask)[i]
    ensures forall j :: 0 <= j < |xs| && mask[j] ==> xs[j] in Kept(xs, mask)
  {
    if |xs| > 0 {
      var t, m := xs[1..], mask[1..];
      KeptExactly(t, m);
      var h := if mask[0] then [xs[0]] else [];
      var k := Kept(xs, mask);
      assert k == h + Kept(t, m);
      forall i | 0 <= i < |k| ensures exists j :: 0 <= j < |xs| && mask[j] && xs[j] == k[i] {
        if i < |h| {
          assert mask[0] && xs[0] == k[i];
        } else {
          var j :| 0 <= j < |t| && m[j] && t[j] == Kept(t, m)[i - |h|];
          assert mask[j + 1] && xs[j + 1] == k[i];
        }
      }
      forall j | 0 <= j < |xs| && mask[j] ensures xs[j] in k {
        if j > 0 {
          assert m[j - 1] && t[j - 1] == xs[j];
        }
      }
    } else {
      assert Kept(xs, mask) == [];
    }
  }

  /** `filter` on the primary store: keeps the visited records on which the
      callback returned truthy, in cursor order. It settles once the walk
      stops or the cursor is exhausted, stays pending when the cursor fails
      before any stop, and never rejects. */
  function Filter<S, V, E>(c: Cursor<V, E>, s0: S, cb: (S, V) -> Reply<S, bool>): (r: Collected<S, seq<V>, E>)
    ensures r.visited <= |c.entries|
    ensures r.promise.Fulfilled? ==> r.promise.value == Kept(c.entries[..r.visited], RetsBefore(c.entries, s0, cb, r.visited))
    ensures r.promise.Pending? <==> c.end.Failed? && NoStopBefore(c.entries, s0, cb, |c.entries|)
    ensures !r.promise.Rejected?
  {
    var w := Iterate(c.entries, s0, cb);
    IterateIsFold(c.entries, s0, cb);
    ForEachSettles(c, s0, cb);
    Collected(w.visited, w.state, AfterForEach(ForEach(c, s0, cb).promise, Kept(c.entries[..w.visited], w.rets)))
  }

  /** Some entry among the first `n` equals `x` and the callback returned
      truthy on it. */
  ghost predicate Accepted<S, V, E>(c: Cursor<V, E>, s0: S, cb: (S, V) -> Reply<S, bool>, n: nat, x: V)
    requires n <= |c.entries|
  {
    exists j :: 0 <= j < n && ReplyAt(c.entries, s0, cb, j).ret && c.entries[j] == x
  }

  /** `filter` keeps a record exactly when it was visited and the callback
      returned truthy on it; a callback that accepts everything and never
      stops yields the whole store. */
  lemma FilterKeepsAccepted<S, V, E>(c: Cursor<V, E>, s0: S, cb: (S, V) -> Reply<S, bool>)
    requires Filter(c, s0, cb).promise.Fulfilled?
    ensures forall x :: x in Filter(c, s0, cb).promise.value <==> Accepted(c, s0, cb, Filter(c, s0, cb).visited, x)
  {
    var r := Filter(c, s0, cb);
    var xs := c.entries[..r.visited];
    var mask := RetsBefore(c.entries, s0, cb, r.visited);
    KeptExactly(xs, mask);
    assert r.promise.value == Kept(xs, mask);
    forall x | x in r.promise.value
      ensures Accepted(c, s0, cb, r.visited, x)
    {
      var i :| 0 <= i < |Kept(xs, mask)| && Kept(xs, mask)[i] == x;
      var j :| 0 <= j < |xs| && mask[j] && xs[j] == Kept(xs, mask)[i];
      assert ReplyAt(c.entries, s0, cb, j).ret && c.entries[j] == x;
    }
    forall x | Accepted(c, s0, cb, r.visited, x)
      ensures x in r.promise.value
    {
      var j :| 0 <= j < r.visited && ReplyAt(c.entries, s0, cb, j).ret && c.entries[j] == x;
      assert mask[j] && xs[j] == x;
    }
  }

  // ---------------------------------------------------------------------
  // all

  /** The callback `all` installs: append the value to the closure's
      collector, never stop. */
  function Collect<V>(acc: seq<V>, v: V): Reply<seq<V>, ()> {
    Reply(acc + [v], (), false)
  }

  lemma {:induction false} CollectFold<V>(entries: seq<V>, n: nat)
    requires n <= |entries|
    ensures StateAfter(entries, [], Collect, n) == entries[..n]
    ensures forall i :: 0 <= i < n ==> !ReplyAt(entries, [], Collect, i).stop
  {
    if n > 0 {
      CollectFold(entries, n - 1);
      assert entries[..n] == entries[..n - 1] + [entries[n - 1]];
    }
  }

  /** `all` on the primary store: `forEach` with a collecting closure. It
      yields every record in cursor order once the cursor is exhausted,
      and stays pending when the cursor fails. */
  function All<V, E>(c: Cursor<V, E>): (p: Promise<seq<V>, E>)
    ensures c.end.Exhausted? ==> p == Fulfilled(c.entries)
    ensures c.end.Failed? ==> p == Pending
  {
    CollectFold(c.entries, |c.entries|);
    NeverStopVisitsAll(c.entries, [], Collect);
    ForEachSettles(c, [], Collect);
    assert c.entries[..|c.entries|] == c.entries;
    var it := ForEach(c, [], Collect);
    AfterForEach(it.promise, it.state)
  }

  /** The identity callback for `map`. */
  function Identity<V>(u: (), v: V): Reply<(), V> {
    Reply(u, v, false)
  }

  /** `map` with the identity callback yields the same as `all`. */
  lemma MapIdentityIsAll<V, E>(c: Cursor<V, E>)
    ensures Map(c, (), Identity).promise == All(c)
  {
    assert NoStopBefore(c.entries, (), Identity, |c.entries|);
    NeverStopVisitsAll(c.entries, (), Identity);
    MapCollectsReplies(c, (), Identity);
    assert RetsBefore(c.entries, (), Identity, |c.entries|) == c.entries;
  }

  // ---------------------------------------------------------------------
  // Index traversal

  /** One step of an index key cursor: the index key (`cursor.key`) and the
      primary key of the record it points at. */
  datatype IndexEntry<+K, +P> = IndexEntry(key: K, primaryKey: P)

  /** `IndexResult`: primary keys and index keys as two parallel arrays. */
  datatype IndexResult<+K, +P> = IndexResult(primaryKeys: seq<P>, values: seq<K>)

  predicate Parallel<K, P>(r: IndexResult<K, P>) {
    |r.primaryKeys| == |r.values|
  }

  /** Splits index entries into the two parallel arrays. */
  function Unzip<K, P>(entries: seq<IndexEntry<K, P>>): (r: IndexResult<K, P>)
    ensures Parallel(r) && |r.values| == |entries|
    ensures forall i :: 0 <= i < |entries| ==> r.values[i] == entries[i].key && r.primaryKeys[i] == entries[i].primaryKey
  {
    IndexResult(seq(|entries|, i requires 0 <= i < |entries| => entries[i].primaryKey),
                seq(|entries|, i requires 0 <= i < |entries| => entries[i].key))
  }

  /** One call of `IndexResult.prototype.forEach`'s callback: the primary
      key and the value at the same position (`None` where `values` is
      shorter, JavaScript's `undefined`). */
  datatype Pair<+K, +P> = Pair(primaryKey: P, value: Option<K>)

  /** `IndexResult.prototype.forEach`: one call per primary key. */
  function Pairs<K, P>(r: IndexResult<K, P>): (ps: seq<Pair<K, P>>)
    ensures |ps| == |r.primaryKeys|
    ensures forall i :: 0 <= i < |ps| ==> ps[i].primaryKey == r.primaryKeys[i]
    ensures forall i :: 0 <= i < |ps| ==> (ps[i].value.Some? <==> i < |r.values|)
    ensures forall i :: 0 <= i < |ps| && i < |r.values| ==> ps[i].value == Some(r.values[i])
  {
    seq(|r.primaryKeys|, i requires 0 <= i < |r.primaryKeys| =>
      Pair(r.primaryKeys[i], if i < |r.values| then Some(r.values[i]) else None))
  }

  /** Round trip: walking an index result built from cursor entries hands
      back every entry, in order, with no missing value. */
  lemma PairsOfUnzip<K, P>(entries: seq<IndexEntry<K, P>>)
    ensures |Pairs(Unzip(entries))| == |entries|
    ensures forall i :: 0 <= i < |entries| ==>
              Pairs(Unzip(entries))[i] == Pair(entries[i].primaryKey, Some(entries[i].key))
  {
  }

  /** Pushing one more entry onto both collectors. */
  function Push<K, P>(acc: IndexResult<K, P>, e: IndexEntry<K, P>): IndexResult<K, P> {
    IndexResult(acc.primaryKeys + [e.primaryKey], acc.values + [e.key])
  }

  /** The callback index `all` installs: push to both collectors. */
  function CollectPair<K, P>(acc: IndexResult<K, P>, e: IndexEntry<K, P>): Reply<IndexResult<K, P>, ()> {
    Reply(Push(acc, e), (), false)
  }

  lemma {:induction false} CollectPairFold<K, P>(entries: seq<IndexEntry<K, P>>, n: nat)
    requires n <= |entries|
    ensures StateAfter(entries, IndexResult([], []), CollectPair, n) == Unzip(entries[..n])
    ensures forall i :: 0 <= i < n ==> !ReplyAt(entries, IndexResult([], []), CollectPair, i).stop
  {
    if n > 0 {
      CollectPairFold(entries, n - 1);
      UnzipSnoc(entries[..n - 1], entries[n - 1]);
      assert entries[..n] == entries[..n - 1] + [entries[n - 1]];
    }
  }

  /** `all` on an index. It pairs, position by position, every index key
      with the primary key of the same cursor entry, in index order, once
      the cursor is exhausted, and stays pending when the cursor fails. */
  function IndexAll<K, P, E>(c: Cursor<IndexEntry<K, P>, E>): (p: Promise<IndexResult<K, P>, E>)
    ensures c.end.Exhausted? ==> p == Fulfilled(Unzip(c.entries))
    ensures c.end.Failed? ==> p == Pending
  {
    CollectPairFold(c.entries, |c.entries|);
    NeverStopVisitsAll(c.entries, IndexResult([], []), CollectPair);
    ForEachSettles(c, IndexResult([], []), CollectPair);
    assert c.entries[..|c.entries|] == c.entries;
    var it := ForEach(c, IndexResult([], []), CollectPair);
    AfterForEach(it.promise, it.state)
  }

  lemma UnzipSnoc<K, P>(entries: seq<IndexEntry<K, P>>, e: IndexEntry<K, P>)
    ensures Unzip(entries + [e]) == Push(Unzip(entries), e)
  {
    var l, r := Unzip(entries + [e]), Push(Unzip(entries), e);
    assert l.primaryKeys == r.primaryKeys;
    assert l.values == r.values;
  }

  /** The callback index `filter` installs around the caller's: it runs the
      caller's callback on the entry and, when that answers truthy, pushes
      the primary key and the index key onto their collectors together. */
  function FilterPair<S, K, P>(cb: (S, IndexEntry<K, P>) -> Reply<S, bool>): ((S, IndexResult<K, P>), IndexEntry<K, P>) -> Reply<(S, IndexResult<K, P>), bool> {
    (st: (S, IndexResult<K, P>), e: IndexEntry<K, P>) =>
      var r := cb(st.0, e);
      Reply((r.state, if r.ret then Push(st.1, e) else st.1), r.ret, r.stop)
  }

  /** After `n` entries, the wrapped closure holds the caller's state and
      the two collectors of the accepted entries, and it stops exactly
      where the caller's callback stops. */
  lemma {:induction false} FilterPairFold<S, K, P>(entries: seq<IndexEntry<K, P>>, s0: S, cb: (S, IndexEntry<K, P>) -> Reply<S, bool>, n: nat)
    requires n <= |entries|
    ensures StateAfter(entries, (s0, IndexResult([], [])), FilterPair(cb), n)
            == (StateAfter(entries, s0, cb, n), Unzip(Kept(entries[..n], RetsBefore(entries, s0, cb, n))))
    ensures forall i :: 0 <= i < n ==>
              ReplyAt(entries, (s0, IndexResult([], [])), FilterPair(cb), i).stop == ReplyAt(entries, s0, cb, i).stop
  {
    if n > 0 {
      var t0: (S, IndexResult<K, P>) := (s0, IndexResult([], []));
      FilterPairFold(entries, s0, cb, n - 1);
      var e := entries[n - 1];
      var r := ReplyAt(entries, s0, cb, n - 1);
      var prev := entries[..n - 1];
      var mask := RetsBefore(entries, s0, cb, n - 1);
      assert ReplyAt(entries, t0, FilterPair(cb), n - 1).stop == r.stop;
      assert entries[..n] == prev + [e];
      assert RetsBefore(entries, s0, cb, n) == mask + [r.ret];
      KeptConcat(prev, [e], mask, [r.ret]);
      assert Kept([e], [r.ret]) == (if r.ret then [e] else []) + Kept([e][1..], [r.ret][1..]);
      var before := StateAfter(entries, t0, FilterPair(cb), n - 1);
      assert before == (StateAfter(entries, s0, cb, n - 1), Unzip(Kept(prev, mask)));
      assert StateAfter(entries, t0, FilterPair(cb), n) == FilterPair(cb)(before, e).state;
      if r.ret {
        UnzipSnoc(Kept(prev, mask), e);
        assert Kept(entries[..n], RetsBefore(entries, s0, cb, n)) == Kept(prev, mask) + [e];
      } else {
        assert Kept(entries[..n], RetsBefore(entries, s0, cb, n)) == Kept(prev, mask) + [];
        assert Kept(prev, mask) + [] == Kept(prev, mask);
      }
    }
  }

  /** Two callbacks that set the stop flag on the same entries walk the
      cursor equally far. */
  lemma SameStopsSameWalk<S1, S2, V, A1, A2>(entries: seq<V>, s1: S1, cb1: (S1, V) -> Reply<S1, A1>, s2: S2, cb2: (S2, V) -> Reply<S2, A2>)
    requires forall i :: 0 <= i < |entries| ==> ReplyAt(entries, s1, cb1, i).stop == ReplyAt(entries, s2, cb2, i).stop
    ensures Iterate(entries, s1, cb1).visited == Iterate(entries, s2, cb2).visited
    ensures Iterate(entries, s1, cb1).stopped == Iterate(entries, s2, cb2).stopped
  {
    IterateIsFold(entries, s1, cb1);
    IterateIsFold(entries, s2, cb2);
  }

  /** `filter` on an index: the caller's callback runs with the same stop
      flag as on the primary store, and each accepted entry goes to both
      collectors. The two collectors are the accepted entries split into
      parallel arrays, and the result settles exactly when `Filter` does. */
  function IndexFilter<S, K, P, E>(c: Cursor<IndexEntry<K, P>, E>, s0: S, cb: (S, IndexEntry<K, P>) -> Reply<S, bool>): (r: Collected<S, IndexResult<K, P>, E>)
    ensures r.visited == Filter(c, s0, cb).visited
    ensures r.state == Filter(c, s0, cb).state
    ensures r.promise.Fulfilled? <==> Filter(c, s0, cb).promise.Fulfilled?
    ensures r.promise.Fulfilled? ==> Parallel(r.promise.value)
    ensures r.promise.Fulfilled? ==> r.promise.value == Unzip(Filter(c, s0, cb).promise.value)
    ensures r.promise.Pending? <==> c.end.Failed? && NoStopBefore(c.entries, s0, cb, |c.entries|)
    ensures !r.promise.Rejected?
  {
    var t0: (S, IndexResult<K, P>) := (s0, IndexResult([], []));
    FilterPairFold(c.entries, s0, cb, |c.entries|);
    SameStopsSameWalk(c.entries, t0, FilterPair(cb), s0, cb);
    var w := Iterate(c.entries, t0, FilterPair(cb));
    IterateIsFold(c.entries, t0, FilterPair(cb));
    IterateIsFold(c.entries, s0, cb);
    FilterPairFold(c.entries, s0, cb, w.visited);
    var it := ForEach(c, t0, FilterPair(cb));
    Collected(it.visited, it.state.0, AfterForEach(it.promise, it.state.1))
  }

  /** Each position of an index `filter` result holds the index key and the
      primary key of one and the same visited entry the callback accepted. */
  lemma IndexFilterPairsEntries<S, K, P, E>(c: Cursor<IndexEntry<K, P>, E>, s0: S, cb: (S, IndexEntry<K, P>) -> Reply<S, bool>)
    requires IndexFilter(c, s0, cb).promise.Fulfilled?
    ensures var r := IndexFilter(c, s0, cb);
            forall i :: 0 <= i < |r.promise.value.values| ==>
              Accepted(c, s0, cb, r.visited, IndexEntry(r.promise.value.values[i], r.promise.value.primaryKeys[i]))
  {
    var r := IndexFilter(c, s0, cb);
    var f := Filter(c, s0, cb);
    var kept := f.promise.value;
    var v := r.promise.value;
    assert v == Unzip(kept);
    assert r.visited == f.visited;
    FilterKeepsAccepted(c, s0, cb);
    forall i | 0 <= i < |v.values|
      ensures Accepted(c, s0, cb, r.visited, IndexEntry(v.values[i], v.primaryKeys[i]))
    {
      assert kept[i] in kept;
      assert kept[i] == IndexEntry(v.values[i], v.primaryKeys[i]);
    }
  }
}
