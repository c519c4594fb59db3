/**
 * What publishing does to the queues, given the matching bindings in the
 * order they are visited: for each binding the queue becomes an owner of
 * the message and an enqueue is attempted; a refused enqueue counts one
 * drop (one release) and leaves that queue as it was.
 */
module Publishing {
  import opened BrokerTypes
  import opened Messages
  import opened Queues
  import opened Exchanges

  type QueueRegistry = map<QueueName, QueueHandler>

  /** Every binding names a queue of the registry. */
  ghost predicate NamesRegistered(bs: seq<Binding>, queues: QueueRegistry)
  {
    forall b | b in bs :: b.queueName in queues
  }

  /** bs visits every binding of s exactly once. */
  ghost predicate Enumerates(bs: seq<Binding>, s: set<Binding>)
  {
    && |bs| == |s|
    && (forall b :: b in bs <==> b in s)
    && (forall i, j | 0 <= i < j < |bs| :: bs[i] != bs[j])
  }

  /**
   * Iterating over the set s: order holds the bindings visited so far,
   * each once, and pending the ones still to visit.
   */
  ghost predicate Visiting(order: seq<Binding>, pending: set<Binding>, s: set<Binding>)
  {
    && |order| + |pending| == |s|
    && (forall b :: b in s <==> b in pending || b in order)
    && (forall b | b in order :: b !in pending)
    && (forall i, j | 0 <= i < j < |order| :: order[i] != order[j])
  }

  lemma VisitNext(order: seq<Binding>, pending: set<Binding>, s: set<Binding>, b: Binding)
    requires Visiting(order, pending, s) && b in pending
    ensures Visiting(order + [b], pending - {b}, s)
  {
  }

  lemma VisitDone(order: seq<Binding>, s: set<Binding>, queues: QueueRegistry)
    requires Visiting(order, {}, s)
    requires forall b | b in s :: b.queueName in queues
    ensures Enumerates(order, s) && NamesRegistered(order, queues)
  {
  }

  datatype FanOutResult = FanOutResult(queues: QueueRegistry, owned: set<QueueName>, drops: nat)

  function FanOut(queues: QueueRegistry, bs: seq<Binding>, m: Message): (r: FanOutResult)
    requires NamesRegistered(bs, queues)
    ensures r.queues.Keys == queues.Keys
    ensures r.drops <= |bs|
    decreases |bs|
  {
    if bs == [] then FanOutResult(queues, {}, 0)
    else
      var prev := FanOut(queues, bs[..|bs| - 1], m);
      var b := bs[|bs| - 1];
      var e := Enqueue(prev.queues[b.queueName], m);
      FanOutResult(
        if e.accepted then prev.queues[b.queueName := e.queue] else prev.queues,
        prev.owned + {b.queueName},
        if e.accepted then prev.drops else prev.drops + 1)
  }

  /**
   * Publishing changes only the ready messages of the queues, and keeps
   * every bounded queue within its capacity.
   */
  lemma {:induction false} FanOutFrame(queues: QueueRegistry, bs: seq<Binding>, m: Message, n: QueueName)
    requires NamesRegistered(bs, queues) && n in queues
    ensures var q := FanOut(queues, bs, m).queues[n];
      && q == queues[n].(ready := q.ready)
      && (Bounded(queues[n]) ==> Bounded(q))
    decreases |bs|
  {
    if bs != [] {
      InitRegistered(queues, bs);
      FanOutFrame(queues, bs[..|bs| - 1], m, n);
    }
  }

  /** Every handler is registered under its own name and within its capacity. */
  ghost predicate RegistryBounded(queues: QueueRegistry)
  {
    forall n | n in queues :: queues[n].name == n && Bounded(queues[n])
  }

  /** What a whole fan-out over an enumerated set of bindings amounts to. */
  lemma FanOutSummary(queues: QueueRegistry, bs: seq<Binding>, s: set<Binding>, m: Message)
    requires Enumerates(bs, s) && NamesRegistered(bs, queues)
    ensures FanOut(queues, bs, m).owned == set b | b in s :: b.queueName
    ensures s == {} ==> FanOut(queues, bs, m) == FanOutResult(queues, {}, 0)
    ensures RegistryBounded(queues) ==> RegistryBounded(FanOut(queues, bs, m).queues)
  {
    FanOutOwned(queues, bs, m);
    assert (set b | b in bs :: b.queueName) == set b | b in s :: b.queueName;
    if s == {} {
      assert bs == [];
    }
    forall n | n in queues {
      FanOutFrame(queues, bs, m, n);
    }
  }

  /** Visiting one more binding: the step publishing takes for it. */
  lemma FanOutAppend(queues: QueueRegistry, bs: seq<Binding>, b: Binding, m: Message)
    requires NamesRegistered(bs, queues) && b.queueName in queues
    ensures NamesRegistered(bs + [b], queues)
    ensures var prev := FanOut(queues, bs, m);
      var e := Enqueue(prev.queues[b.queueName], m);
      FanOut(queues, bs + [b], m) == FanOutResult(
        if e.accepted then prev.queues[b.queueName := e.queue] else prev.queues,
        prev.owned + {b.queueName},
        if e.accepted then prev.drops else prev.drops + 1)
  {
  }

  /** Every visited binding's queue becomes an owner, whether or not its enqueue succeeded. */
  lemma {:induction false} FanOutOwned(queues: QueueRegistry, bs: seq<Binding>, m: Message)
    requires NamesRegistered(bs, queues)
    ensures FanOut(queues, bs, m).owned == set b | b in bs :: b.queueName
    decreases |bs|
  {
    if bs != [] {
      var init := bs[..|bs| - 1];
      InitRegistered(queues, bs);
      FanOutOwned(queues, init, m);
      assert bs == init + [bs[|bs| - 1]];
    }
  }

  /** Number of bindings in bs that name queue n. */
  function Count(bs: seq<Binding>, n: QueueName): (c: nat)
    ensures c <= |bs|
    decreases |bs|
  {
    if bs == [] then 0
    else Count(bs[..|bs| - 1], n) + (if bs[|bs| - 1].queueName == n then 1 else 0)
  }

  /** The bindings of s that name queue n. */
  function NamedIn(s: set<Binding>, n: QueueName): set<Binding>
  {
    set b | b in s && b.queueName == n
  }

  /**
   * However a set of bindings is enumerated, the number of visited
   * bindings naming a queue is the number of such bindings in the set, so
   * what each queue receives does not depend on the visiting order.
   */
  lemma {:induction false} CountEnumeration(bs: seq<Binding>, s: set<Binding>, n: QueueName)
    requires Enumerates(bs, s)
    ensures Count(bs, n) == |NamedIn(s, n)|
    decreases |bs|
  {
    if bs == [] {
      assert NamedIn(s, n) == {};
    } else {
      var init := bs[..|bs| - 1];
      var last := bs[|bs| - 1];
      assert forall b | b in init :: b in bs;
      assert last !in init by {
        forall i | 0 <= i < |init| ensures init[i] != last {
          assert bs[i] == init[i];
        }
      }
      assert forall b :: b in bs <==> b in init || b == last;
      assert Enumerates(init, s - {last});
      CountEnumeration(init, s - {last}, n);
      if last.queueName == n {
        assert NamedIn(s, n) == NamedIn(s - {last}, n) + {last};
      } else {
        assert NamedIn(s, n) == NamedIn(s - {last}, n);
      }
    }
  }

  /** k copies of m. */
  function Repeat(m: Message, k: nat): (s: seq<Message>)
    ensures |s| == k && forall i | 0 <= i < k :: s[i] == m
  {
    if k == 0 then [] else Repeat(m, k - 1) + [m]
  }

  function Min(a: nat, b: nat): nat
  {
    if a <= b then a else b
  }

  /**
   * Each queue receives one copy of the message per binding that names
   * it, until the queue is full; the rest of those bindings are dropped.
   */
  lemma {:induction false} FanOutOnQueue(queues: QueueRegistry, bs: seq<Binding>, m: Message, n: QueueName)
    requires NamesRegistered(bs, queues)
    requires n in queues && Bounded(queues[n])
    ensures FanOut(queues, bs, m).queues[n].ready
      == queues[n].ready + Repeat(m, Min(Count(bs, n), Free(queues[n])))
    decreases |bs|
  {
    var q0 := queues[n];
    if bs == [] {
      assert Repeat(m, 0) == [];
    } else {
      var init := bs[..|bs| - 1];
      InitRegistered(queues, bs);
      FanOutOnQueue(queues, init, m, n);
      FanOutFrame(queues, init, m, n);
      var before := FanOut(queues, init, m).queues[n];
      var k := Min(Count(init, n), Free(q0));
      assert Size(before) == Size(q0) + k;
      FanOutLast(queues, bs, m, n);
      if bs[|bs| - 1].queueName == n && Size(before) < before.capacity {
        assert Repeat(m, k + 1) == Repeat(m, k) + [m];
      }
    }
  }

  lemma InitRegistered(queues: QueueRegistry, bs: seq<Binding>)
    requires NamesRegistered(bs, queues) && bs != []
    ensures NamesRegistered(bs[..|bs| - 1], queues)
  {
  }

  /** The effect of the last binding on queue n. */
  lemma FanOutLast(queues: QueueRegistry, bs: seq<Binding>, m: Message, n: QueueName)
    requires NamesRegistered(bs, queues) && bs != [] && n in queues
    requires NamesRegistered(bs[..|bs| - 1], queues)
    ensures var before := FanOut(queues, bs[..|bs| - 1], m).queues[n];
      FanOut(queues, bs, m).queues[n]
        == if bs[|bs| - 1].queueName == n then Enqueue(before, m).queue else before
  {
  }

  /** A queue that no binding names is left exactly as it was. */
  lemma {:induction false} FanOutUntouched(queues: QueueRegistry, bs: seq<Binding>, m: Message, n: QueueName)
    requires NamesRegistered(bs, queues)
    requires n in queues && Bounded(queues[n])
    requires forall b | b in bs :: b.queueName != n
    ensures FanOut(queues, bs, m).queues[n] == queues[n]
  {
    CountAbsent(bs, n);
    FanOutOnQueue(queues, bs, m, n);
    FanOutFrame(queues, bs, m, n);
    assert Repeat(m, 0) == [];
  }

  lemma {:induction false} CountAbsent(bs: seq<Binding>, n: QueueName)
    requires forall b | b in bs :: b.queueName != n
    ensures Count(bs, n) == 0
    decreases |bs|
  {
    if bs != [] {
      var init := bs[..|bs| - 1];
      assert forall b | b in init :: b in bs;
      CountAbsent(init, n);
    }
  }

  /** Every named queue has room for all the bindings in bs that name it. */
  ghost predicate RoomForAll(queues: QueueRegistry, bs: seq<Binding>)
    requires NamesRegistered(bs, queues)
    requires forall n | n in queues :: Bounded(queues[n])
  {
    forall b | b in bs :: Count(bs, b.queueName) <= Free(queues[b.queueName])
  }

  /**
   * No copy is dropped exactly when every named queue has room for all
   * the bindings that name it.
   */
  lemma {:induction false} FanOutNoDrops(queues: QueueRegistry, bs: seq<Binding>, m: Message)
    requires NamesRegistered(bs, queues)
    requires forall n | n in queues :: Bounded(queues[n])
    ensures FanOut(queues, bs, m).drops == 0 <==> RoomForAll(queues, bs)
    decreases |bs|
  {
    if bs != [] {
      var init := bs[..|bs| - 1];
      var ln := bs[|bs| - 1].queueName;
      InitRegistered(queues, bs);
      FanOutNoDrops(queues, init, m);
      FanOutOnQueue(queues, init, m, ln);
      FanOutFrame(queues, init, m, ln);
      var before := FanOut(queues, init, m).queues[ln];
      assert Size(before) == Size(queues[ln]) + Min(Count(init, ln), Free(queues[ln]));
      assert FanOut(queues, bs, m).drops == 0 <==>
        FanOut(queues, init, m).drops == 0 && Count(bs, ln) <= Free(queues[ln]);
      RoomForAllStep(queues, bs);
    }
  }

  lemma RoomForAllStep(queues: QueueRegistry, bs: seq<Binding>)
    requires NamesRegistered(bs, queues) && bs != []
    requires NamesRegistered(bs[..|bs| - 1], queues)
    requires forall n | n in queues :: Bounded(queues[n])
    ensures var ln := bs[|bs| - 1].queueName;
      (RoomForAll(queues, bs) <==>
        RoomForAll(queues, bs[..|bs| - 1]) && Count(bs, ln) <= Free(queues[ln]))
  {
    var init := bs[..|bs| - 1];
    var ln := bs[|bs| - 1].queueName;
    assert forall x :: Count(bs, x) == Count(init, x) + (if ln == x then 1 else 0);
    assert forall b | b in bs :: b in init || b == bs[|bs| - 1];
    assert forall b | b in init :: b in bs;
  }

  /** Into queues that are all full, every copy is dropped. */
  lemma {:induction false} FanOutAllFull(queues: QueueRegistry, bs: seq<Binding>, m: Message)
    requires NamesRegistered(bs, queues)
    requires forall b | b in bs :: Size(queues[b.queueName]) >= queues[b.queueName].capacity
    ensures FanOut(queues, bs, m).drops == |bs|
    ensures FanOut(queues, bs, m).queues == queues
    decreases |bs|
  {
    if bs != [] {
      var init := bs[..|bs| - 1];
      assert forall b | b in init :: b in bs;
      FanOutAllFull(queues, init, m);
    }
  }

  /** The names in the sequence are pairwise different. */
  ghost predicate Distinct(names: seq<QueueName>)
  {
    forall i, j | 0 <= i < j < |names| :: names[i] != names[j]
  }

  /** Every name in the sequence is a registered queue within its capacity. */
  ghost predicate BoundedNames(queues: QueueRegistry, names: seq<QueueName>)
  {
    forall n | n in names :: n in queues && Bounded(queues[n])
  }

  /**
   * The copies queue n cannot take: the bindings of s naming it beyond its
   * free room. Together with the copies it takes they are all those bindings.
   */
  function Excess(queues: QueueRegistry, s: set<Binding>, n: QueueName): (k: nat)
    requires n in queues && Bounded(queues[n])
    ensures k + Min(|NamedIn(s, n)|, Free(queues[n])) == |NamedIn(s, n)|
    ensures k == 0 <==> |NamedIn(s, n)| <= Free(queues[n])
  {
    if |NamedIn(s, n)| > Free(queues[n]) then |NamedIn(s, n)| - Free(queues[n]) else 0
  }

  /** The excess summed over the queues in names. */
  function Overflow(queues: QueueRegistry, s: set<Binding>, names: seq<QueueName>): nat
    requires BoundedNames(queues, names)
    decreases |names|
  {
    if names == [] then 0
    else
      assert forall n | n in names[..|names| - 1] :: n in names;
      Overflow(queues, s, names[..|names| - 1]) + Excess(queues, s, names[|names| - 1])
  }

  lemma {:induction false} OverflowEmpty(queues: QueueRegistry, names: seq<QueueName>)
    requires BoundedNames(queues, names)
    ensures Overflow(queues, {}, names) == 0
    decreases |names|
  {
    if names != [] {
      var init := names[..|names| - 1];
      assert forall n | n in init :: n in names;
      OverflowEmpty(queues, init);
      assert NamedIn({}, names[|names| - 1]) == {};
    }
  }

  /**
   * One more binding raises the overflow by one exactly when its queue is
   * listed and has no room left for it.
   */
  lemma {:induction false} OverflowAdd(queues: QueueRegistry, s: set<Binding>, b: Binding, names: seq<QueueName>)
    requires BoundedNames(queues, names) && Distinct(names) && b !in s
    ensures Overflow(queues, s + {b}, names) == Overflow(queues, s, names) +
      (if b.queueName in names && |NamedIn(s, b.queueName)| >= Free(queues[b.queueName]) then 1 else 0)
    decreases |names|
  {
    if names != [] {
      var init := names[..|names| - 1];
      var x := names[|names| - 1];
      assert forall n | n in init :: n in names;
      assert forall n :: n in names <==> n in init || n == x;
      OverflowAdd(queues, s, b, init);
      if x == b.queueName {
        assert x !in init by {
          forall i | 0 <= i < |init| ensures init[i] != x {
            assert names[i] == init[i];
          }
        }
        assert NamedIn(s + {b}, x) == NamedIn(s, x) + {b};
      } else {
        assert NamedIn(s + {b}, x) == NamedIn(s, x);
      }
    }
  }

  /** Dropping the last binding of an enumeration enumerates the rest of the set. */
  lemma EnumerateInit(bs: seq<Binding>, s: set<Binding>)
    requires Enumerates(bs, s) && bs != []
    ensures bs[|bs| - 1] in s && bs[|bs| - 1] !in s - {bs[|bs| - 1]}
    ensures Enumerates(bs[..|bs| - 1], s - {bs[|bs| - 1]})
  {
    var init := bs[..|bs| - 1];
    var last := bs[|bs| - 1];
    assert forall b | b in init :: b in bs;
    assert last !in init by {
      forall i | 0 <= i < |init| ensures init[i] != last {
        assert bs[i] == init[i];
      }
    }
    assert forall b :: b in bs <==> b in init || b == last;
  }

  /**
   * The drops of a fan-out in closed form: over every queue named by the
   * bindings, the number of bindings naming it beyond its free room.
   */
  lemma {:induction false} FanOutDrops(queues: QueueRegistry, bs: seq<Binding>, s: set<Binding>,
                                       names: seq<QueueName>, m: Message)
    requires Enumerates(bs, s) && NamesRegistered(bs, queues)
    requires BoundedNames(queues, names) && Distinct(names)
    requires forall b | b in s :: b.queueName in names
    ensures FanOut(queues, bs, m).drops == Overflow(queues, s, names)
    decreases |bs|
  {
    if bs == [] {
      assert s == {};
      OverflowEmpty(queues, names);
    } else {
      var init := bs[..|bs| - 1];
      var last := bs[|bs| - 1];
      var ln := last.queueName;
      var rest := s - {last};
      EnumerateInit(bs, s);
      InitRegistered(queues, bs);
      FanOutDrops(queues, init, rest, names, m);
      FanOutOnQueue(queues, init, m, ln);
      FanOutFrame(queues, init, m, ln);
      var before := FanOut(queues, init, m).queues[ln];
      assert Size(before) == Size(queues[ln]) + Min(Count(init, ln), Free(queues[ln]));
      CountEnumeration(init, rest, ln);
      OverflowAdd(queues, rest, last, names);
      assert rest + {last} == s;
    }
  }

  /** A sequence listing every name of t once. */
  lemma {:induction false} ListNames(t: set<QueueName>) returns (names: seq<QueueName>)
    ensures Distinct(names) && forall n :: n in names <==> n in t
    decreases t
  {
    if t == {} {
      names := [];
    } else {
      var n :| n in t;
      var rest := ListNames(t - {n});
      names := rest + [n];
    }
  }

  /**
   * Publishing's outcome does not depend on the order in which the set of
   * matching bindings is visited: the queues, the owners and the drops
   * are the same for every enumeration.
   */
  lemma FanOutOrderIndependent(queues: QueueRegistry, bs1: seq<Binding>, bs2: seq<Binding>,
                               s: set<Binding>, m: Message)
    requires Enumerates(bs1, s) && Enumerates(bs2, s) && NamesRegistered(bs1, queues)
    requires forall n | n in queues :: Bounded(queues[n])
    ensures NamesRegistered(bs2, queues)
    ensures FanOut(queues, bs1, m) == FanOut(queues, bs2, m)
  {
    var r1 := FanOut(queues, bs1, m);
    var r2 := FanOut(queues, bs2, m);
    forall n | n in queues ensures r1.queues[n] == r2.queues[n] {
      FanOutOnQueue(queues, bs1, m, n);
      FanOutOnQueue(queues, bs2, m, n);
      FanOutFrame(queues, bs1, m, n);
      FanOutFrame(queues, bs2, m, n);
      CountEnumeration(bs1, s, n);
      CountEnumeration(bs2, s, n);
    }
    assert r1.queues == r2.queues;
    FanOutSummary(queues, bs1, s, m);
    FanOutSummary(queues, bs2, s, m);
    var names := ListNames(set b | b in s :: b.queueName);
    FanOutDrops(queues, bs1, s, names, m);
    FanOutDrops(queues, bs2, s, names, m);
  }
}
