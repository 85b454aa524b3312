/** The queue with many producers and one consumer (cryptoTools/Common/mpsc_queue.h), as a state machine.

    Every access to shared memory is a step of its own: a producer first exchanges the head and later links the node
    behind its predecessor; the consumer loads the link of the tail, then takes the value and moves the tail, then
    deletes the old node.  Steps of any number of producers and of the consumer interleave freely.  An address may be
    used again once its node has been deleted. */
module MpscQueue {
  import opened Prelude

  datatype Node<+T> = Node(data: Option<T>, next: Option<nat>)

  /** Where the consumer stands inside of `dequeue`. */
  datatype Consumer = Idle | Loaded(next: nat) | Stored(dead: nat)

  /** A producer between its two steps. */
  datatype Link = Link(prev: nat, node: nat)

  datatype State<T> = State(
    heap: map<nat, Node<T>>,       // the nodes that have not been deleted
    head: nat,
    tail: nat,
    pending: map<nat, Link>,       // the producers that have exchanged the head but not linked their node
    consumer: Consumer,
    entered: seq<T>,               // all values, in the order of the exchanges
    left: seq<T>,                  // all values handed out, in order
    fault: bool)                   // a deleted node has been read, written or deleted

  datatype Event<+T> = Exchange(producer: nat, value: T, node: nat) | LinkNode(producer: nat) | LoadNext | Take | Delete

  /** The state after the constructor, with its first node at any address. */
  function Start<T>(dummy: nat): State<T> {
    State(map[dummy := Node(None, None)], dummy, dummy, map[], Idle, [], [], false)
  }

  /** Which steps the code can take: each thread runs its own code in order, and `new` returns an unused address. */
  predicate Enabled<T>(s: State<T>, e: Event<T>) {
    match e
    case Exchange(p, v, node) => p !in s.pending && node !in s.heap
    case LinkNode(p) => p in s.pending
    case LoadNext => s.consumer.Idle?
    case Take => s.consumer.Loaded?
    case Delete => s.consumer.Stored?
  }

  function Step<T>(s: State<T>, e: Event<T>): State<T>
    requires Enabled(s, e)
  {
    match e
    case Exchange(p, v, node) =>
      s.(heap := s.heap[node := Node(Some(v), None)], head := node, pending := s.pending[p := Link(s.head, node)],
         entered := s.entered + [v])
    case LinkNode(p) =>
      var l := s.pending[p];
      if l.prev in s.heap then
        s.(heap := s.heap[l.prev := s.heap[l.prev].(next := Some(l.node))], pending := s.pending - {p})
      else s.(fault := true)
    case LoadNext =>
      if s.tail !in s.heap then s.(fault := true)
      else if s.heap[s.tail].next.None? then s
      else s.(consumer := Loaded(s.heap[s.tail].next.value))
    case Take =>
      var next := s.consumer.next;
      if next in s.heap && s.heap[next].data.Some? then
        s.(tail := next, left := s.left + [s.heap[next].data.value], consumer := Stored(s.tail))
      else s.(fault := true)
    case Delete =>
      if s.consumer.dead in s.heap then s.(heap := s.heap - {s.consumer.dead}, consumer := Idle)
      else s.(fault := true)
  }

  /** The state after an interleaving of steps, or None if the code cannot take them in this order. */
  function Run<T>(dummy: nat, events: seq<Event<T>>): Option<State<T>>
    decreases |events|
  {
    if events == [] then Some(Start(dummy))
    else
      var before, e := Run(dummy, events[..|events| - 1]), events[|events| - 1];
      if before.Some? && Enabled(before.value, e) then Some(Step(before.value, e)) else None
  }

  // ------------------------------------------------- what every step keeps

  /** The nodes from the tail to the head. */
  ghost predicate IsChain<T>(s: State<T>, chain: seq<nat>) {
    && chain != [] && chain[0] == s.tail && chain[|chain| - 1] == s.head
    && (forall i, j :: 0 <= i < j < |chain| ==> chain[i] != chain[j])
    && (forall i :: 0 <= i < |chain| ==> chain[i] in s.heap)
    && |chain| == 1 + |s.entered| - |s.left|
  }

  /** Node j of the chain is linked to the next one, or a producer is about to link it. */
  ghost predicate LinkOk<T>(s: State<T>, chain: seq<nat>, j: nat)
    requires j + 1 < |chain|
  {
    && chain[j] in s.heap
    && (s.heap[chain[j]].next == Some(chain[j + 1])
        || (s.heap[chain[j]].next == None && Awaited(s, chain[j], chain[j + 1])))
  }

  ghost predicate Waits<T>(
      s: State<T>, p: nat, prev: nat, node: nat) { p in s.pending && s.pending[p] == Link(prev, node) }

  ghost predicate Awaited<T>(s: State<T>, prev: nat, node: nat) { exists p :: Waits(s, p, prev, node) }

  /** A waiting producer stands between two neighbours in the chain that are not linked. */
  ghost predicate PendingOk<T>(s: State<T>, chain: seq<nat>, p: nat)
    requires p in s.pending
  {
    exists j {:trigger Between(s, chain, p, j)} :: 0 <= j < |chain| - 1 && Between(s, chain, p, j)
  }

  ghost predicate Between<T>(s: State<T>, chain: seq<nat>, p: nat, j: nat)
    requires p in s.pending && j + 1 < |chain|
  {
    s.pending[p] == Link(chain[j], chain[j + 1]) && chain[j] in s.heap && s.heap[chain[j]].next == None
  }

  ghost predicate DataOk<T>(s: State<T>, chain: seq<nat>, j: nat)
    requires 0 < j < |chain| && |chain| == 1 + |s.entered| - |s.left|
  {
    chain[j] in s.heap && s.heap[chain[j]].data == Some(s.entered[|s.left| + j - 1])
  }

  ghost predicate Inv<T>(s: State<T>, chain: seq<nat>) {
    && !s.fault && s.left <= s.entered && IsChain(s, chain)
    && (forall j {:trigger LinkOk(s, chain, j)} :: 0 <= j < |chain| - 1 ==> LinkOk(s, chain, j))
    && (forall j {:trigger DataOk(s, chain, j)} :: 0 < j < |chain| ==> DataOk(s, chain, j))
    && s.heap[s.head].next == None
    && (forall p {:trigger PendingOk(s, chain, p)} :: p in s.pending ==> PendingOk(s, chain, p))
    && (forall p, q :: p in s.pending && q in s.pending && p != q ==> s.pending[p].prev != s.pending[q].prev)
    && ConsumerOk(s, chain)
  }

  ghost predicate ConsumerOk<T>(s: State<T>, chain: seq<nat>)
    requires chain != []
  {
    match s.consumer
    case Idle => forall a :: a in s.heap ==> a in chain
    case Loaded(next) =>
      && (forall a :: a in s.heap ==> a in chain)
      && |chain| > 1 && next == chain[1] && chain[0] in s.heap && s.heap[chain[0]].next == Some(next)
    case Stored(dead) => dead in s.heap && dead !in chain && forall a :: a in s.heap ==> a in chain || a == dead
  }

  lemma {:induction false} StartInv<T>(dummy: nat)
    ensures Inv(Start<T>(dummy), [dummy])
  {
  }

  lemma {:induction false} ExchangeLinks<T>(s: State<T>, chain: seq<nat>, p: nat, v: T, node: nat)
    requires Inv(s, chain) && Enabled(s, Exchange(p, v, node))
    ensures var t := Step(s, Exchange(p, v, node)); forall j :: 0 <= j < |chain| ==> LinkOk(t, chain + [node], j)
  {
    var t, chain' := Step(s, Exchange(p, v, node)), chain + [node];
    forall j | 0 <= j < |chain| ensures LinkOk(t, chain', j) {
      if j < |chain| - 1 {
        assert LinkOk(s, chain, j);
        if s.heap[chain[j]].next == None {
          var q :| Waits(s, q, chain[j], chain[j + 1]);
          assert Waits(t, q, chain'[j], chain'[j + 1]);
        }
      } else {
        assert Waits(t, p, chain'[j], chain'[j + 1]);
      }
    }
  }

  lemma {:induction false} ExchangePending<T>(s: State<T>, chain: seq<nat>, p: nat, v: T, node: nat)
    requires Inv(s, chain) && Enabled(s, Exchange(p, v, node))
    ensures var t := Step(s, Exchange(p, v, node)); forall q :: q in t.pending ==> PendingOk(t, chain + [node], q)
    ensures forall q :: q in s.pending ==> s.pending[q].prev != s.head
  {
    var t, chain' := Step(s, Exchange(p, v, node)), chain + [node];
    forall q | q in t.pending ensures PendingOk(t, chain', q) {
      if q == p {
        assert Between(t, chain', p, |chain| - 1);
      } else {
        assert PendingOk(s, chain, q);
        var j :| 0 <= j < |chain| - 1 && Between(s, chain, q, j);
        assert Between(t, chain', q, j);
      }
    }
    forall q | q in s.pending ensures s.pending[q].prev != s.head {
      assert PendingOk(s, chain, q);
    }
  }

  lemma {:induction false} ExchangeInv<T>(s: State<T>, chain: seq<nat>, p: nat, v: T, node: nat)
    requires Inv(s, chain) && Enabled(s, Exchange(p, v, node))
    ensures Inv(Step(s, Exchange(p, v, node)), chain + [node])
  {
    var t, chain' := Step(s, Exchange(p, v, node)), chain + [node];
    ExchangeLinks(s, chain, p, v, node);
    ExchangePending(s, chain, p, v, node);
    forall j | 0 < j < |chain'| ensures DataOk(t, chain', j) {
      if j < |chain| { assert DataOk(s, chain, j); }
    }
  }

  lemma {:induction false} LinkInv<T>(s: State<T>, chain: seq<nat>, p: nat)
    requires Inv(s, chain) && Enabled(s, LinkNode(p))
    ensures Inv(Step(s, LinkNode(p)), chain)
  {
    assert PendingOk(s, chain, p);
    var i :| 0 <= i < |chain| - 1 && Between(s, chain, p, i);
    var t := Step(s, LinkNode(p));
    forall j | 0 <= j < |chain| - 1 ensures LinkOk(t, chain, j) {
      assert LinkOk(s, chain, j);
      if j != i && s.heap[chain[j]].next == None {
        var q :| Waits(s, q, chain[j], chain[j + 1]);
        assert Waits(t, q, chain[j], chain[j + 1]);
      }
    }
    forall j | 0 < j < |chain| ensures DataOk(t, chain, j) {
      assert DataOk(s, chain, j);
    }
    forall q | q in t.pending ensures PendingOk(t, chain, q) {
      assert PendingOk(s, chain, q);
      var j :| 0 <= j < |chain| - 1 && Between(s, chain, q, j);
      assert chain[j] != chain[i];
      assert Between(t, chain, q, j);
    }
  }

  lemma {:induction false} TakeInv<T>(s: State<T>, chain: seq<nat>)
    requires Inv(s, chain) && Enabled(s, Take)
    ensures |chain| > 1 && Inv(Step(s, Take), chain[1..])
  {
    assert DataOk(s, chain, 1);
    var t, chain' := Step(s, Take), chain[1..];
    forall j | 0 <= j < |chain'| - 1 ensures LinkOk(t, chain', j) {
      assert LinkOk(s, chain, j + 1);
      if s.heap[chain[j + 1]].next == None {
        var q :| Waits(s, q, chain[j + 1], chain[j + 2]);
        assert Waits(t, q, chain'[j], chain'[j + 1]);
      }
    }
    forall j | 0 < j < |chain'| ensures DataOk(t, chain', j) {
      assert DataOk(s, chain, j + 1);
    }
    forall q | q in t.pending ensures PendingOk(t, chain', q) {
      assert PendingOk(s, chain, q);
      var j :| 0 <= j < |chain| - 1 && Between(s, chain, q, j);
      assert j > 0;
      assert Between(t, chain', q, j - 1);
    }
  }

  lemma {:induction false} DeleteInv<T>(s: State<T>, chain: seq<nat>)
    requires Inv(s, chain) && Enabled(s, Delete)
    ensures Inv(Step(s, Delete), chain)
  {
    var t := Step(s, Delete);
    forall j | 0 <= j < |chain| - 1 ensures LinkOk(t, chain, j) {
      assert LinkOk(s, chain, j);
      if s.heap[chain[j]].next == None {
        var q :| Waits(s, q, chain[j], chain[j + 1]);
        assert Waits(t, q, chain[j], chain[j + 1]);
      }
    }
    forall j | 0 < j < |chain| ensures DataOk(t, chain, j) {
      assert DataOk(s, chain, j);
    }
    forall q | q in t.pending ensures PendingOk(t, chain, q) {
      assert PendingOk(s, chain, q);
      var j :| 0 <= j < |chain| - 1 && Between(s, chain, q, j);
      assert Between(t, chain, q, j);
    }
  }

  lemma {:induction false} LoadInv<T>(s: State<T>, chain: seq<nat>)
    requires Inv(s, chain) && Enabled(s, LoadNext)
    ensures Inv(Step(s, LoadNext), chain)
  {
    var t := Step(s, LoadNext);
    if |chain| > 1 { assert LinkOk(s, chain, 0); }
    assert t.heap == s.heap && t.pending == s.pending;
    forall j | 0 <= j < |chain| - 1 ensures LinkOk(t, chain, j) {
      assert LinkOk(s, chain, j);
      if s.heap[chain[j]].next == None {
        var q :| Waits(s, q, chain[j], chain[j + 1]);
        assert Waits(t, q, chain[j], chain[j + 1]);
      }
    }
    forall j | 0 < j < |chain| ensures DataOk(t, chain, j) {
      assert DataOk(s, chain, j);
    }
    forall q | q in t.pending ensures PendingOk(t, chain, q) {
      assert PendingOk(s, chain, q);
      var j :| 0 <= j < |chain| - 1 && Between(s, chain, q, j);
      assert Between(t, chain, q, j);
    }
  }

  /** The chain of nodes after an interleaving. */
  lemma {:induction false} RunInv<T>(dummy: nat, events: seq<Event<T>>) returns (chain: seq<nat>)
    requires Run(dummy, events).Some?
    ensures Inv(Run(dummy, events).value, chain)
    decreases |events|
  {
    if events == [] {
      StartInv<T>(dummy);
      return [dummy];
    }
    chain := RunInv(dummy, events[..|events| - 1]);
    var s := Run(dummy, events[..|events| - 1]).value;
    match events[|events| - 1] {
      case Exchange(p, v, node) => ExchangeInv(s, chain, p, v, node); chain := chain + [node];
      case LinkNode(p) => LinkInv(s, chain, p);
      case LoadNext => LoadInv(s, chain);
      case Take => TakeInv(s, chain); chain := chain[1..];
      case Delete => DeleteInv(s, chain);
    }
  }

  // ------------------------------------------------- what the queue promises

  /** Whatever the interleaving, no deleted node is touched, and the values leave in the order of the exchanges. */
  lemma {:induction false} Safe<T>(dummy: nat, events: seq<Event<T>>)
    requires Run(dummy, events).Some?
    ensures !Run(dummy, events).value.fault && Run(dummy, events).value.left <= Run(dummy, events).value.entered
  {
    var _ := RunInv(dummy, events);
  }

  /** `dequeue` reports an empty queue exactly when all values that entered have left, or the producer of the next
      one has not linked its node yet. */
  lemma {:induction false} EmptyIff<T>(dummy: nat, events: seq<Event<T>>)
    requires Run(dummy, events).Some? && Run(dummy, events).value.consumer.Idle?
    ensures var s := Run(dummy, events).value;
            Step(s, LoadNext).consumer.Idle? <==>
              |s.left| == |s.entered| || exists p :: p in s.pending && s.pending[p].prev == s.tail
  {
    var s := Run(dummy, events).value;
    var chain := RunInv(dummy, events);
    if |chain| > 1 {
      assert LinkOk(s, chain, 0);
      forall p | p in s.pending && s.pending[p].prev == s.tail ensures s.heap[s.tail].next == None {
        assert PendingOk(s, chain, p);
      }
    }
  }

  /** Without a waiting producer the values that are left and those that entered fit: a report of an empty queue means
      that everything has been handed out, and only the last node still takes up memory. */
  lemma {:induction false} Drained<T>(dummy: nat, events: seq<Event<T>>)
    requires Run(dummy, events).Some?
    requires var s := Run(dummy, events).value;
             s.consumer.Idle? && s.pending == map[] && Step(s, LoadNext).consumer.Idle?
    ensures var s := Run(dummy, events).value; s.left == s.entered && s.heap.Keys == {s.head} && s.head == s.tail
  {
    EmptyIff(dummy, events);
    var s := Run(dummy, events).value;
    var chain := RunInv(dummy, events);
    assert chain == [s.head];
  }

  /** Nodes are neither lost nor deleted early: one per value under way, one more for the tail. */
  lemma {:induction false} NodesConserved<T>(dummy: nat, events: seq<Event<T>>)
    requires Run(dummy, events).Some?
    ensures var s := Run(dummy, events).value;
            |s.heap| == 1 + |s.entered| - |s.left| + if s.consumer.Stored? then 1 else 0
  {
    var s := Run(dummy, events).value;
    var chain := RunInv(dummy, events);
    DistinctCount(chain);
    var nodes := Elems(chain);
    if s.consumer.Stored? {
      assert s.heap.Keys == nodes + {s.consumer.dead};
    } else {
      assert s.heap.Keys == nodes;
    }
  }
}
