/** The bucket queue of column weights (`WeightData` of volePSI/PxUtil.h): one doubly linked list of columns
    per weight, threaded through an array of nodes, and a vector of list heads that is kept trimmed.

    It refines a finite set of columns (`linked`), each carrying a weight. */
module WeightSets {
  import opened Prelude

  const NULL_NODE := -1

  /** The size that `init` gives to the vector of heads before trimming it. */
  const INITIAL_BUCKETS := 200

  datatype WeightNode = WeightNode(weight: nat, prev: int, next: int)

  // ------------------------------------------------- one list

  ghost function First(s: seq<nat>): int { if s == [] then NULL_NODE else s[0] }

  ghost function Before(s: seq<nat>, i: nat): int
    requires i < |s|
  { if i == 0 then NULL_NODE else s[i - 1] }

  ghost function After(s: seq<nat>, i: nat): int
    requires i < |s|
  { if i + 1 == |s| then NULL_NODE else s[i + 1] }

  ghost function Without(s: seq<nat>, i: nat): seq<nat>
    requires i < |s|
  { s[..i] + s[i + 1..] }

  /** The columns 0, 1, ..., n - 1. */
  ghost function UpTo(n: nat): (s: set<nat>)
    ensures |s| == n && forall c: nat :: c in s <==> c < n
  {
    if n == 0 then {} else UpTo(n - 1) + {n - 1}
  }

  ghost function WeightsOf(nodes: seq<WeightNode>): (r: seq<nat>)
    ensures |r| == |nodes| && forall c :: 0 <= c < |r| ==> r[c] == nodes[c].weight
  {
    seq(|nodes|, c requires 0 <= c < |nodes| => nodes[c].weight)
  }

  /** Node list[i] points to its two neighbours in the list. */
  ghost predicate Links(nodes: seq<WeightNode>, list: seq<nat>, i: nat)
    requires i < |list| && list[i] < |nodes|
  {
    nodes[list[i]].prev == Before(list, i) && nodes[list[i]].next == After(list, i)
  }

  /** The nodes of list, from the head on, are doubly linked in this order and all have weight w. */
  ghost predicate ListOk(nodes: seq<WeightNode>, head: int, list: seq<nat>, w: nat) {
    && head == First(list)
    && Distinct(list)
    && (forall i :: 0 <= i < |list| ==> list[i] < |nodes| && nodes[list[i]].weight == w)
    && (forall i {:trigger Links(nodes, list, i)} :: 0 <= i < |list| ==> Links(nodes, list, i))
  }

  /** Linking an isolated node in front of the list. */
  ghost function Pushed(nodes: seq<WeightNode>, head: int, c: nat): (r: seq<WeightNode>)
    requires c < |nodes| && (head == NULL_NODE || 0 <= head < |nodes|)
    ensures |r| == |nodes|
  {
    if head == NULL_NODE then nodes else nodes[head := nodes[head].(prev := c)][c := nodes[c].(next := head)]
  }

  lemma {:induction false} PushedListOk(nodes: seq<WeightNode>, head: int, list: seq<nat>, w: nat, c: nat)
    requires ListOk(nodes, head, list, w) && c < |nodes| && c !in list
    requires nodes[c] == WeightNode(w, NULL_NODE, NULL_NODE)
    ensures head == NULL_NODE || head in list
    ensures ListOk(Pushed(nodes, head, c), c, [c] + list, w)
  {
    var list' := [c] + list;
    var nodes' := Pushed(nodes, head, c);
    forall i | 0 <= i < |list'|
      ensures list'[i] < |nodes'| && nodes'[list'[i]].weight == w && Links(nodes', list', i)
    {
      if i > 0 {
        assert list'[i] == list[i - 1] && Links(nodes, list, i - 1);
      }
    }
  }

  /** Unlinking node c by joining its neighbours. */
  ghost function Popped(nodes: seq<WeightNode>, c: nat): (r: seq<WeightNode>)
    requires c < |nodes|
    requires nodes[c].prev == NULL_NODE || 0 <= nodes[c].prev < |nodes|
    requires nodes[c].next == NULL_NODE || 0 <= nodes[c].next < |nodes|
    ensures |r| == |nodes|
  {
    var p, n := nodes[c].prev, nodes[c].next;
    var a := if p == NULL_NODE then nodes else nodes[p := nodes[p].(next := n)];
    var b := if n == NULL_NODE then a else a[n := a[n].(prev := p)];
    b[c := b[c].(prev := NULL_NODE, next := NULL_NODE)]
  }

  lemma {:induction false} PopNeighbours(nodes: seq<WeightNode>, head: int, list: seq<nat>, w: nat, i: nat)
    requires ListOk(nodes, head, list, w) && i < |list|
    ensures nodes[list[i]].prev == Before(list, i) && nodes[list[i]].next == After(list, i)
    ensures nodes[list[i]].prev == NULL_NODE || (0 < i && nodes[list[i]].prev == list[i - 1])
    ensures nodes[list[i]].next == NULL_NODE || (i + 1 < |list| && nodes[list[i]].next == list[i + 1])
    ensures var nodes' := Popped(nodes, list[i]);
      && nodes'[list[i]] == WeightNode(w, NULL_NODE, NULL_NODE)
      && (forall d :: 0 <= d < |nodes| ==> nodes'[d].weight == nodes[d].weight)
      && (forall d: nat :: d < |nodes| && d !in list ==> nodes'[d] == nodes[d])
  {
    assert Links(nodes, list, i);
  }

  lemma {:induction false} PoppedListOk(nodes: seq<WeightNode>, head: int, list: seq<nat>, w: nat, i: nat)
    requires ListOk(nodes, head, list, w) && i < |list|
    requires nodes[list[i]].prev == NULL_NODE || 0 <= nodes[list[i]].prev < |nodes|
    requires nodes[list[i]].next == NULL_NODE || 0 <= nodes[list[i]].next < |nodes|
    ensures ListOk(Popped(nodes, list[i]), if i == 0 then nodes[list[i]].next else head, Without(list, i), w)
  {
    PopNeighbours(nodes, head, list, w, i);
    var list' := Without(list, i);
    var nodes' := Popped(nodes, list[i]);
    forall j | 0 <= j < |list'|
      ensures list'[j] < |nodes'| && nodes'[list'[j]].weight == w && Links(nodes', list', j)
    {
      PoppedLinks(nodes, head, list, w, i, j);
    }
  }

  lemma {:induction false} PoppedLinks(nodes: seq<WeightNode>, head: int, list: seq<nat>, w: nat, i: nat, j: nat)
    requires ListOk(nodes, head, list, w) && i < |list| && j < |list| - 1
    requires nodes[list[i]].prev == NULL_NODE || 0 <= nodes[list[i]].prev < |nodes|
    requires nodes[list[i]].next == NULL_NODE || 0 <= nodes[list[i]].next < |nodes|
    ensures var list', nodes' := Without(list, i), Popped(nodes, list[i]);
            list'[j] < |nodes'| && nodes'[list'[j]].weight == w && Links(nodes', list', j)
  {
    assert Links(nodes, list, i);
    var list' := Without(list, i);
    var o := if j < i then j else j + 1;
    assert list'[j] == list[o] && Links(nodes, list, o);
    PoppedAt(nodes, list[i], list[o]);
    assert After(list', j) == if j + 1 == i then After(list, i) else After(list, o);
    assert Before(list', j) == if j == i then Before(list, i) else Before(list, o);
  }

  /** What unlinking does to another node. */
  lemma {:induction false} PoppedAt(nodes: seq<WeightNode>, c: nat, d: nat)
    requires c < |nodes| && d < |nodes| && c != d
    requires nodes[c].prev == NULL_NODE || 0 <= nodes[c].prev < |nodes|
    requires nodes[c].next == NULL_NODE || 0 <= nodes[c].next < |nodes|
    ensures Popped(nodes, c)[d] == WeightNode(
      nodes[d].weight, if d == nodes[c].next then nodes[c].prev else nodes[d].prev,
      if d == nodes[c].prev then nodes[c].next else nodes[d].next)
  {
  }

  lemma {:induction false} SameListOk(
      nodes: seq<WeightNode>, nodes': seq<WeightNode>, head: int, list: seq<nat>, w: nat)
    requires ListOk(nodes, head, list, w) && |nodes'| == |nodes|
    requires forall i :: 0 <= i < |list| ==> nodes'[list[i]] == nodes[list[i]]
    ensures ListOk(nodes', head, list, w)
  {
    forall i | 0 <= i < |list| ensures Links(nodes', list, i) {
      assert Links(nodes, list, i);
    }
  }

  // ------------------------------------------------- all lists

  ghost predicate AllOk(nodes: seq<WeightNode>, heads: seq<int>, buckets: seq<seq<nat>>) {
    |heads| == |buckets| && forall w {:trigger ListOk(nodes, heads[w], buckets[w], w)} ::
      0 <= w < |heads| ==> ListOk(nodes, heads[w], buckets[w], w)
  }

  ghost predicate Holds(nodes: seq<WeightNode>, buckets: seq<seq<nat>>, c: nat) {
    c < |nodes| && nodes[c].weight < |buckets| && c in buckets[nodes[c].weight]
  }

  /** The columns on the lists are exactly the linked ones. */
  ghost predicate Covers(nodes: seq<WeightNode>, buckets: seq<seq<nat>>, linked: set<nat>) {
    && (forall c {:trigger Holds(nodes, buckets, c)} :: c in linked ==> Holds(nodes, buckets, c))
    && (forall w, i :: 0 <= w < |buckets| && 0 <= i < |buckets[w]| ==> buckets[w][i] in linked)
  }

  /** The columns of weight w, in list order; the lists behind the last bucket are empty. */
  ghost function ListAt(buckets: seq<seq<nat>>, w: nat): seq<nat> { if w < |buckets| then buckets[w] else [] }

  /** Column c has been put in front of list w; nothing else has changed. */
  ghost predicate PutInFront(before: seq<seq<nat>>, after: seq<seq<nat>>, w: nat, c: nat) {
    forall v: nat {:trigger ListAt(after, v)} ::
      ListAt(after, v) == if v == w then [c] + ListAt(before, v) else ListAt(before, v)
  }

  /** Column c has been taken out of list w, the other columns keep their order; nothing else has changed. */
  ghost predicate TakenOut(before: seq<seq<nat>>, after: seq<seq<nat>>, w: nat, c: nat) {
    && (exists i: nat ::
          i < |ListAt(before, w)| && ListAt(before, w)[i] == c && ListAt(after, w) == Without(ListAt(before, w), i))
    && (forall v: nat {:trigger ListAt(after, v)} :: v != w ==> ListAt(after, v) == ListAt(before, v))
  }

  /** Column c has moved from list w to the front of the list before. */
  ghost predicate MovedDown(before: seq<seq<nat>>, after: seq<seq<nat>>, w: nat, c: nat)
    requires w > 0
  {
    exists mid :: TakenOut(before, mid, w, c) && PutInFront(mid, after, w - 1, c)
  }

  lemma {:induction false} DownThroughMid(
      before: seq<seq<nat>>, mid: seq<seq<nat>>, after: seq<seq<nat>>, w: nat, c: nat)
    requires w > 0 && TakenOut(before, mid, w, c) && PutInFront(mid, after, w - 1, c)
    ensures MovedDown(before, after, w, c)
  {
  }

  ghost predicate SameLists(before: seq<seq<nat>>, after: seq<seq<nat>>) {
    forall v: nat {:trigger ListAt(after, v)} :: ListAt(after, v) == ListAt(before, v)
  }

  /** The columns of the list were put there in the opposite order. */
  ghost predicate NewestFirst(list: seq<nat>, pushes: seq<nat>) {
    forall i, j {:trigger list[i], list[j]} :: 0 <= i < j < |list| ==> LastAt(pushes, list[i]) > LastAt(pushes, list[j])
  }

  ghost predicate Recent(buckets: seq<seq<nat>>, pushes: seq<nat>) {
    forall w: nat {:trigger RecentAt(buckets, pushes, w)} :: RecentAt(buckets, pushes, w)
  }

  ghost predicate RecentAt(buckets: seq<seq<nat>>, pushes: seq<nat>, w: nat) {
    NewestFirst(ListAt(buckets, w), pushes)
  }

  lemma {:induction false} PutRecent(before: seq<seq<nat>>, after: seq<seq<nat>>, w: nat, c: nat, pushes: seq<nat>)
    requires Recent(before, pushes) && PutInFront(before, after, w, c)
    requires forall v: nat {:trigger ListAt(before, v)} :: c !in ListAt(before, v)
    ensures Recent(after, pushes + [c])
  {
    forall v: nat ensures RecentAt(after, pushes + [c], v) {
      var old', new' := ListAt(before, v), ListAt(after, v);
      assert RecentAt(before, pushes, v);
      forall i, j {:trigger new'[i], new'[j]} | 0 <= i < j < |new'|
        ensures LastAt(pushes + [c], new'[i]) > LastAt(pushes + [c], new'[j])
      {
        LastAtPush(pushes, c, new'[i]);
        LastAtPush(pushes, c, new'[j]);
        if v == w {
          assert new'[j] == old'[j - 1] && (i > 0 ==> new'[i] == old'[i - 1]);
        }
      }
    }
  }

  lemma {:induction false} TakenRecent(before: seq<seq<nat>>, after: seq<seq<nat>>, w: nat, c: nat, pushes: seq<nat>)
    requires Recent(before, pushes) && TakenOut(before, after, w, c)
    ensures Recent(after, pushes)
  {
    forall v: nat ensures RecentAt(after, pushes, v) {
      var list := ListAt(before, v);
      assert RecentAt(before, pushes, v);
      if v == w {
        var k: nat :| k < |list| && list[k] == c && ListAt(after, v) == Without(list, k);
        WithoutNewest(list, k, pushes);
      }
    }
  }

  lemma {:induction false} WithoutNewest(list: seq<nat>, k: nat, pushes: seq<nat>)
    requires NewestFirst(list, pushes) && k < |list|
    ensures NewestFirst(Without(list, k), pushes)
  {
    var rest := Without(list, k);
    forall i, j {:trigger rest[i], rest[j]} | 0 <= i < j < |rest|
      ensures LastAt(pushes, rest[i]) > LastAt(pushes, rest[j])
    {
      var a, b := if i < k then i else i + 1, if j < k then j else j + 1;
      assert rest[i] == list[a] && rest[j] == list[b];
    }
  }

  lemma {:induction false} SameRecent(before: seq<seq<nat>>, after: seq<seq<nat>>, pushes: seq<nat>)
    requires Recent(before, pushes) && SameLists(before, after)
    ensures Recent(after, pushes)
  {
    forall v: nat ensures RecentAt(after, pushes, v) {
      assert RecentAt(before, pushes, v) && ListAt(after, v) == ListAt(before, v);
    }
  }

  lemma {:induction false} PaddedRecent(buckets: seq<seq<nat>>, k: nat, pushes: seq<nat>)
    requires Recent(buckets, pushes)
    ensures SameLists(buckets, buckets + seq(k, _ => [])) && Recent(buckets + seq(k, _ => []), pushes)
  {
    SameRecent(buckets, buckets + seq(k, _ => []), pushes);
  }

  lemma {:induction false} EmptyLastDropped(before: seq<seq<nat>>, mid: seq<seq<nat>>)
    requires SameLists(before, mid) && |mid| > 0 && mid[|mid| - 1] == []
    ensures SameLists(before, mid[..|mid| - 1])
  {
    var after := mid[..|mid| - 1];
    forall v: nat {:trigger ListAt(after, v)} ensures ListAt(after, v) == ListAt(before, v) {
      assert ListAt(mid, v) == ListAt(before, v);
    }
  }

  lemma {:induction false} TakenOutThenSame(before: seq<seq<nat>>, w: nat, i: nat, after: seq<seq<nat>>)
    requires w < |before| && i < |before[w]| && SameLists(before[w := Without(before[w], i)], after)
    ensures TakenOut(before, after, w, before[w][i])
  {
    var mid := before[w := Without(before[w], i)];
    assert ListAt(after, w) == ListAt(mid, w) == Without(ListAt(before, w), i);
    forall v: nat {:trigger ListAt(after, v)} | v != w ensures ListAt(after, v) == ListAt(before, v) {
      assert ListAt(after, v) == ListAt(mid, v);
    }
  }

  /** Appending empty buckets changes nothing. */
  lemma {:induction false} Resized(
      nodes: seq<WeightNode>, heads: seq<int>, buckets: seq<seq<nat>>, linked: set<nat>, k: nat)
    requires AllOk(nodes, heads, buckets) && Covers(nodes, buckets, linked)
    ensures AllOk(nodes, heads + seq(k, _ => NULL_NODE), buckets + seq(k, _ => []))
    ensures Covers(nodes, buckets + seq(k, _ => []), linked)
  {
    var heads', buckets' := heads + seq(k, _ => NULL_NODE), buckets + seq(k, _ => []);
    forall w | 0 <= w < |heads'| ensures ListOk(nodes, heads'[w], buckets'[w], w) {
      if w < |heads| { assert heads'[w] == heads[w] && buckets'[w] == buckets[w]; }
    }
    forall w, i | 0 <= w < |buckets'| && 0 <= i < |buckets'[w]| ensures buckets'[w][i] in linked {
      assert w < |buckets| && buckets'[w] == buckets[w];
    }
    forall c | c in linked ensures Holds(nodes, buckets', c) {
      assert Holds(nodes, buckets, c);
    }
  }

  lemma {:induction false} PushedAllOk(
      nodes: seq<WeightNode>, heads: seq<int>, buckets: seq<seq<nat>>, linked: set<nat>, c: nat)
    requires AllOk(nodes, heads, buckets) && Covers(nodes, buckets, linked)
    requires c < |nodes| && c !in linked && nodes[c].weight < |heads|
    requires nodes[c].prev == NULL_NODE && nodes[c].next == NULL_NODE
    ensures var w := nodes[c].weight;
      && (heads[w] == NULL_NODE || 0 <= heads[w] < |nodes|)
      && AllOk(Pushed(nodes, heads[w], c), heads[w := c], buckets[w := [c] + buckets[w]])
      && Covers(Pushed(nodes, heads[w], c), buckets[w := [c] + buckets[w]], linked + {c})
      && WeightsOf(Pushed(nodes, heads[w], c)) == WeightsOf(nodes)
  {
    var w := nodes[c].weight;
    assert ListOk(nodes, heads[w], buckets[w], w);
    assert forall i :: 0 <= i < |buckets[w]| ==> buckets[w][i] in linked;
    PushedListOk(nodes, heads[w], buckets[w], w, c);
    var nodes', heads', buckets' := Pushed(nodes, heads[w], c), heads[w := c], buckets[w := [c] + buckets[w]];
    forall v | 0 <= v < |heads'| ensures ListOk(nodes', heads'[v], buckets'[v], v) {
      if v != w {
        assert ListOk(nodes, heads[v], buckets[v], v);
        SameListOk(nodes, nodes', heads[v], buckets[v], v);
      }
    }
    PushedCovers(nodes, nodes', buckets, linked, c);
  }

  lemma {:induction false} PushedCovers(
      nodes: seq<WeightNode>, nodes': seq<WeightNode>, buckets: seq<seq<nat>>, linked: set<nat>, c: nat)
    requires Covers(nodes, buckets, linked) && c < |nodes| && nodes[c].weight < |buckets|
    requires |nodes'| == |nodes| && forall d :: 0 <= d < |nodes| ==> nodes'[d].weight == nodes[d].weight
    ensures var w := nodes[c].weight; Covers(nodes', buckets[w := [c] + buckets[w]], linked + {c})
  {
    var w := nodes[c].weight;
    var buckets' := buckets[w := [c] + buckets[w]];
    forall d | d in linked + {c} ensures Holds(nodes', buckets', d) {
      if d != c { assert Holds(nodes, buckets, d); }
    }
    forall v, i | 0 <= v < |buckets'| && 0 <= i < |buckets'[v]| ensures buckets'[v][i] in linked + {c} {
      if v == w { assert i > 0 ==> buckets'[v][i] == buckets[v][i - 1]; }
    }
  }

  lemma {:induction false} PoppedAllOk(
      nodes: seq<WeightNode>, heads: seq<int>, buckets: seq<seq<nat>>, linked: set<nat>, c: nat, i: nat)
    requires AllOk(nodes, heads, buckets) && Covers(nodes, buckets, linked) && c in linked
    requires Holds(nodes, buckets, c) && i < |buckets[nodes[c].weight]| && buckets[nodes[c].weight][i] == c
    ensures var w := nodes[c].weight;
      && (nodes[c].prev == NULL_NODE || 0 <= nodes[c].prev < |nodes|)
      && (nodes[c].next == NULL_NODE || 0 <= nodes[c].next < |nodes|)
      && (nodes[c].prev == NULL_NODE <==> i == 0)
      && (nodes[c].prev == NULL_NODE ==> heads[w] == c)
      && AllOk(Popped(nodes, c), heads[w := if i == 0 then nodes[c].next else heads[w]],
               buckets[w := Without(buckets[w], i)])
      && Covers(Popped(nodes, c), buckets[w := Without(buckets[w], i)], linked - {c})
      && Popped(nodes, c)[c] == WeightNode(w, NULL_NODE, NULL_NODE)
      && WeightsOf(Popped(nodes, c)) == WeightsOf(nodes)
  {
    var w := nodes[c].weight;
    assert ListOk(nodes, heads[w], buckets[w], w);
    PopNeighbours(nodes, heads[w], buckets[w], w, i);
    PoppedListOk(nodes, heads[w], buckets[w], w, i);
    var nodes' := Popped(nodes, c);
    var heads' := heads[w := if i == 0 then nodes[c].next else heads[w]];
    var list' := Without(buckets[w], i);
    var buckets' := buckets[w := list'];
    forall v | 0 <= v < |heads'| ensures ListOk(nodes', heads'[v], buckets'[v], v) {
      if v != w {
        assert ListOk(nodes, heads[v], buckets[v], v);
        SameListOk(nodes, nodes', heads[v], buckets[v], v);
      }
    }
    forall d | d in linked - {c} ensures Holds(nodes', buckets', d) {
      assert Holds(nodes, buckets, d);
      if nodes[d].weight == w {
        var j :| 0 <= j < |buckets[w]| && buckets[w][j] == d;
        assert list'[if j < i then j else j - 1] == d;
      }
    }
    forall v, j | 0 <= v < |buckets'| && 0 <= j < |buckets'[v]| ensures buckets'[v][j] in linked - {c} {
      if v == w {
        assert list'[j] == buckets[w][if j < i then j else j + 1];
      } else {
        assert ListOk(nodes, heads[v], buckets[v], v);
        assert nodes[buckets[v][j]].weight == v;
      }
    }
  }

  /** Dropping an empty last bucket changes nothing. */
  lemma {:induction false} DroppedLast(
      nodes: seq<WeightNode>, heads: seq<int>, buckets: seq<seq<nat>>, linked: set<nat>)
    requires AllOk(nodes, heads, buckets) && Covers(nodes, buckets, linked)
    requires |heads| > 0 && heads[|heads| - 1] == NULL_NODE
    ensures AllOk(nodes, heads[..|heads| - 1], buckets[..|heads| - 1])
    ensures Covers(nodes, buckets[..|heads| - 1], linked)
  {
    var k := |heads| - 1;
    assert ListOk(nodes, heads[k], buckets[k], k);
    assert buckets[k] == [];
    forall w | 0 <= w < k ensures ListOk(nodes, heads[..k][w], buckets[..k][w], w) {
      assert ListOk(nodes, heads[w], buckets[w], w);
    }
    forall c | c in linked ensures Holds(nodes, buckets[..k], c) {
      assert Holds(nodes, buckets, c);
    }
    forall w, i | 0 <= w < k && 0 <= i < |buckets[..k][w]| ensures buckets[..k][w][i] in linked {
      assert buckets[w][i] in linked;
    }
  }

  lemma {:induction false} UnlinkedOnNoList(nodes: seq<WeightNode>, buckets: seq<seq<nat>>, linked: set<nat>, c: nat)
    requires Covers(nodes, buckets, linked) && c !in linked
    ensures forall w: nat {:trigger ListAt(buckets, w)} :: c !in ListAt(buckets, w)
  {
  }

  lemma {:induction false} TrimmedHolds(
      nodes: seq<WeightNode>, heads: seq<int>, buckets: seq<seq<nat>>, linked: set<nat>)
    requires AllOk(nodes, heads, buckets) && Covers(nodes, buckets, linked)
    requires |heads| > 0 ==> heads[|heads| - 1] != NULL_NODE
    ensures linked != {} <==> |heads| > 0
  {
    if |heads| > 0 {
      var k := |heads| - 1;
      assert ListOk(nodes, heads[k], buckets[k], k);
      assert buckets[k][0] in linked;
    } else {
      forall d: nat ensures d !in linked {
        assert d in linked ==> Holds(nodes, buckets, d);
      }
    }
  }

  lemma {:induction false} FrontIsNewest(
      nodes: seq<WeightNode>, heads: seq<int>, buckets: seq<seq<nat>>, linked: set<nat>, pushes: seq<nat>, w: nat)
    requires AllOk(nodes, heads, buckets) && Covers(nodes, buckets, linked) && Recent(buckets, pushes)
    requires w < |heads| && heads[w] >= 0
    ensures forall d :: d in linked && d < |nodes| && nodes[d].weight == w ==>
      LastAt(pushes, d) <= LastAt(pushes, heads[w])
  {
    assert ListOk(nodes, heads[w], buckets[w], w);
    assert RecentAt(buckets, pushes, w);
    forall d | d in linked && d < |nodes| && nodes[d].weight == w
      ensures LastAt(pushes, d) <= LastAt(pushes, heads[w])
    {
      assert Holds(nodes, buckets, d);
      var j :| 0 <= j < |buckets[w]| && buckets[w][j] == d;
      assert j > 0 ==> LastAt(pushes, buckets[w][0]) > LastAt(pushes, buckets[w][j]);
    }
  }

  /** A node that is on no list can be changed freely. */
  lemma {:induction false} UnlinkedChange(
      nodes: seq<WeightNode>, heads: seq<int>, buckets: seq<seq<nat>>, linked: set<nat>, c: nat, node: WeightNode)
    requires AllOk(nodes, heads, buckets) && Covers(nodes, buckets, linked) && c < |nodes| && c !in linked
    ensures AllOk(nodes[c := node], heads, buckets) && Covers(nodes[c := node], buckets, linked)
  {
    forall w | 0 <= w < |heads| ensures ListOk(nodes[c := node], heads[w], buckets[w], w) {
      assert ListOk(nodes, heads[w], buckets[w], w);
      assert forall i :: 0 <= i < |buckets[w]| ==> buckets[w][i] in linked;
      SameListOk(nodes, nodes[c := node], heads[w], buckets[w], w);
    }
    forall d | d in linked ensures Holds(nodes[c := node], buckets, d) {
      assert Holds(nodes, buckets, d);
    }
  }

  // ------------------------------------------------- the data structure

  class WeightData {
    const nodes: array<WeightNode>
    var heads: seq<int>

    /** The columns of each list, in list order. */
    ghost var buckets: seq<seq<nat>>
    /** The columns that are on some list. */
    ghost var linked: set<nat>
    /** The columns in the order in which they were put on lists, since the start. */
    ghost var pushes: seq<nat>

    /** The nodes are linked as the lists say. */
    ghost predicate Linkage()
      reads this, nodes
    {
      AllOk(nodes[..], heads, buckets) && Covers(nodes[..], buckets, linked)
    }

    ghost predicate Valid()
      reads this, nodes
    {
      Linkage() && Recent(buckets, pushes)
    }

    /** The last list is not empty. */
    ghost predicate Trimmed()
      reads this
    {
      |heads| > 0 && heads[|heads| - 1] != NULL_NODE
    }

    ghost function Weights(): (r: seq<nat>)
      reads nodes
    {
      WeightsOf(nodes[..])
    }

    /** `init`: every column is pushed in turn, and then the unused heads at the end are cut off. */
    constructor (weights: seq<nat>)
      requires forall c :: 0 <= c < |weights| ==> weights[c] < INITIAL_BUCKETS
      ensures Valid() && fresh(nodes) && nodes.Length == |weights| && Weights() == weights
      ensures linked == UpTo(|weights|) && pushes == Iota(|weights|)
      ensures weights != [] ==> Trimmed()
    {
      nodes := new WeightNode[|weights|](
        c requires 0 <= c < |weights| => WeightNode(weights[c], NULL_NODE, NULL_NODE));
      heads := seq(INITIAL_BUCKETS, _ => NULL_NODE);
      buckets := seq(INITIAL_BUCKETS, _ => []);
      linked := {};
      pushes := [];
      new;
      for i := 0 to |weights|
        invariant Valid() && |heads| == INITIAL_BUCKETS && Weights() == weights
        invariant (forall c: nat :: c in linked <==> c < i) && pushes == Iota(i)
        invariant forall c :: i <= c < |weights| ==> nodes[c] == WeightNode(weights[c], NULL_NODE, NULL_NODE)
      {
        InsertFront(i);
      }
      assert linked == UpTo(|weights|);
      if weights != [] {
        assert 0 in linked;
        ghost var before := buckets;
        var _ := TrimHeads();
        SameRecent(before, buckets, pushes);
      }
    }

    /** Adds an isolated column to the list of its weight. */
    method PushNode(c: nat)
      requires Valid() && c < nodes.Length && c !in linked
      requires nodes[c].prev == NULL_NODE && nodes[c].next == NULL_NODE
      modifies this, nodes
      ensures Valid() && linked == old(linked) + {c} && Weights() == old(Weights())
      ensures old(Trimmed()) || old(heads) == [] ==> Trimmed()
      ensures PutInFront(old(buckets), buckets, Weights()[c], c) && pushes == old(pushes) + [c]
    {
      var w := nodes[c].weight;
      if |heads| <= w {
        PaddedRecent(buckets, w + 1 - |heads|, pushes);
        Resized(nodes[..], heads, buckets, linked, w + 1 - |heads|);
        buckets := buckets + seq(w + 1 - |heads|, _ => []);
        heads := heads + seq(w + 1 - |heads|, _ => NULL_NODE);
      }
      InsertFront(c);
    }

    method InsertFront(c: nat)
      requires Valid() && c < nodes.Length && c !in linked && nodes[c].weight < |heads|
      requires nodes[c].prev == NULL_NODE && nodes[c].next == NULL_NODE
      modifies this, nodes
      ensures Valid() && linked == old(linked) + {c} && Weights() == old(Weights())
      ensures heads == old(heads)[nodes[c].weight := c]
      ensures PutInFront(old(buckets), buckets, nodes[c].weight, c) && pushes == old(pushes) + [c]
      ensures forall d: nat :: d < nodes.Length && d !in linked ==> nodes[d] == old(nodes[d])
    {
      ghost var before := buckets;
      UnlinkedOnNoList(nodes[..], buckets, linked, c);
      LinkFront(c);
      PutRecent(before, buckets, nodes[c].weight, c, pushes);
      pushes := pushes + [c];
    }

    method LinkFront(c: nat)
      requires Linkage() && c < nodes.Length && c !in linked && nodes[c].weight < |heads|
      requires nodes[c].prev == NULL_NODE && nodes[c].next == NULL_NODE
      modifies this, nodes
      ensures Linkage() && linked == old(linked) + {c} && Weights() == old(Weights()) && pushes == old(pushes)
      ensures nodes[c].weight == old(nodes[c].weight) && heads == old(heads)[nodes[c].weight := c]
      ensures PutInFront(old(buckets), buckets, nodes[c].weight, c)
      ensures forall d: nat :: d < nodes.Length && d !in linked ==> nodes[d] == old(nodes[d])
    {
      var w := nodes[c].weight;
      assert ListOk(nodes[..], heads[w], buckets[w], w);
      assert heads[w] != NULL_NODE ==> heads[w] in linked;
      PushedAllOk(nodes[..], heads, buckets, linked, c);
      LinkInFront(c, heads[w]);
      assert Weights()[c] == w;
      heads := heads[w := c];
      buckets := buckets[w := [c] + buckets[w]];
      linked := linked + {c};
    }

    method LinkInFront(c: nat, h: int)
      requires c < nodes.Length && (h == NULL_NODE || 0 <= h < nodes.Length)
      modifies nodes
      ensures nodes[..] == Pushed(old(nodes[..]), h, c)
      ensures forall d: nat :: d < nodes.Length && d != h && d != c ==> nodes[d] == old(nodes[d])
    {
      if h != NULL_NODE {
        var node := nodes[c].(next := h);
        nodes[h] := nodes[h].(prev := c);
        nodes[c] := node;
      }
    }

    /** Removes a column.  False if it was the last one: the trimming loop then goes on to read the end of an empty
        vector. */
    method PopNode(c: nat) returns (ok: bool)
      requires Valid() && Trimmed() && c in linked
      modifies this, nodes
      ensures Valid() && linked == old(linked) - {c} && Weights() == old(Weights())
      ensures ok <==> linked != {}
      ensures ok ==> Trimmed()
      ensures c < nodes.Length && nodes[c].prev == NULL_NODE && nodes[c].next == NULL_NODE
      ensures TakenOut(old(buckets), buckets, nodes[c].weight, c) && pushes == old(pushes)
    {
      ghost var before := buckets;
      ok := UnlinkNode(c);
      TakenRecent(before, buckets, nodes[c].weight, c, pushes);
    }

    method UnlinkNode(c: nat) returns (ok: bool)
      requires Linkage() && Trimmed() && c in linked
      modifies this, nodes
      ensures Linkage() && linked == old(linked) - {c} && Weights() == old(Weights()) && pushes == old(pushes)
      ensures ok <==> linked != {}
      ensures ok ==> Trimmed()
      ensures c < nodes.Length && nodes[c].prev == NULL_NODE && nodes[c].next == NULL_NODE
      ensures TakenOut(old(buckets), buckets, nodes[c].weight, c)
    {
      assert Holds(nodes[..], buckets, c);
      var w := nodes[c].weight;
      ghost var i :| 0 <= i < |buckets[w]| && buckets[w][i] == c;
      PoppedAllOk(nodes[..], heads, buckets, linked, c, i);
      var p, n := nodes[c].prev, nodes[c].next;
      buckets := buckets[w := Without(buckets[w], i)];
      linked := linked - {c};
      if p == NULL_NODE {
        heads := heads[w := n];
      } else {
        assert heads[w := heads[w]] == heads;
      }
      Unlink(c);
      ok := true;
      if p == NULL_NODE && n == NULL_NODE {
        ok := TrimHeads();
      } else {
        TrimmedHolds(nodes[..], heads, buckets, linked);
      }
      TakenOutThenSame(old(buckets), w, i, buckets);
    }

    /** Joins the neighbours of c and isolates it. */
    method Unlink(c: nat)
      requires c < nodes.Length
      requires nodes[c].prev == NULL_NODE || 0 <= nodes[c].prev < nodes.Length
      requires nodes[c].next == NULL_NODE || 0 <= nodes[c].next < nodes.Length
      modifies nodes
      ensures nodes[..] == Popped(old(nodes[..]), c)
    {
      var p, n := nodes[c].prev, nodes[c].next;
      if p != NULL_NODE {
        nodes[p] := nodes[p].(next := n);
      }
      if n != NULL_NODE {
        nodes[n] := nodes[n].(prev := p);
      }
      nodes[c] := nodes[c].(prev := NULL_NODE, next := NULL_NODE);
    }

    method TrimHeads() returns (ok: bool)
      requires Linkage()
      modifies this`heads, this`buckets
      ensures Linkage() && SameLists(old(buckets), buckets)
      ensures ok <==> linked != {}
      ensures ok ==> Trimmed()
    {
      while |heads| > 0 && heads[|heads| - 1] == NULL_NODE
        invariant Linkage() && SameLists(old(buckets), buckets)
        decreases |heads|
      {
        DroppedLast(nodes[..], heads, buckets, linked);
        assert ListOk(nodes[..], heads[|heads| - 1], buckets[|heads| - 1], |heads| - 1);
        EmptyLastDropped(old(buckets), buckets);
        buckets := buckets[..|heads| - 1];
        heads := heads[..|heads| - 1];
      }
      ok := |heads| > 0;
      TrimmedHolds(nodes[..], heads, buckets, linked);
    }

    /** The weight of a column that is on no list is set directly. */
    method SetWeight(c: nat, w: nat)
      requires Valid() && c < nodes.Length && c !in linked
      modifies nodes
      ensures Valid() && Weights() == old(Weights())[c := w]
      ensures nodes[c].prev == old(nodes[c].prev) && nodes[c].next == old(nodes[c].next)
    {
      UnlinkedChange(nodes[..], heads, buckets, linked, c, nodes[c].(weight := w));
      nodes[c] := nodes[c].(weight := w);
      assert nodes[..] == old(nodes[..])[c := nodes[c]];
    }

    /** Puts a column that is on no list on that of another weight. */
    method Requeue(c: nat, w: nat)
      requires Valid() && Trimmed() && c < nodes.Length && c !in linked
      requires nodes[c].prev == NULL_NODE && nodes[c].next == NULL_NODE
      modifies this, nodes
      ensures Valid() && Trimmed() && linked == old(linked) + {c} && Weights() == old(Weights())[c := w]
      ensures PutInFront(old(buckets), buckets, w, c) && pushes == old(pushes) + [c]
    {
      SetWeight(c, w);
      PushNode(c);
    }

    /** `decementWeight`, and the same three steps inside `triangulate`. */
    method DecrementWeight(c: nat) returns (ok: bool)
      requires Valid() && Trimmed() && c in linked && c < nodes.Length && Weights()[c] > 0
      modifies this, nodes
      ensures ok <==> old(linked) != {c}
      ensures ok ==> Valid() && Trimmed() && linked == old(linked)
      ensures ok ==> Weights() == old(Weights())[c := old(Weights())[c] - 1]
      ensures ok ==> MovedDown(old(buckets), buckets, old(Weights())[c], c) && pushes == old(pushes) + [c]
    {
      ghost var before, weights := buckets, Weights();
      var w := nodes[c].weight;
      ok := PopNode(c);
      if !ok {
        return;
      }
      ghost var mid := buckets;
      assert Weights()[c] == weights[c] == w;
      Requeue(c, w - 1);
      DownThroughMid(before, mid, buckets, w, c);
    }

    /** The column the source picks: the head of the first non-empty list of positive weight.
        None stands for the exception that the source throws. */
    method GetMinWeightNode() returns (r: Option<nat>)
      requires Valid()
      ensures r.Some? ==> r.value in linked && r.value < nodes.Length && Weights()[r.value] > 0
      ensures r.Some? ==> forall d :: d in linked && d < nodes.Length && Weights()[d] > 0 ==>
                            Weights()[r.value] <= Weights()[d]
      ensures r.Some? ==> First(ListAt(buckets, Weights()[r.value])) == r.value
      ensures r.Some? ==> forall d :: d in linked && d < nodes.Length && Weights()[d] == Weights()[r.value] ==>
                            LastAt(pushes, d) <= LastAt(pushes, r.value)
      ensures r.None? ==> forall d :: d in linked && d < nodes.Length ==> Weights()[d] == 0
    {
      var i := 1;
      while i < |heads|
        invariant 1 <= i
        invariant forall d :: d in linked && d < nodes.Length && Weights()[d] > 0 ==> i <= Weights()[d]
      {
        assert ListOk(nodes[..], heads[i], buckets[i], i);
        if heads[i] != NULL_NODE {
          FrontIsNewest(nodes[..], heads, buckets, linked, pushes, i);
          return Some(heads[i]);
        }
        forall d | d in linked && d < nodes.Length && Weights()[d] > 0 ensures i + 1 <= Weights()[d] {
          assert Holds(nodes[..], buckets, d);
        }
        i := i + 1;
      }
      forall d | d in linked && d < nodes.Length ensures Weights()[d] == 0 {
        assert Holds(nodes[..], buckets, d);
      }
      return None;
    }
  }
}
