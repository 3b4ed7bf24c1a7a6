/** Day 7, handy haversacks: rules saying how many bags of each colour a bag
    of some colour holds. Part 1 counts the colours that can end up holding
    a shiny gold bag; part 2 counts the bags a shiny gold bag holds. */
module Bags {
  import opened Common

  /** One parsed clause of a rule: `container` holds `count` bags of colour
      `contained`. The edges come in the order of the rules and clauses. */
  datatype Edge = Edge(container: string, contained: string, count: nat)

  const Start := "shiny gold"

  /** The elements of a sequence, and how many of its entries repeat an
      earlier one. */
  function Elements<T>(s: seq<T>): set<T>
  {
    set x | x in s
  }

  function Duplicates<T(==)>(s: seq<T>): nat
  {
    ElementsBound(s);
    |s| - |Elements(s)|
  }

  lemma {:induction false} ElementsBound<T>(s: seq<T>)
    ensures |Elements(s)| <= |s|
    decreases |s|
  {
    if |s| > 0 {
      var init := s[..|s| - 1];
      ElementsBound(init);
      assert Elements(s) == Elements(init) + {s[|s| - 1]};
    }
  }

  // ---------------------------------------------------------------- part 1

  type Graph = map<string, seq<string>>

  /** The containers of `b`, one per edge into `b`, in edge order. */
  function ContainersOf(edges: seq<Edge>, b: string): seq<string>
  {
    if |edges| == 0 then []
    else
      var e := edges[|edges| - 1];
      ContainersOf(edges[..|edges| - 1], b) + (if e.contained == b then [e.container] else [])
  }

  lemma {:induction false} ContainersOfMembers(edges: seq<Edge>, b: string, x: string)
    ensures x in ContainersOf(edges, b) <==>
              exists i :: 0 <= i < |edges| && edges[i].contained == b && edges[i].container == x
    decreases |edges|
  {
    if |edges| > 0 {
      var init := edges[..|edges| - 1];
      ContainersOfMembers(init, b, x);
      if exists i :: 0 <= i < |init| && init[i].contained == b && init[i].container == x {
        var i :| 0 <= i < |init| && init[i].contained == b && init[i].container == x;
        assert edges[i] == init[i];
      }
      if exists i :: 0 <= i < |edges| && edges[i].contained == b && edges[i].container == x {
        var i :| 0 <= i < |edges| && edges[i].contained == b && edges[i].container == x;
        if i < |init| {
          assert init[i] == edges[i];
        }
      }
    }
  }

  /** The `bags_in` map of `pt1`: for every edge, the container is pushed
      onto the list of the contained colour. */
  function BuildReverse(edges: seq<Edge>): (m: Graph)
    ensures forall b :: b in m <==> |ContainersOf(edges, b)| > 0
    ensures forall b :: b in m ==> m[b] == ContainersOf(edges, b)
  {
    if |edges| == 0 then map[]
    else
      var m := BuildReverse(edges[..|edges| - 1]);
      var e := edges[|edges| - 1];
      m[e.contained := (if e.contained in m then m[e.contained] else []) + [e.container]]
  }

  /** The colours listed under `v`, none when it has no entry. */
  function Succ(m: Graph, v: string): seq<string>
  {
    if v in m then m[v] else []
  }

  /** Every colour listed anywhere in the map. */
  function Nodes(m: Graph): set<string>
  {
    set k, i | k in m && 0 <= i < |m[k]| :: m[k][i]
  }

  predicate IsWalk(m: Graph, p: seq<string>)
  {
    forall k :: 0 <= k < |p| - 1 ==> p[k + 1] in Succ(m, p[k])
  }

  /** `to` is reached from `from` in one step or more. */
  ghost predicate Reaches(m: Graph, from: string, to: string)
  {
    exists p :: |p| >= 2 && p[0] == from && p[|p| - 1] == to && IsWalk(m, p)
  }

  /** The colours reached from `start`. */
  ghost function Reachable(m: Graph, start: string): set<string>
  {
    set x | x in Nodes(m) && Reaches(m, start, x)
  }

  lemma InSucc(m: Graph, v: string, x: string)
    requires x in Succ(m, v)
    ensures x in Nodes(m)
  {
    var i :| 0 <= i < |m[v]| && m[v][i] == x;
  }

  lemma ReachesDirect(m: Graph, from: string, x: string)
    requires x in Succ(m, from)
    ensures Reaches(m, from, x) && x in Reachable(m, from)
  {
    var p := [from, x];
    assert IsWalk(m, p);
    InSucc(m, from, x);
  }

  lemma ReachesStep(m: Graph, from: string, v: string, x: string)
    requires Reaches(m, from, v) && x in Succ(m, v)
    ensures Reaches(m, from, x) && x in Reachable(m, from)
  {
    var p :| |p| >= 2 && p[0] == from && p[|p| - 1] == v && IsWalk(m, p);
    var q := p + [x];
    assert IsWalk(m, q) by {
      forall k | 0 <= k < |q| - 1
        ensures q[k + 1] in Succ(m, q[k])
      {
        if k < |p| - 1 {
          assert q[k] == p[k] && q[k + 1] == p[k + 1];
        }
      }
    }
    assert q[0] == from && q[|q| - 1] == x;
    InSucc(m, v, x);
  }

  /** Every colour listed under `v` is in `s`. */
  predicate Closed(m: Graph, s: set<string>, v: string)
  {
    forall x :: x in Succ(m, v) ==> x in s
  }

  /** A set holding the colours listed under `from`, and closed at each of
      its members, holds every colour reached from `from`. */
  lemma ClosedHoldsReachable(m: Graph, from: string, s: set<string>)
    requires Closed(m, s, from)
    requires forall v :: v in s ==> Closed(m, s, v)
    ensures Reachable(m, from) <= s
  {
    forall x | x in Reachable(m, from)
      ensures x in s
    {
      var p :| |p| >= 2 && p[0] == from && p[|p| - 1] == x && IsWalk(m, p);
      ClosedHoldsWalk(m, s, p, |p| - 1);
    }
  }

  lemma {:induction false} ClosedHoldsWalk(m: Graph, s: set<string>, p: seq<string>, k: nat)
    requires IsWalk(m, p) && 1 <= k < |p|
    requires Closed(m, s, p[0])
    requires forall v :: v in s ==> Closed(m, s, v)
    ensures p[k] in s
    decreases k
  {
    if k > 1 {
      ClosedHoldsWalk(m, s, p, k - 1);
    }
    assert p[k] in Succ(m, p[k - 1]);
  }

  lemma ProperSubsetSize<T>(a: set<T>, b: set<T>)
    requires a < b
    ensures |a| < |b|
  {
    assert b - a != {};
    var x :| x in b - a;
    assert a <= b - {x};
    assert |a| <= |b - {x}| by {
      SubsetSize(a, b - {x});
    }
  }

  /** The inner loop of `pt1`'s search: every container of `bag` not yet
      visited is queued, marked and counted. */
  method VisitContainers(m: Graph, start: string, bag: string, queue: seq<string>,
                         visited: set<string>, count: nat)
    returns (queue': seq<string>, visited': set<string>, count': nat)
    requires bag in m && Reaches(m, start, bag)
    requires visited <= Reachable(m, start)
    ensures visited <= visited' <= Reachable(m, start)
    ensures Closed(m, visited', bag)
    ensures |queue| <= |queue'| && queue'[..|queue|] == queue
    ensures forall k :: |queue| <= k < |queue'| ==> queue'[k] in visited'
    ensures forall x :: x in visited' && x !in visited ==> x in queue'
    ensures visited' == visited ==> queue' == queue
    ensures count' + |visited| == count + |visited'|
  {
    queue', visited', count' := queue, visited, count;
    var list := m[bag];
    var j := 0;
    while j < |list|
      invariant 0 <= j <= |list|
      invariant forall k :: 0 <= k < j ==> list[k] in visited'
      invariant Visiting(m, start, queue, visited, count, queue', visited', count')
    {
      queue', visited', count' := VisitOne(m, start, bag, list[j], queue, visited, count, queue', visited', count');
      j := j + 1;
    }
  }

  /** The containers visited so far by `VisitContainers`, relative to the
      queue, visited set and count it started from. */
  ghost predicate Visiting(m: Graph, start: string, queue: seq<string>, visited: set<string>, count: nat,
                           queue': seq<string>, visited': set<string>, count': nat)
  {
    && visited <= visited' <= Reachable(m, start)
    && |queue| <= |queue'| && queue'[..|queue|] == queue
    && (forall k :: |queue| <= k < |queue'| ==> queue'[k] in visited')
    && (forall x :: x in visited' && x !in visited ==> x in queue')
    && (visited' == visited ==> queue' == queue)
    && count' + |visited| == count + |visited'|
  }

  /** One container: queued, marked and counted unless already visited. */
  method VisitOne(m: Graph, start: string, bag: string, b: string,
                  ghost queue: seq<string>, ghost visited: set<string>, ghost count: nat,
                  q: seq<string>, v: set<string>, c: nat)
    returns (q': seq<string>, v': set<string>, c': nat)
    requires Reaches(m, start, bag) && b in Succ(m, bag)
    requires Visiting(m, start, queue, visited, count, q, v, c)
    ensures Visiting(m, start, queue, visited, count, q', v', c')
    ensures v <= v' && b in v'
    ensures b in v ==> q' == q && v' == v && c' == c
    ensures b !in v ==> q' == q + [b] && v' == v + {b} && c' == c + 1
  {
    q', v', c' := q, v, c;
    if b !in v {
      ReachesStep(m, start, bag, b);
      q' := q + [b];
      v' := v + {b};
      c' := c + 1;
      assert q'[..|queue|] == q[..|queue|];
    }
  }

  /** What `pt1`'s search keeps true: the queued colours are visited, the
      visited colours are reached from `start`, and every visited colour
      off the queue, and `start` itself, has all its containers visited. */
  ghost predicate Searching(m: Graph, start: string, queue: seq<string>, visited: set<string>)
  {
    (forall k :: 0 <= k < |queue| ==> queue[k] in visited) &&
    Closed(m, visited, start) &&
    visited <= Reachable(m, start) &&
    (forall v :: v in visited && v !in queue ==> Closed(m, visited, v))
  }

  /** The breadth-first search of `pt1`. The queue starts as the containers
      of `start`, and so does `count`, duplicates included; afterwards every
      container not yet visited is queued, marked and counted. The visited
      set ends as the colours reached from `start`. */
  method Explore(m: Graph, start: string) returns (visited: set<string>, count: nat)
    requires start in m
    ensures visited == Reachable(m, start)
    ensures count == |visited| + Duplicates(m[start])
  {
    var queue := m[start];
    visited := Elements(queue);
    count := |queue|;
    forall x | x in visited
      ensures Reaches(m, start, x) && x in Nodes(m)
    {
      ReachesDirect(m, start, x);
    }
    while |queue| > 0
      invariant Searching(m, start, queue, visited)
      invariant count == |visited| + Duplicates(m[start])
      decreases |Nodes(m) - visited|, |queue|
    {
      queue, visited, count := ExploreStep(m, start, queue, visited, count);
    }
    ClosedHoldsReachable(m, start, visited);
  }

  /** One turn of the search: the front colour leaves the queue and its
      containers not yet visited join it. Either new colours were visited
      or the queue shrank. */
  method ExploreStep(m: Graph, start: string, queue: seq<string>, visited: set<string>, count: nat)
    returns (queue': seq<string>, visited': set<string>, count': nat)
    requires |queue| > 0 && Searching(m, start, queue, visited)
    ensures Searching(m, start, queue', visited')
    ensures count' + |visited| == count + |visited'|
    ensures visited' == visited ==> |queue'| < |queue|
    ensures visited' != visited ==> |Nodes(m) - visited'| < |Nodes(m) - visited|
  {
    var bag := queue[0];
    queue', visited', count' := queue[1..], visited, count;
    if bag in m {
      assert Reaches(m, start, bag);
      queue', visited', count' := VisitContainers(m, start, bag, queue', visited', count');
    }
    SearchKept(m, start, queue, visited, queue', visited');
    if visited' != visited {
      SearchShrinks(m, start, visited, visited');
    }
  }

  /** Taking the front colour off the queue after visiting its containers
      keeps the search's invariant. */
  lemma SearchKept(m: Graph, start: string, queue: seq<string>, visited: set<string>,
                   queue': seq<string>, visited': set<string>)
    requires |queue| > 0 && Searching(m, start, queue, visited)
    requires |queue| - 1 <= |queue'| && queue'[..|queue| - 1] == queue[1..]
    requires forall k :: |queue| - 1 <= k < |queue'| ==> queue'[k] in visited'
    requires forall x :: x in visited' && x !in visited ==> x in queue'
    requires visited <= visited' <= Reachable(m, start)
    requires Closed(m, visited', queue[0])
    ensures Searching(m, start, queue', visited')
  {
    StillQueued(queue, queue', visited, visited');
    forall v | v in visited' && v !in queue'
      ensures Closed(m, visited', v)
    {
      if v != queue[0] {
        assert v !in queue[1..];
        assert v in visited && v !in queue;
      }
    }
  }

  /** Visiting new colours leaves fewer colours of the graph unvisited. */
  lemma SearchShrinks(m: Graph, start: string, visited: set<string>, visited': set<string>)
    requires visited <= visited' <= Reachable(m, start) && visited' != visited
    ensures |Nodes(m) - visited'| < |Nodes(m) - visited|
  {
    assert Reachable(m, start) <= Nodes(m);
    ProperSubsetSize(Nodes(m) - visited', Nodes(m) - visited);
  }

  /** The colours behind the front of the queue stay queued, and stay
      visited. */
  lemma StillQueued(queue: seq<string>, queue': seq<string>, visited: set<string>, visited': set<string>)
    requires |queue| > 0 && |queue| - 1 <= |queue'| && queue'[..|queue| - 1] == queue[1..]
    requires forall k :: 0 <= k < |queue| ==> queue[k] in visited
    requires forall k :: |queue| - 1 <= k < |queue'| ==> queue'[k] in visited'
    requires visited <= visited'
    ensures forall k :: 0 <= k < |queue'| ==> queue'[k] in visited'
  {
    forall k | 0 <= k < |queue| - 1
      ensures queue'[k] in visited'
    {
      assert queue'[k] == queue'[..|queue| - 1][k] == queue[k + 1];
    }
  }

  /** Some edge names `b` as the contained colour. */
  predicate Contained(edges: seq<Edge>, b: string)
  {
    exists i :: 0 <= i < |edges| && edges[i].contained == b
  }

  /** `pt1` as written: the queue's initial length plus the colours found
      later. A colour listed twice as a direct container of the shiny gold
      bag is counted twice. */
  method Part1(edges: seq<Edge>) returns (count: nat)
    requires Contained(edges, Start)
    ensures var m := BuildReverse(edges);
      Start in m && count == |Reachable(m, Start)| + Duplicates(m[Start])
  {
    var m := BuildReverse(edges);
    var i :| 0 <= i < |edges| && edges[i].contained == Start;
    ContainersOfMembers(edges, Start, edges[i].container);
    var visited;
    visited, count := Explore(m, Start);
  }

  /** `pt1` counting the visited set instead: exactly the colours that can
      hold a shiny gold bag. */
  method Part1Distinct(edges: seq<Edge>) returns (count: nat)
    requires Contained(edges, Start)
    ensures var m := BuildReverse(edges);
      Start in m && count == |Reachable(m, Start)|
  {
    var m := BuildReverse(edges);
    var i :| 0 <= i < |edges| && edges[i].contained == Start;
    ContainersOfMembers(edges, Start, edges[i].container);
    var visited, _ := Explore(m, Start);
    count := |visited|;
  }

  /** Two clauses of one rule naming the shiny gold bag make `Part1`
      count its container twice. */
  lemma RepeatedClauseCountsTwice(edges: seq<Edge>)
    requires edges == [Edge("bright white", Start, 1), Edge("bright white", Start, 2)]
    ensures Duplicates(BuildReverse(edges)[Start]) == 1
  {
    var w := "bright white";
    ContainersOfPair(edges[0], edges[1], Start);
    assert ContainersOf(edges, Start) == [w, w];
    assert BuildReverse(edges)[Start] == [w, w];
    DuplicatesOfPair(w);
  }

  lemma ContainersOfPair(a: Edge, b: Edge, s: string)
    ensures ContainersOf([a, b], s) ==
              (if a.contained == s then [a.container] else []) +
              (if b.contained == s then [b.container] else [])
  {
    var e := [a, b];
    assert e[..1] == [a];
    assert [a][..0] == [];
    assert ContainersOf([a], s) == ContainersOf([], s) + (if a.contained == s then [a.container] else []);
    assert ContainersOf(e, s) == ContainersOf([a], s) + (if b.contained == s then [b.container] else []);
  }

  lemma DuplicatesOfPair<T>(x: T)
    ensures Duplicates([x, x]) == 1
  {
    var s := [x, x];
    assert forall y :: y in s <==> y == x;
    assert Elements(s) == {x};
    assert |Elements(s)| == 1;
  }

  // ---------------------------------------------------------------- part 2

  type Contents = map<string, seq<(string, nat)>>

  /** What `b` holds, one entry per edge out of `b`, in edge order. */
  function ContentsOf(edges: seq<Edge>, b: string): seq<(string, nat)>
  {
    if |edges| == 0 then []
    else
      var e := edges[|edges| - 1];
      ContentsOf(edges[..|edges| - 1], b) + (if e.container == b then [(e.contained, e.count)] else [])
  }

  /** The `bags_contained` map of `pt2`: for every edge, the contained
      colour and its count are pushed onto the container's list. */
  function BuildForward(edges: seq<Edge>): (m: Contents)
    ensures forall b :: b in m <==> |ContentsOf(edges, b)| > 0
    ensures forall b :: b in m ==> m[b] == ContentsOf(edges, b)
  {
    if |edges| == 0 then map[]
    else
      var m := BuildForward(edges[..|edges| - 1]);
      var e := edges[|edges| - 1];
      m[e.container := (if e.container in m then m[e.container] else []) + [(e.contained, e.count)]]
  }

  /** A ranking of some colours under which every ranked bag holds only
      ranked bags of lower rank. The colours reachable from a ranked colour
      are ranked in turn, so there is no cycle among them; colours outside
      the ranking may form cycles. */
  predicate Ranked(m: Contents, rank: map<string, nat>)
  {
    forall b :: b in m && b in rank ==> Below(rank, m[b], rank[b])
  }

  predicate Below(rank: map<string, nat>, list: seq<(string, nat)>, bound: nat)
  {
    forall i :: 0 <= i < |list| ==> list[i].0 in rank && rank[list[i].0] < bound
  }

  /** The bags inside one bag of colour `b`: for each entry (c, k) of its
      list, the k bags of colour c and everything inside them. This is the
      sum, over the containment paths out of `b`, of the product of the
      counts along the path. */
  function Inside(m: Contents, rank: map<string, nat>, b: string): nat
    requires Ranked(m, rank) && b in rank
    decreases rank[b], 1, 0
  {
    if b in m then InsideList(m, rank, m[b], rank[b]) else 0
  }

  function InsideList(m: Contents, rank: map<string, nat>, list: seq<(string, nat)>, bound: nat): nat
    requires Ranked(m, rank) && Below(rank, list, bound)
    decreases bound, 0, |list|
  {
    if |list| == 0 then 0
    else list[0].1 * (1 + Inside(m, rank, list[0].0)) + InsideList(m, rank, list[1..], bound)
  }

  /** The bags of colour `b` and inside it, counting itself once: the size
      of its containment tree. */
  function Size(m: Contents, rank: map<string, nat>, b: string): nat
    requires Ranked(m, rank) && b in rank
    decreases rank[b], 1, 0
  {
    1 + if b in m then SizeList(m, rank, m[b], rank[b]) else 0
  }

  function SizeList(m: Contents, rank: map<string, nat>, list: seq<(string, nat)>, bound: nat): nat
    requires Ranked(m, rank) && Below(rank, list, bound)
    decreases bound, 0, |list|
  {
    if |list| == 0 then 0
    else Size(m, rank, list[0].0) + SizeList(m, rank, list[1..], bound)
  }

  predicate AllRanked(rank: map<string, nat>, q: seq<(string, nat)>)
  {
    forall i :: 0 <= i < |q| ==> q[i].0 in rank
  }

  /** What the queue entries still stand for: each entry (c, k) is k bags of
      colour c and the bags inside them. */
  function Pending(m: Contents, rank: map<string, nat>, q: seq<(string, nat)>): nat
    requires Ranked(m, rank) && AllRanked(rank, q)
  {
    if |q| == 0 then 0 else q[0].1 * (1 + Inside(m, rank, q[0].0)) + Pending(m, rank, q[1..])
  }

  /** The containment trees still to walk; it falls by one per step. */
  function Load(m: Contents, rank: map<string, nat>, q: seq<(string, nat)>): nat
    requires Ranked(m, rank) && AllRanked(rank, q)
  {
    if |q| == 0 then 0 else Size(m, rank, q[0].0) + Load(m, rank, q[1..])
  }

  lemma {:induction false} InsideListIsPending(m: Contents, rank: map<string, nat>, list: seq<(string, nat)>, bound: nat)
    requires Ranked(m, rank) && Below(rank, list, bound)
    ensures AllRanked(rank, list)
    ensures InsideList(m, rank, list, bound) == Pending(m, rank, list)
    ensures SizeList(m, rank, list, bound) == Load(m, rank, list)
    decreases |list|
  {
    if |list| > 0 {
      InsideListIsPending(m, rank, list[1..], bound);
    }
  }

  lemma {:induction false} PendingAppend(m: Contents, rank: map<string, nat>, a: seq<(string, nat)>, b: seq<(string, nat)>)
    requires Ranked(m, rank) && AllRanked(rank, a) && AllRanked(rank, b)
    ensures AllRanked(rank, a + b)
    ensures Pending(m, rank, a + b) == Pending(m, rank, a) + Pending(m, rank, b)
    ensures Load(m, rank, a + b) == Load(m, rank, a) + Load(m, rank, b)
    decreases |a|
  {
    if |a| > 0 {
      assert (a + b)[0] == a[0];
      assert (a + b)[1..] == a[1..] + b;
      PendingAppend(m, rank, a[1..], b);
    } else {
      assert a + b == b;
    }
  }

  /** Every count of the list multiplied by `k`. */
  function Scale(list: seq<(string, nat)>, k: nat): (r: seq<(string, nat)>)
    ensures |r| == |list|
    ensures forall i :: 0 <= i < |list| ==> r[i] == (list[i].0, k * list[i].1)
  {
    seq(|list|, i requires 0 <= i < |list| => (list[i].0, k * list[i].1))
  }

  lemma {:induction false} PendingScale(m: Contents, rank: map<string, nat>, list: seq<(string, nat)>, k: nat)
    requires Ranked(m, rank) && AllRanked(rank, list)
    ensures AllRanked(rank, Scale(list, k))
    ensures Pending(m, rank, Scale(list, k)) == k * Pending(m, rank, list)
    ensures Load(m, rank, Scale(list, k)) == Load(m, rank, list)
    decreases |list|
  {
    if |list| > 0 {
      var s := Scale(list, k);
      assert s[1..] == Scale(list[1..], k);
      PendingScale(m, rank, list[1..], k);
      var c, n := list[0].0, list[0].1;
      var inside := Inside(m, rank, c);
      ScaleTerm(k, n, 1 + inside, Pending(m, rank, list[1..]));
    }
  }

  lemma ScaleTerm(k: nat, n: nat, w: nat, rest: nat)
    ensures (k * n) * w + k * rest == k * (n * w + rest)
  {
  }

  /** What entry (b, k) queues when taken off the front. */
  function Pushed(m: Contents, b: string, k: nat): seq<(string, nat)>
  {
    if b in m then Scale(m[b], k) else []
  }

  /** One step of `pt2`'s queue: the front entry (b, k) adds k to the count,
      and the entries of b's list return with their counts multiplied by k. */
  lemma QueueStep(m: Contents, rank: map<string, nat>, q: seq<(string, nat)>, b: string, k: nat)
    requires Ranked(m, rank) && AllRanked(rank, q) && |q| > 0 && q[0] == (b, k)
    ensures AllRanked(rank, q[1..] + Pushed(m, b, k))
    ensures Pending(m, rank, q) == k + Pending(m, rank, q[1..] + Pushed(m, b, k))
    ensures Load(m, rank, q) == 1 + Load(m, rank, q[1..] + Pushed(m, b, k))
  {
    QueuePending(m, rank, q, b, k);
    QueueLoad(m, rank, q, b, k);
  }

  lemma QueuePending(m: Contents, rank: map<string, nat>, q: seq<(string, nat)>, b: string, k: nat)
    requires Ranked(m, rank) && AllRanked(rank, q) && |q| > 0 && q[0] == (b, k)
    ensures AllRanked(rank, q[1..] + Pushed(m, b, k))
    ensures Pending(m, rank, q) == k + Pending(m, rank, q[1..] + Pushed(m, b, k))
  {
    PendingFront(m, rank, q, b, k);
    PushedWeight(m, rank, b, k);
    PendingAppend(m, rank, q[1..], Pushed(m, b, k));
    Distribute1(k, Inside(m, rank, b));
  }

  lemma QueueLoad(m: Contents, rank: map<string, nat>, q: seq<(string, nat)>, b: string, k: nat)
    requires Ranked(m, rank) && AllRanked(rank, q) && |q| > 0 && q[0] == (b, k)
    ensures AllRanked(rank, q[1..] + Pushed(m, b, k))
    ensures Load(m, rank, q) == 1 + Load(m, rank, q[1..] + Pushed(m, b, k))
  {
    PendingFront(m, rank, q, b, k);
    PushedWeight(m, rank, b, k);
    PendingAppend(m, rank, q[1..], Pushed(m, b, k));
  }

  /** The front entry of a queue and the rest. */
  lemma PendingFront(m: Contents, rank: map<string, nat>, q: seq<(string, nat)>, b: string, k: nat)
    requires Ranked(m, rank) && AllRanked(rank, q) && |q| > 0 && q[0] == (b, k)
    ensures b in rank && AllRanked(rank, q[1..])
    ensures Pending(m, rank, q) == Mul(k, 1 + Inside(m, rank, b)) + Pending(m, rank, q[1..])
    ensures Load(m, rank, q) == Size(m, rank, b) + Load(m, rank, q[1..])
  {
  }

  /** What the front entry (b, k) puts back on the queue stands for k times
      the bags inside b, and one tree less than b's. */
  lemma PushedWeight(m: Contents, rank: map<string, nat>, b: string, k: nat)
    requires Ranked(m, rank) && b in rank
    ensures AllRanked(rank, Pushed(m, b, k))
    ensures Pending(m, rank, Pushed(m, b, k)) == Mul(k, Inside(m, rank, b))
    ensures Load(m, rank, Pushed(m, b, k)) + 1 == Size(m, rank, b)
  {
    if b in m {
      InsideListIsPending(m, rank, m[b], rank[b]);
      PendingScale(m, rank, m[b], k);
    } else {
      assert Pushed(m, b, k) == [];
    }
  }

  lemma Distribute1(k: nat, x: nat)
    ensures Mul(k, 1 + x) == k + Mul(k, x)
  {
  }

  /** The queue walk of `pt2`: start from the shiny gold bag's list, and for
      each entry taken off the front add its count and queue what it holds,
      scaled by that count. */
  method CountInside(m: Contents, ghost rank: map<string, nat>, start: string) returns (count: nat)
    requires Ranked(m, rank) && start in m && start in rank
    ensures count == Inside(m, rank, start)
  {
    var queue: seq<(string, nat)> := [];
    var list := m[start];
    var i := 0;
    while i < |list|
      invariant 0 <= i <= |list|
      invariant queue == list[..i]
    {
      queue := queue + [list[i]];
      i := i + 1;
    }
    assert queue == list;
    InsideListIsPending(m, rank, list, rank[start]);
    count := 0;
    while |queue| > 0
      invariant AllRanked(rank, queue)
      invariant count + Pending(m, rank, queue) == Inside(m, rank, start)
      decreases Load(m, rank, queue)
    {
      var (bag, k) := queue[0];
      QueueStep(m, rank, queue, bag, k);
      queue := queue[1..];
      count := count + k;
      if bag in m {
        var contents := m[bag];
        ghost var rest := queue;
        var j := 0;
        while j < |contents|
          invariant 0 <= j <= |contents|
          invariant queue == rest + Scale(contents, k)[..j]
        {
          assert Scale(contents, k)[..j + 1] == Scale(contents, k)[..j] + [(contents[j].0, k * contents[j].1)];
          queue := queue + [(contents[j].0, k * contents[j].1)];
          j := j + 1;
        }
        assert Scale(contents, k)[..j] == Scale(contents, k);
      } else {
        assert queue + [] == queue;
      }
    }
  }

  /** Some edge names `b` as the container. */
  predicate Contains(edges: seq<Edge>, b: string)
  {
    exists i :: 0 <= i < |edges| && edges[i].container == b
  }

  /** `pt2`: the bags inside a shiny gold bag. The walk ends only when the
      rules reachable from it have no cycle, so a ranking of those colours
      is required. */
  method Part2(edges: seq<Edge>, ghost rank: map<string, nat>) returns (count: nat)
    requires Contains(edges, Start) && Ranked(BuildForward(edges), rank) && Start in rank
    ensures var m := BuildForward(edges);
      Start in m && count == Inside(m, rank, Start)
  {
    var m := BuildForward(edges);
    var i :| 0 <= i < |edges| && edges[i].container == Start;
    ContentsOfHas(edges, i);
    count := CountInside(m, rank, Start);
  }

  lemma {:induction false} ContentsOfHas(edges: seq<Edge>, i: nat)
    requires i < |edges|
    ensures |ContentsOf(edges, edges[i].container)| > 0
    decreases |edges|
  {
    if i < |edges| - 1 {
      ContentsOfHas(edges[..|edges| - 1], i);
    }
  }

  // -------------------------------------------------------------- examples

  /** The rules of the first worked example, as `pt1` files them and as
      `pt2` files them. */
  const ExampleIn: Graph := map[
    "bright white" := ["light red", "dark orange"],
    "muted yellow" := ["light red", "dark orange"],
    "shiny gold" := ["bright white", "muted yellow"],
    "faded blue" := ["muted yellow", "dark olive", "vibrant plum"],
    "dark olive" := ["shiny gold"],
    "vibrant plum" := ["shiny gold"],
    "dotted black" := ["dark olive", "vibrant plum"]]

  const ExampleContents: Contents := map[
    "light red" := [("bright white", 1), ("muted yellow", 2)],
    "dark orange" := [("bright white", 3), ("muted yellow", 4)],
    "bright white" := [("shiny gold", 1)],
    "muted yellow" := [("shiny gold", 2), ("faded blue", 9)],
    "shiny gold" := [("dark olive", 1), ("vibrant plum", 2)],
    "dark olive" := [("faded blue", 3), ("dotted black", 4)],
    "vibrant plum" := [("faded blue", 5), ("dotted black", 6)]]

  const ExampleRank: map<string, nat> := map[
    "faded blue" := 0, "dotted black" := 0, "dark olive" := 1, "vibrant plum" := 1,
    "shiny gold" := 2, "bright white" := 3, "muted yellow" := 3,
    "light red" := 4, "dark orange" := 4]

  /** Four colours can hold a shiny gold bag: bright white and muted yellow
      directly, light red and dark orange through them. */
  lemma ExamplePart1(m: Graph)
    requires m == ExampleIn
    ensures |Reachable(m, Start)| + Duplicates(m[Start]) == 4
  {
    var s: set<string> := {"bright white", "muted yellow", "light red", "dark orange"};
    ExampleReached(m);
    ExampleClosed(m, s);
    assert Reachable(m, Start) == s;
    ExampleFour(s);
    ExampleNoRepeat(m);
  }

  lemma ExampleFour(s: set<string>)
    requires s == {"bright white", "muted yellow", "light red", "dark orange"}
    ensures |s| == 4
  {
  }

  lemma ExampleNoRepeat(m: Graph)
    requires m == ExampleIn
    ensures Start in m && Duplicates(m[Start]) == 0
  {
    ExampleSucc(m);
    assert Elements(m[Start]) == {"bright white", "muted yellow"};
  }

  lemma ExampleReached(m: Graph)
    requires m == ExampleIn
    ensures {"bright white", "muted yellow", "light red", "dark orange"} <= Reachable(m, Start)
  {
    ExampleSucc(m);
    ReachedInTwo(m, Start, "bright white", "muted yellow", "light red", "dark orange");
  }

  lemma ExampleSucc(m: Graph)
    requires m == ExampleIn
    ensures Succ(m, Start) == ["bright white", "muted yellow"]
    ensures Succ(m, "bright white") == ["light red", "dark orange"]
  {
  }

  lemma ReachedInTwo(m: Graph, from: string, a: string, b: string, c: string, d: string)
    requires Succ(m, from) == [a, b] && Succ(m, a) == [c, d]
    ensures {a, b, c, d} <= Reachable(m, from)
  {
    ReachesDirect(m, from, a);
    ReachesDirect(m, from, b);
    ReachesStep(m, from, a, c);
    ReachesStep(m, from, a, d);
  }

  lemma ExampleClosed(m: Graph, s: set<string>)
    requires m == ExampleIn
    requires s == {"bright white", "muted yellow", "light red", "dark orange"}
    ensures Reachable(m, Start) <= s
  {
    assert Succ(m, "light red") == [] && Succ(m, "dark orange") == [];
    ClosedHoldsReachable(m, Start, s);
  }

  lemma InsideOne(m: Contents, rank: map<string, nat>, b: string, c: string, k: nat)
    requires Ranked(m, rank) && b in m && b in rank && m[b] == [(c, k)]
    ensures c in rank && Inside(m, rank, b) == Mul(k, 1 + Inside(m, rank, c))
  {
    assert m[b] == [(c, k)] + [];
    InsideListCons(m, rank, m[b], rank[b], c, k, []);
  }

  lemma InsideTwo(m: Contents, rank: map<string, nat>, b: string, c: string, k: nat, d: string, l: nat)
    requires Ranked(m, rank) && b in m && b in rank && m[b] == [(c, k), (d, l)]
    ensures c in rank && d in rank
    ensures Inside(m, rank, b) == Mul(k, 1 + Inside(m, rank, c)) + Mul(l, 1 + Inside(m, rank, d))
  {
    var bound := rank[b];
    var rest: seq<(string, nat)> := [(d, l)];
    assert m[b] == [(c, k)] + rest;
    InsideListCons(m, rank, m[b], bound, c, k, rest);
    InsideListCons(m, rank, rest, bound, d, l, []);
  }

  /** A cycle that shiny gold cannot reach does not stop the walk: with
      the rules "shiny gold holds 1 a", "x holds 1 y" and "y holds 1 x",
      ranking shiny gold and a alone meets the requirement, and a shiny gold
      bag holds one bag. */
  lemma UnreachableCycle(m: Contents, rank: map<string, nat>)
    requires m == map[Start := [("a", 1)], "x" := [("y", 1)], "y" := [("x", 1)]]
    requires rank == map[Start := 1, "a" := 0]
    ensures Ranked(m, rank) && Start in m && Start in rank
    ensures Inside(m, rank, Start) == 1
  {
    assert Ranked(m, rank);
    InsideOne(m, rank, Start, "a", 1);
  }

  /** A list is its first entry followed by the rest. */
  lemma InsideListCons(m: Contents, rank: map<string, nat>, list: seq<(string, nat)>, bound: nat,
                       c: string, k: nat, rest: seq<(string, nat)>)
    requires Ranked(m, rank) && Below(rank, list, bound) && list == [(c, k)] + rest
    ensures c in rank && Below(rank, rest, bound)
    ensures InsideList(m, rank, list, bound) == Mul(k, 1 + Inside(m, rank, c)) + InsideList(m, rank, rest, bound)
  {
    assert list[0] == (c, k) && list[1..] == rest;
  }

  /** A shiny gold bag of the first example holds 32 bags: one dark olive
      with its 7, and two vibrant plum with their 11 each. */
  lemma ExamplePart2(m: Contents, rank: map<string, nat>)
    requires m == ExampleContents && rank == ExampleRank
    ensures Ranked(m, rank) && Inside(m, rank, Start) == 32
  {
    ExampleRanked(m, rank);
    ExampleMiddle(m, rank);
    InsideTwo(m, rank, Start, "dark olive", 1, "vibrant plum", 2);
  }

  /** The colours the shiny gold bag holds: a dark olive holds 7 bags, a
      vibrant plum 11. */
  lemma ExampleMiddle(m: Contents, rank: map<string, nat>)
    requires m == ExampleContents && rank == ExampleRank && Ranked(m, rank)
    ensures Inside(m, rank, "dark olive") == 7 && Inside(m, rank, "vibrant plum") == 11
  {
    ExampleLeaves(m, rank);
    ExampleOlive(m, rank);
    ExamplePlum(m, rank);
  }

  lemma ExampleOlive(m: Contents, rank: map<string, nat>)
    requires m == ExampleContents && rank == ExampleRank && Ranked(m, rank)
    requires Inside(m, rank, "faded blue") == 0 && Inside(m, rank, "dotted black") == 0
    ensures Inside(m, rank, "dark olive") == 7
  {
    InsideTwo(m, rank, "dark olive", "faded blue", 3, "dotted black", 4);
  }

  lemma ExamplePlum(m: Contents, rank: map<string, nat>)
    requires m == ExampleContents && rank == ExampleRank && Ranked(m, rank)
    requires Inside(m, rank, "faded blue") == 0 && Inside(m, rank, "dotted black") == 0
    ensures Inside(m, rank, "vibrant plum") == 11
  {
    InsideTwo(m, rank, "vibrant plum", "faded blue", 5, "dotted black", 6);
  }

  lemma ExampleLeaves(m: Contents, rank: map<string, nat>)
    requires m == ExampleContents && rank == ExampleRank && Ranked(m, rank)
    ensures Inside(m, rank, "faded blue") == 0 && Inside(m, rank, "dotted black") == 0
  {
    ExampleNotListed(m);
    InsideLeaf(m, rank, "faded blue");
    InsideLeaf(m, rank, "dotted black");
  }

  /** Neither faded blue nor dotted black has a rule of its own. */
  lemma ExampleNotListed(m: Contents)
    requires m == ExampleContents
    ensures "faded blue" !in m && "dotted black" !in m
  {
  }

  /** A colour without a rule holds nothing. */
  lemma InsideLeaf(m: Contents, rank: map<string, nat>, b: string)
    requires Ranked(m, rank) && b in rank && b !in m
    ensures Inside(m, rank, b) == 0
  {
  }

  lemma ExampleRanked(m: Contents, rank: map<string, nat>)
    requires m == ExampleContents && rank == ExampleRank
    ensures Ranked(m, rank)
  {
    forall b | b in m
      ensures b in rank && Below(rank, m[b], rank[b])
    {
      ExampleRankedAt(m, rank, b);
    }
  }

  lemma ExampleRankedAt(m: Contents, rank: map<string, nat>, b: string)
    requires m == ExampleContents && rank == ExampleRank && b in m
    ensures b in rank && Below(rank, m[b], rank[b])
  {
  }

  /** The rules of the second example: a chain of six colours each holding
      two of the next. */
  const ChainContents: Contents := map[
    "shiny gold" := [("dark red", 2)], "dark red" := [("dark orange", 2)],
    "dark orange" := [("dark yellow", 2)], "dark yellow" := [("dark green", 2)],
    "dark green" := [("dark blue", 2)], "dark blue" := [("dark violet", 2)]]

  const ChainRank: map<string, nat> := map[
    "shiny gold" := 6, "dark red" := 5, "dark orange" := 4,
    "dark yellow" := 3, "dark green" := 2, "dark blue" := 1, "dark violet" := 0]

  /** In the second example a shiny gold bag holds 2 + 4 + ... + 64 = 126
      bags. */
  lemma ExampleChain(m: Contents, rank: map<string, nat>)
    requires m == ChainContents && rank == ChainRank
    ensures Ranked(m, rank) && Inside(m, rank, Start) == 126
  {
    ChainRanked(m, rank);
    ChainLower(m, rank);
    ChainMiddle(m, rank);
    InsideOne(m, rank, "dark red", "dark orange", 2);
    InsideOne(m, rank, Start, "dark red", 2);
  }

  lemma ChainRanked(m: Contents, rank: map<string, nat>)
    requires m == ChainContents && rank == ChainRank
    ensures Ranked(m, rank)
  {
    forall b | b in m
      ensures b in rank && Below(rank, m[b], rank[b])
    {
      ChainRankedAt(m, rank, b);
    }
  }

  lemma ChainRankedAt(m: Contents, rank: map<string, nat>, b: string)
    requires m == ChainContents && rank == ChainRank && b in m
    ensures b in rank && Below(rank, m[b], rank[b])
  {
  }

  /** The bottom of the chain: a dark green bag holds 6 bags. */
  lemma ChainLower(m: Contents, rank: map<string, nat>)
    requires m == ChainContents && rank == ChainRank && Ranked(m, rank)
    ensures Inside(m, rank, "dark green") == 6
  {
    assert Inside(m, rank, "dark violet") == 0;
    InsideOne(m, rank, "dark blue", "dark violet", 2);
    InsideOne(m, rank, "dark green", "dark blue", 2);
  }

  /** The middle of the chain: a dark orange bag holds 30 bags. */
  lemma ChainMiddle(m: Contents, rank: map<string, nat>)
    requires m == ChainContents && rank == ChainRank && Ranked(m, rank)
    requires Inside(m, rank, "dark green") == 6
    ensures Inside(m, rank, "dark orange") == 30
  {
    InsideOne(m, rank, "dark yellow", "dark green", 2);
    InsideOne(m, rank, "dark orange", "dark yellow", 2);
  }
}
