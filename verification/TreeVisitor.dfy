/** `TreeVisitor.visitArray`: children are visited and replaced in the array that is being walked. */
module TreeVisitorModule {
  /** What visiting one node gives back: nothing, an array, known by its identity, with the nodes the visitor
      put into it, or one node. */
  datatype Visited<T> = Falsy | Many(id: nat, nodes: seq<T>) | One(node: T)

  /** A visitor may change its own state, so the state is passed along. */
  type Visitor<!S, !T> = (S, T) -> (S, Visited<T>)

  function Replacement<T>(r: Visited<T>): seq<T> {
    match r
    case Falsy => []
    case Many(_, ns) => ns
    case One(n) => [n]
  }

  /** Each original node once, in order, its results in its place. */
  function FlatMap<S, T>(visit: Visitor<S, T>, state: S, nodes: seq<T>): (S, seq<T>)
    decreases |nodes|
  {
    if nodes == [] then (state, []) else
      var first := visit(state, nodes[0]);
      var rest := FlatMap(visit, first.0, nodes[1..]);
      (rest.0, Replacement(first.1) + rest.1)
  }

  /** The same visitor, keeping a list of the nodes it was asked to visit. */
  function Logging<S, T>(visit: Visitor<S, T>): Visitor<(S, seq<T>), T> {
    (state: (S, seq<T>), node: T) =>
      var r := visit(state.0, node);
      ((r.0, state.1 + [node]), r.1)
  }

  /** The walk visits exactly the original nodes, in order, and listing them changes nothing else. */
  lemma {:induction false} VisitsEachOnce<S, T>(visit: Visitor<S, T>, state: S, log: seq<T>, nodes: seq<T>)
    ensures var plain := FlatMap(visit, state, nodes);
            FlatMap(Logging(visit), (state, log), nodes) == ((plain.0, log + nodes), plain.1)
    decreases |nodes|
  {
    if nodes == [] {
      assert log + nodes == log;
    } else {
      var first := visit(state, nodes[0]);
      VisitsEachOnce(visit, first.0, log + [nodes[0]], nodes[1..]);
      assert log + [nodes[0]] + nodes[1..] == log + nodes;
    }
  }

  // ----- the walk in place -----

  /** What an array may hold: nodes, and the splice arguments put in front of them. */
  datatype Item<T> = Node(node: T) | Number(value: nat)

  /** The arrays that have been spliced in, with what they hold since. */
  type Spliced<T> = map<nat, seq<Item<T>>>

  function Nodes<T>(ns: seq<T>): (r: seq<Item<T>>)
    ensures |r| == |ns| && forall i :: 0 <= i < |ns| ==> r[i] == Node(ns[i])
  {
    seq(|ns|, i requires 0 <= i < |ns| => Node(ns[i]))
  }

  /** What goes into the walked array for a result. */
  function Items<T>(arrays: Spliced<T>, r: Visited<T>): seq<Item<T>> {
    match r
    case Falsy => []
    case One(n) => [Node(n)]
    case Many(a, ns) => if a in arrays then arrays[a] else Nodes(ns)
  }

  /** The array that was spliced in at `i` keeps the arguments of the splice. */
  function AfterSplice<T>(arrays: Spliced<T>, r: Visited<T>, i: nat): Spliced<T> {
    if r.Many? && Items(arrays, r) != [] then arrays[r.id := [Number(i), Number(1)] + Items(arrays, r)] else arrays
  }

  datatype Result<S, T> = Result(state: S, arrays: Spliced<T>, items: seq<Item<T>>)

  /** The nodes from position `i` of the walked array on. */
  function Walk<S, T>(visit: Visitor<S, T>, state: S, arrays: Spliced<T>, nodes: seq<T>, i: nat): Result<S, T>
    decreases |nodes|
  {
    if nodes == [] then Result(state, arrays, []) else
      var first := visit(state, nodes[0]);
      var items := Items(arrays, first.1);
      var rest := Walk(visit, first.0, AfterSplice(arrays, first.1, i), nodes[1..], i + |items|);
      Result(rest.state, rest.arrays, items + rest.items)
  }

  /** Some visit hands out an array that is in `used` or was handed out, not empty, by an earlier visit. */
  predicate HandsOutAgain<S, T>(visit: Visitor<S, T>, state: S, used: set<nat>, nodes: seq<T>)
    decreases |nodes|
  {
    nodes != [] &&
    var first := visit(state, nodes[0]);
    || (first.1.Many? && first.1.id in used)
    || HandsOutAgain(visit, first.0, used + Used(first.1), nodes[1..])
  }

  function Used<T>(r: Visited<T>): set<nat> {
    if r.Many? && r.nodes != [] then {r.id} else {}
  }

  predicate OnlyNodes<T>(items: seq<Item<T>>) {
    forall i :: 0 <= i < |items| ==> items[i].Node?
  }

  /** The arrays that have been spliced in start with a number. */
  ghost predicate AllMarked<T>(arrays: Spliced<T>) {
    forall a :: a in arrays ==> !OnlyNodes(arrays[a])
  }

  /** The walk in place gives the flat map of the results exactly when no array is handed out again after it
      has been spliced in: such an array starts with the arguments of its splice. */
  lemma WalkIsFlatMap<S, T>(visit: Visitor<S, T>, state: S, arrays: Spliced<T>, nodes: seq<T>, i: nat)
    requires AllMarked(arrays)
    ensures var w := Walk(visit, state, arrays, nodes, i);
            w.items == Nodes(FlatMap(visit, state, nodes).1) <==> !HandsOutAgain(visit, state, arrays.Keys, nodes)
  {
    hide Walk, FlatMap, HandsOutAgain;
    if HandsOutAgain(visit, state, arrays.Keys, nodes) {
      AgainShows(visit, state, arrays, nodes, i);
    } else {
      FreshWalk(visit, state, arrays, nodes, i);
    }
  }

  lemma UsedAfter<T>(arrays: Spliced<T>, r: Visited<T>, i: nat)
    requires !(r.Many? && r.id in arrays)
    ensures Items(arrays, r) == Nodes(Replacement(r)) && AfterSplice(arrays, r, i).Keys == arrays.Keys + Used(r)
  {
  }

  lemma {:induction false} FreshWalk<S, T>(visit: Visitor<S, T>, state: S, arrays: Spliced<T>, nodes: seq<T>, i: nat)
    requires !HandsOutAgain(visit, state, arrays.Keys, nodes)
    ensures var w := Walk(visit, state, arrays, nodes, i);
            (w.state, w.items) == (FlatMap(visit, state, nodes).0, Nodes(FlatMap(visit, state, nodes).1))
    decreases |nodes|
  {
    if nodes != [] {
      var first := visit(state, nodes[0]);
      UsedAfter(arrays, first.1, i);
      hide Items, AfterSplice, Used, Replacement;
      FreshWalk(visit, first.0, AfterSplice(arrays, first.1, i), nodes[1..], i + |Items(arrays, first.1)|);
      NodesConcat(Replacement(first.1), FlatMap(visit, first.0, nodes[1..]).1);
    }
  }

  lemma NodesConcat<T>(a: seq<T>, b: seq<T>)
    ensures Nodes(a + b) == Nodes(a) + Nodes(b)
  {
  }

  lemma {:induction false} AgainShows<S, T>(visit: Visitor<S, T>, state: S, arrays: Spliced<T>, nodes: seq<T>, i: nat)
    requires AllMarked(arrays) && HandsOutAgain(visit, state, arrays.Keys, nodes)
    ensures !OnlyNodes(Walk(visit, state, arrays, nodes, i).items)
    decreases |nodes|
  {
    var first := visit(state, nodes[0]);
    var items := Items(arrays, first.1);
    var later := AfterSplice(arrays, first.1, i);
    var rest := Walk(visit, first.0, later, nodes[1..], i + |items|).items;
    assert Walk(visit, state, arrays, nodes, i).items == items + rest;
    OnlyNodesConcat(items, rest);
    if first.1.Many? && first.1.id in arrays {
      hide Walk, OnlyNodes;
      assert items == arrays[first.1.id];
    } else {
      UsedAfter(arrays, first.1, i);
      StaysMarked(arrays, first.1, i);
      hide Items, AfterSplice, OnlyNodes, AllMarked, Walk;
      AgainShows(visit, first.0, later, nodes[1..], i + |items|);
    }
  }

  lemma OnlyNodesConcat<T>(a: seq<Item<T>>, b: seq<Item<T>>)
    ensures OnlyNodes(a + b) <==> OnlyNodes(a) && OnlyNodes(b)
  {
    if OnlyNodes(a + b) {
      assert forall i :: 0 <= i < |a| ==> a[i] == (a + b)[i];
      assert forall i :: 0 <= i < |b| ==> b[i] == (a + b)[|a| + i];
    }
  }

  lemma StaysMarked<T>(arrays: Spliced<T>, r: Visited<T>, i: nat)
    requires AllMarked(arrays)
    ensures AllMarked(AfterSplice(arrays, r, i))
  {
    if r.Many? && Items(arrays, r) != [] {
      assert AfterSplice(arrays, r, i)[r.id][0] == Number(i);
    }
  }

  /** An array handed out for two neighbours goes in whole the first time, and behind the index and the count of
      that first splice the second time. */
  lemma HandedOutTwice<S, T>(visit: Visitor<S, T>, state: S, x: T, y: T, id: nat, ns: seq<T>, i: nat)
    requires ns != [] && visit(state, x).1 == Many(id, ns) && visit(visit(state, x).0, y).1 == Many(id, ns)
    ensures Walk(visit, state, map[], [x, y], i).items
         == Nodes(ns) + ([Number(i), Number(1)] + Nodes(ns))
  {
    var first := visit(state, x);
    var second := visit(first.0, y);
    var arrays := AfterSplice(map[], first.1, i);
    var end := Walk(visit, second.0, AfterSplice(arrays, second.1, i + |ns|), [], i + |ns| + |ns| + 2);
    assert [x, y][1..] == [y] && [y][1..] == [];
    assert Walk(visit, first.0, arrays, [y], i + |ns|).items == Items(arrays, second.1) + end.items;
  }

  // ----- what the flat map is -----

  /** The results of two parts stand one behind the other. */
  lemma {:induction false} FlatMapConcat<S, T>(visit: Visitor<S, T>, state: S, a: seq<T>, b: seq<T>)
    ensures var left := FlatMap(visit, state, a);
            var right := FlatMap(visit, left.0, b);
            FlatMap(visit, state, a + b) == (right.0, left.1 + right.1)
    decreases |a|
  {
    if a == [] {
      assert a + b == b;
      assert [] + FlatMap(visit, state, b).1 == FlatMap(visit, state, b).1;
    } else {
      assert (a + b)[0] == a[0] && (a + b)[1..] == a[1..] + b;
      var first := visit(state, a[0]);
      FlatMapConcat(visit, first.0, a[1..], b);
      var rest := FlatMap(visit, first.0, a[1..]);
      assert Replacement(first.1) + (rest.1 + FlatMap(visit, rest.0, b).1)
          == (Replacement(first.1) + rest.1) + FlatMap(visit, rest.0, b).1;
    }
  }

  /** A node gives way to its result, to the elements of an array, or to nothing. */
  lemma SingleNode<S, T>(visit: Visitor<S, T>, state: S, n: T)
    ensures var v := visit(state, n);
            var r := FlatMap(visit, state, [n]);
            && r.0 == v.0
            && (v.1.Falsy? ==> r.1 == []) && (v.1.One? ==> r.1 == [v.1.node]) && (v.1.Many? ==> r.1 == v.1.nodes)
  {
    assert [n][1..] == [];
    assert FlatMap(visit, visit(state, n).0, []) == (visit(state, n).0, []);
  }

  class NodeList<T> {
    var nodes: seq<T>

    constructor (initial: seq<T>)
      ensures nodes == initial
    {
      nodes := initial;
    }

    method Splice(start: nat, deleteCount: nat, items: seq<T>)
      requires start + deleteCount <= |nodes|
      modifies this
      ensures nodes == old(nodes[..start]) + items + old(nodes[start + deleteCount..])
    {
      nodes := nodes[..start] + items + nodes[start + deleteCount..];
    }
  }

  class TreeVisitor<S, T> {
    var state: S
    var arrays: Spliced<T>
    const visit: Visitor<S, T>

    constructor (initial: S, visit: Visitor<S, T>)
      ensures state == initial && arrays == map[] && this.visit == visit
    {
      this.state := initial;
      this.arrays := map[];
      this.visit := visit;
    }

    /** Visits one node, with whatever that changes in the visitor. */
    method Visit(node: T) returns (r: Visited<T>)
      modifies `state
      ensures (state, r) == visit(old(state), node)
    {
      var v := visit(state, node);
      state := v.0;
      r := v.1;
    }

    /** One turn of the walk: visit the node at `i` and put what comes of it in its place. */
    method VisitAt(arr: NodeList<Item<T>>, i: nat) returns (next: nat)
      requires i < |arr.nodes| && arr.nodes[i].Node?
      modifies this, arr
      ensures var v := visit(old(state), old(arr.nodes[i].node));
              var items := Items(old(arrays), v.1);
              && state == v.0 && arrays == AfterSplice(old(arrays), v.1, i) && next == i + |items|
              && arr.nodes == old(arr.nodes[..i]) + items + old(arr.nodes[i + 1..])
    {
      var tmp := Visit(arr.nodes[i].node);
      next := i;
      if tmp.Falsy? {
        arr.Splice(i, 1, []);
      } else if tmp.Many? {
        var items := Items(arrays, tmp);
        if |items| > 0 {
          arrays := arrays[tmp.id := [Number(i), Number(1)] + items];
          arr.Splice(i, 1, items);
          next := i + |items|;
        } else {
          arr.Splice(i, 1, []);
        }
      } else {
        arr.nodes := arr.nodes[i := Node(tmp.node)];
        next := i + 1;
      }
    }

    /** The array is spliced while it is walked, and the arrays spliced in are changed. */
    method VisitArray(arr: NodeList<Item<T>>, ghost nodes: seq<T>)
      requires arr.nodes == Nodes(nodes)
      modifies this, arr
      ensures Result(state, arrays, arr.nodes) == Walk(visit, old(state), old(arrays), nodes, 0)
    {
      hide Walk, Walked, Items, AfterSplice;
      var i := 0;
      var e := |arr.nodes|;
      ghost var k := 0;
      ghost var all := Walk(visit, state, arrays, nodes, 0);
      WalkBegins(visit, state, arrays, nodes);
      while i < e
        invariant 0 <= i <= e == |arr.nodes| && 0 <= k <= |nodes| && arr.nodes[i..] == Nodes(nodes[k..])
        invariant Walked(visit, state, arrays, nodes, k, arr.nodes[..i], all)
        decreases e - i
      {
        ghost var before, at := arr.nodes, i;
        assert arr.nodes[i] == arr.nodes[i..][0] == Node(nodes[k]);
        WalkStep(visit, state, arrays, nodes, k, arr.nodes[..i], all);
        AfterStep(before, at, Items(arrays, visit(state, nodes[k]).1), nodes, k);
        i := VisitAt(arr, i);
        e := |arr.nodes|;
        k := k + 1;
      }
      assert arr.nodes[..i] == arr.nodes && |Nodes(nodes[k..])| == 0;
      WalkEnds(visit, state, arrays, nodes, arr.nodes, all);
    }

    /** The variant that keeps one result for each element. */
    method VisitArrayKeep(nodes: seq<T>) returns (r: seq<Visited<T>>)
      modifies this
      ensures (state, r) == MapKeep(visit, old(state), nodes)
    {
      r := [];
      ghost var all := MapKeep(visit, state, nodes);
      var i := 0;
      assert nodes[0..] == nodes && r + all.1 == all.1;
      while i < |nodes|
        invariant 0 <= i <= |nodes|
        invariant var rest := MapKeep(visit, state, nodes[i..]);
                  all == (rest.0, r + rest.1)
      {
        assert nodes[i..][1..] == nodes[i + 1..];
        var tmp := Visit(nodes[i]);
        ghost var rest := MapKeep(visit, state, nodes[i + 1..]).1;
        assert r + ([tmp] + rest) == (r + [tmp]) + rest;
        r := r + [tmp];
        i := i + 1;
      }
      assert nodes[i..] == [] && r + [] == r;
    }
  }

  function MapKeep<S, T>(visit: Visitor<S, T>, state: S, nodes: seq<T>): (S, seq<Visited<T>>)
    decreases |nodes|
  {
    if nodes == [] then (state, []) else
      var first := visit(state, nodes[0]);
      var rest := MapKeep(visit, first.0, nodes[1..]);
      (rest.0, [first.1] + rest.1)
  }

  function Flatten<T>(rs: seq<Visited<T>>): seq<T> {
    if rs == [] then [] else Replacement(rs[0]) + Flatten(rs[1..])
  }

  /** The in-place variant is the other one flattened. */
  lemma {:induction false} FlatMapFlattensKeep<S, T>(visit: Visitor<S, T>, state: S, nodes: seq<T>)
    ensures var kept := MapKeep(visit, state, nodes);
            |kept.1| == |nodes| && FlatMap(visit, state, nodes) == (kept.0, Flatten(kept.1))
    decreases |nodes|
  {
    if nodes != [] {
      var first := visit(state, nodes[0]);
      FlatMapFlattensKeep(visit, first.0, nodes[1..]);
      var rest := MapKeep(visit, first.0, nodes[1..]);
      assert ([first.1] + rest.1)[1..] == rest.1;
    }
  }

  /** What is done is final, and walking the nodes from `k` on completes the walk. */
  ghost predicate Walked<S, T>(visit: Visitor<S, T>, state: S, arrays: Spliced<T>, nodes: seq<T>, k: nat,
                               done: seq<Item<T>>, all: Result<S, T>) {
    k <= |nodes| &&
    var rest := Walk(visit, state, arrays, nodes[k..], |done|);
    all == Result(rest.state, rest.arrays, done + rest.items)
  }

  lemma WalkBegins<S, T>(visit: Visitor<S, T>, state: S, arrays: Spliced<T>, nodes: seq<T>)
    ensures Walked(visit, state, arrays, nodes, 0, [], Walk(visit, state, arrays, nodes, 0))
  {
    assert nodes[0..] == nodes;
    var all := Walk(visit, state, arrays, nodes, 0);
    assert [] + all.items == all.items;
  }

  lemma WalkStep<S, T>(visit: Visitor<S, T>, state: S, arrays: Spliced<T>, nodes: seq<T>, k: nat, done: seq<Item<T>>,
                       all: Result<S, T>)
    requires Walked(visit, state, arrays, nodes, k, done, all) && k < |nodes|
    ensures var v := visit(state, nodes[k]);
            Walked(visit, v.0, AfterSplice(arrays, v.1, |done|), nodes, k + 1, done + Items(arrays, v.1), all)
  {
    var v := visit(state, nodes[k]);
    var items := Items(arrays, v.1);
    assert nodes[k..][1..] == nodes[k + 1..];
    var rest := Walk(visit, v.0, AfterSplice(arrays, v.1, |done|), nodes[k + 1..], |done| + |items|).items;
    assert done + (items + rest) == (done + items) + rest;
  }

  /** The walked array after one replacement: what is done, and the nodes still to come. */
  lemma AfterStep<T>(arr: seq<Item<T>>, i: nat, items: seq<Item<T>>, nodes: seq<T>, k: nat)
    requires i < |arr| && k < |nodes| && arr[i..] == Nodes(nodes[k..])
    ensures var now := arr[..i] + items + arr[i + 1..];
            now[..i + |items|] == arr[..i] + items && now[i + |items|..] == Nodes(nodes[k + 1..])
  {
    assert arr[i + 1..] == arr[i..][1..] == Nodes(nodes[k + 1..]);
  }

  lemma WalkEnds<S, T>(visit: Visitor<S, T>, state: S, arrays: Spliced<T>, nodes: seq<T>, done: seq<Item<T>>,
                       all: Result<S, T>)
    requires Walked(visit, state, arrays, nodes, |nodes|, done, all)
    ensures all == Result(state, arrays, done)
  {
    assert nodes[|nodes|..] == [] && done + [] == done;
  }
}
