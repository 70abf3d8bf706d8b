/**
 Reference graphs: the explicit-stack search of scripts/contracts/generate.py and the recursive
 search of vuoro_contracts/profile.py, both proved against paths and cycles.
 */
module RefGraph {
  // The references of every resource that can be used; an identifier outside the map is missing.
  type Graph = map<string, set<string>>

  /******* Paths *******/

  ghost predicate Edge(g: Graph, x: string, y: string) { x in g && y in g[x] }

  ghost predicate Path(g: Graph, p: seq<string>) {
    p != [] && forall i :: 0 <= i < |p| - 1 ==> Edge(g, p[i], p[i + 1])
  }

  ghost predicate Reachable(g: Graph, roots: set<string>, y: string) {
    exists p :: Path(g, p) && p[0] in roots && p[|p| - 1] == y
  }

  // A path of at least one edge that ends where it begins.
  ghost predicate Cycle(g: Graph, p: seq<string>) { Path(g, p) && |p| >= 2 && p[0] == p[|p| - 1] }

  ghost predicate ReachableCycle(g: Graph, roots: set<string>) {
    exists p :: Cycle(g, p) && Reachable(g, roots, p[0])
  }

  ghost predicate ReachableMissing(g: Graph, roots: set<string>) {
    exists x :: Reachable(g, roots, x) && x !in g
  }

  lemma PathExtend(g: Graph, p: seq<string>, y: string)
    requires Path(g, p) && Edge(g, p[|p| - 1], y)
    ensures Path(g, p + [y])
  {
    var q := p + [y];
    forall i | 0 <= i < |q| - 1 ensures Edge(g, q[i], q[i + 1]) {
      if i < |p| - 1 {
        assert q[i] == p[i] && q[i + 1] == p[i + 1];
      }
    }
  }

  lemma ReachableStep(g: Graph, roots: set<string>, x: string, y: string)
    requires Reachable(g, roots, x) && Edge(g, x, y)
    ensures Reachable(g, roots, y)
  {
    var p :| Path(g, p) && p[0] in roots && p[|p| - 1] == x;
    PathExtend(g, p, y);
    assert (p + [y])[0] in roots;
  }

  lemma RootReachable(g: Graph, roots: set<string>, x: string)
    requires x in roots
    ensures Reachable(g, roots, x)
  {
    assert Path(g, [x]);
  }

  lemma LastStep(g: Graph, roots: set<string>, x: string)
    requires Reachable(g, roots, x)
    ensures x in roots || exists y :: Edge(g, y, x)
  {
    var p :| Path(g, p) && p[0] in roots && p[|p| - 1] == x;
    if |p| >= 2 {
      assert Edge(g, p[|p| - 2], x);
    }
  }

  /******* Orders and ranks *******/

  // Everything an element of the order refers to comes before it.
  ghost predicate Ordered(g: Graph, order: seq<string>) {
    && (forall i, j :: 0 <= i < j < |order| ==> order[i] != order[j])
    && forall i :: 0 <= i < |order| ==> order[i] in g && forall y :: y in g[order[i]] ==> y in order[..i]
  }

  lemma OrderedPush(g: Graph, order: seq<string>, x: string)
    requires Ordered(g, order) && x !in order && x in g && forall y :: y in g[x] ==> y in order
    ensures Ordered(g, order + [x])
  {
    var next := order + [x];
    forall i | 0 <= i < |next| ensures next[i] in g && forall y :: y in g[next[i]] ==> y in next[..i] {
      if i < |order| {
        assert next[..i] == order[..i];
      } else {
        assert next[..i] == order;
      }
    }
  }

  ghost function IndexIn(order: seq<string>, x: string): (i: nat)
    requires x in order
    ensures i < |order| && order[i] == x
  {
    var i :| 0 <= i < |order| && order[i] == x;
    i
  }

  // A path that starts in an order stays in it and descends.
  lemma {:induction false} PathDescends(g: Graph, order: seq<string>, p: seq<string>)
    requires Ordered(g, order) && Path(g, p) && p[0] in order
    ensures p[|p| - 1] in order && IndexIn(order, p[|p| - 1]) <= IndexIn(order, p[0])
    ensures |p| >= 2 ==> IndexIn(order, p[|p| - 1]) < IndexIn(order, p[0])
    decreases |p|
  {
    if |p| >= 2 {
      assert Edge(g, p[0], p[1]);
      var i := IndexIn(order, p[0]);
      assert p[1] in order[..i];
      var q := p[1..];
      assert Path(g, q) by {
        forall k | 0 <= k < |q| - 1 ensures Edge(g, q[k], q[k + 1]) {
          assert Edge(g, p[k + 1], p[k + 2]);
        }
      }
      PathDescends(g, order, q);
    }
  }

  ghost predicate RankFunction(g: Graph, rank: map<string, nat>) {
    forall x :: x in g ==> x in rank && forall y :: y in g[x] ==> y in rank && rank[y] < rank[x]
  }

  // A graph with a rank function has no cycle.
  lemma {:induction false} RankDescends(g: Graph, rank: map<string, nat>, p: seq<string>)
    requires RankFunction(g, rank) && Path(g, p) && |p| >= 2
    ensures p[0] in rank && p[|p| - 1] in rank && rank[p[|p| - 1]] < rank[p[0]]
    decreases |p|
  {
    assert Edge(g, p[0], p[1]);
    if |p| > 2 {
      var q := p[1..];
      assert Path(g, q) by {
        forall k | 0 <= k < |q| - 1 ensures Edge(g, q[k], q[k + 1]) {
          assert Edge(g, p[k + 1], p[k + 2]);
        }
      }
      RankDescends(g, rank, q);
    }
  }

  lemma OrderGivesRank(g: Graph, order: seq<string>)
    requires Ordered(g, order) && forall x :: x in g ==> x in order
    ensures exists rank :: RankFunction(g, rank)
  {
    var rank: map<string, nat> := map x | x in order :: IndexIn(order, x);
    forall x | x in g ensures x in rank && forall y :: y in g[x] ==> y in rank && rank[y] < rank[x] {
      var i := IndexIn(order, x);
      forall y | y in g[x] ensures y in rank && rank[y] < rank[x] {
        assert y in order[..i];
      }
    }
    assert RankFunction(g, rank);
  }

  /******* The explicit stack *******/

  datatype Frame = Frame(id: string, exiting: bool)

  // `path` is the chain of open resources.  A frame of level k + 1 is a reference of path[k]; the exit
  // frame of path[k] has level k, and every frame above it has a higher level.
  ghost predicate Levels(g: Graph, root: string, stack: seq<Frame>, level: seq<nat>, path: seq<string>) {
    && |level| == |stack| && (path != [] ==> stack != [])
    && (forall i :: 0 <= i < |stack| ==> FrameFits(g, root, stack[i], level[i], path))
    && (forall i, j :: 0 <= i < j < |stack| ==> level[i] <= level[j] && (stack[i].exiting ==> level[i] < level[j]))
    && (forall k :: 0 <= k < |path| ==> Frame(path[k], true) in stack)
  }

  ghost predicate FrameFits(g: Graph, root: string, f: Frame, k: nat, path: seq<string>) {
    && k <= |path|
    && (if k == 0 then f.id == root else Edge(g, path[k - 1], f.id))
    && (f.exiting ==> k < |path| && f.id == path[k])
  }

  ghost predicate OpenPath(g: Graph, root: string, path: seq<string>) {
    && (path != [] ==> Path(g, path) && path[0] == root)
    && forall i, j :: 0 <= i < j < |path| ==> path[i] != path[j]
  }

  // The exit frame of an open resource.
  lemma ExitFrame(g: Graph, root: string, stack: seq<Frame>, level: seq<nat>, path: seq<string>, k: nat) returns (i: nat)
    requires Levels(g, root, stack, level, path) && OpenPath(g, root, path) && k < |path|
    ensures i < |stack| == |level| && stack[i] == Frame(path[k], true) && level[i] == k
  {
    hide Path;
    assert Frame(path[k], true) in stack;
    i :| 0 <= i < |stack| && stack[i] == Frame(path[k], true);
    assert FrameFits(g, root, stack[i], level[i], path);
  }

  // The frame on top belongs to the innermost open resource.
  lemma TopLevel(g: Graph, root: string, stack: seq<Frame>, level: seq<nat>, path: seq<string>)
    requires stack != [] && Levels(g, root, stack, level, path) && OpenPath(g, root, path)
    ensures |level| == |stack|
    ensures var n := |stack| - 1;
      FrameFits(g, root, stack[n], level[n], path) && level[n] == if stack[n].exiting then |path| - 1 else |path|
  {
    hide OpenPath, Edge, Levels;
    var n := |stack| - 1;
    LevelFacts(g, root, stack, level, path, n);
    if path != [] {
      var i := ExitFrame(g, root, stack, level, path, |path| - 1);
      LevelFacts(g, root, stack, level, path, i);
    }
  }

  // A frame fits its level, and the frame on top is above an exit frame below it.
  lemma LevelFacts(g: Graph, root: string, stack: seq<Frame>, level: seq<nat>, path: seq<string>, i: nat)
    requires Levels(g, root, stack, level, path) && i < |stack|
    ensures |level| == |stack| && FrameFits(g, root, stack[i], level[i], path)
    ensures i < |stack| - 1 && stack[i].exiting ==> level[i] < level[|stack| - 1]
  {
    hide FrameFits;
  }

  // The marks agree with the open path and with the order of finished resources.
  ghost predicate Marks(state: map<string, int>, path: seq<string>, order: seq<string>) {
    && (forall x :: x in state ==> state[x] == 1 || state[x] == 2)
    && (forall x :: (x in state && state[x] == 2) <==> x in order)
    && (forall x :: (x in state && state[x] == 1) <==> x in path)
  }

  // Every reference of an open resource is finished or still on the stack, except those in `todo` of the innermost.
  ghost predicate Pending(g: Graph, stack: seq<Frame>, level: seq<nat>, path: seq<string>, order: seq<string>, todo: set<string>)
    requires |level| == |stack|
  {
    forall k, y :: 0 <= k < |path| && Edge(g, path[k], y) ==>
      y in order || (k == |path| - 1 && y in todo) || OnStack(stack, level, k + 1, y)
  }

  ghost predicate OnStack(stack: seq<Frame>, level: seq<nat>, k: nat, y: string)
    requires |level| == |stack|
  {
    exists i :: 0 <= i < |stack| && level[i] == k && stack[i].id == y
  }

  ghost predicate Opened(g: Graph, state: map<string, int>) { forall x :: x in state ==> x in g }

  ghost predicate Search(g: Graph, root: string, stack: seq<Frame>, level: seq<nat>, path: seq<string>,
                         state: map<string, int>, order: seq<string>, todo: set<string>)
  {
    && |level| == |stack| && Levels(g, root, stack, level, path) && OpenPath(g, root, path) && Marks(state, path, order)
    && Pending(g, stack, level, path, order, todo) && Ordered(g, order) && Opened(g, state)
  }

  lemma OnStackPop(stack: seq<Frame>, level: seq<nat>, k: nat, y: string)
    requires |level| == |stack| > 0 && OnStack(stack, level, k, y)
    requires level[|stack| - 1] != k || stack[|stack| - 1].id != y
    ensures OnStack(stack[..|stack| - 1], level[..|stack| - 1], k, y)
  {
    var i :| 0 <= i < |stack| && level[i] == k && stack[i].id == y;
    assert level[..|stack| - 1][i] == k && stack[..|stack| - 1][i].id == y;
  }

  lemma OnStackPush(stack: seq<Frame>, level: seq<nat>, f: Frame, m: nat, k: nat, y: string)
    requires |level| == |stack|
    ensures OnStack(stack, level, k, y) ==> OnStack(stack + [f], level + [m], k, y)
    ensures OnStack(stack + [f], level + [m], m, f.id)
  {
    var s, l := stack + [f], level + [m];
    assert l[|stack|] == m && s[|stack|].id == f.id;
    if OnStack(stack, level, k, y) {
      var i :| 0 <= i < |stack| && level[i] == k && stack[i].id == y;
      assert l[i] == k && s[i].id == y;
    }
  }

  lemma EntryLevels(g: Graph, root: string, stack: seq<Frame>, level: seq<nat>, path: seq<string>)
    requires stack != [] && Levels(g, root, stack, level, path) && !stack[|stack| - 1].exiting
    ensures Levels(g, root, stack[..|stack| - 1], level[..|stack| - 1], path)
  {
    hide FrameFits;
    var n := |stack| - 1;
    forall k | 0 <= k < |path| ensures Frame(path[k], true) in stack[..n] {
      assert Frame(path[k], true) in stack;
      var i :| 0 <= i < |stack| && stack[i] == Frame(path[k], true);
      assert stack[..n][i] == Frame(path[k], true);
    }
    assert path != [] ==> Frame(path[0], true) in stack[..n];
  }

  lemma FitsShorter(g: Graph, root: string, f: Frame, k: nat, path: seq<string>)
    requires FrameFits(g, root, f, k, path) && k < |path| && (f.exiting ==> k < |path| - 1)
    ensures FrameFits(g, root, f, k, path[..|path| - 1])
  {
    hide Edge;
  }

  lemma ExitLevels(g: Graph, root: string, stack: seq<Frame>, level: seq<nat>, path: seq<string>)
    requires stack != [] && Levels(g, root, stack, level, path) && stack[|stack| - 1].exiting
    requires path != [] && level[|stack| - 1] == |path| - 1 && stack[|stack| - 1].id == path[|path| - 1]
    requires forall i, j :: 0 <= i < j < |path| ==> path[i] != path[j]
    ensures Levels(g, root, stack[..|stack| - 1], level[..|stack| - 1], path[..|path| - 1])
  {
    hide FrameFits;
    var n, q := |stack| - 1, path[..|path| - 1];
    var below, lower := stack[..n], level[..n];
    forall i | 0 <= i < n ensures FrameFits(g, root, below[i], lower[i], q) {
      assert FrameFits(g, root, stack[i], level[i], path) && level[i] <= level[n];
      FitsShorter(g, root, stack[i], level[i], path);
    }
    forall k | 0 <= k < |q| ensures Frame(q[k], true) in below {
      assert Frame(path[k], true) in stack && path[k] != path[|path| - 1];
      var i :| 0 <= i < |stack| && stack[i] == Frame(path[k], true);
      assert i != n && below[i] == Frame(q[k], true);
    }
    assert q != [] ==> Frame(q[0], true) in below;
  }

  // Popping a finished entry.
  lemma PopFinished(g: Graph, root: string, stack: seq<Frame>, level: seq<nat>, path: seq<string>,
                    state: map<string, int>, order: seq<string>)
    requires stack != [] && Search(g, root, stack, level, path, state, order, {})
    requires !stack[|stack| - 1].exiting && stack[|stack| - 1].id in order
    ensures Search(g, root, stack[..|stack| - 1], level[..|stack| - 1], path, state, order, {})
  {
    hide Levels, Ordered, OpenPath, Marks, OnStack;
    EntryLevels(g, root, stack, level, path);
    forall k, y | 0 <= k < |path| && Edge(g, path[k], y)
      ensures y in order || (k == |path| - 1 && y in {}) || OnStack(stack[..|stack| - 1], level[..|stack| - 1], k + 1, y)
    {
      if y !in order {
        OnStackPop(stack, level, k + 1, y);
      }
    }
  }

  // Popping an exit frame finishes its resource: all its references are finished by then.
  lemma PopExit(g: Graph, root: string, stack: seq<Frame>, level: seq<nat>, path: seq<string>,
                state: map<string, int>, order: seq<string>)
    requires stack != [] && Search(g, root, stack, level, path, state, order, {}) && stack[|stack| - 1].exiting
    ensures path != [] && stack[|stack| - 1].id == path[|path| - 1]
    ensures Search(g, root, stack[..|stack| - 1], level[..|stack| - 1], path[..|path| - 1],
                   state[stack[|stack| - 1].id := 2], order + [stack[|stack| - 1].id], {})
  {
    hide Ordered, OpenPath, Marks, OnStack, Path;
    TopLevel(g, root, stack, level, path);
    var n := |stack| - 1;
    assert FrameFits(g, root, stack[n], level[n], path);
    FinishedRefs(g, stack, level, path, order);
    DistinctPath(g, root, path);
    ExitLevels(g, root, stack, level, path);
    MarksExit(state, path, order);
    ExitOrder(g, state, path, order);
    PendingExit(g, stack, level, path, order);
    OpenPathPop(g, root, path);
  }

  lemma ExitOrder(g: Graph, state: map<string, int>, path: seq<string>, order: seq<string>)
    requires Ordered(g, order) && Marks(state, path, order) && Opened(g, state) && path != []
    requires forall y :: Edge(g, path[|path| - 1], y) ==> y in order
    ensures Ordered(g, order + [path[|path| - 1]]) && Opened(g, state[path[|path| - 1] := 2])
  {
    var id := path[|path| - 1];
    assert id in state && state[id] == 1;
    forall y | y in g[id] ensures y in order {
      assert Edge(g, id, y);
    }
    OrderedPush(g, order, id);
  }

  lemma DistinctPath(g: Graph, root: string, path: seq<string>)
    requires OpenPath(g, root, path)
    ensures forall i, j :: 0 <= i < j < |path| ==> path[i] != path[j]
  {
  }

  lemma OpenPathPop(g: Graph, root: string, path: seq<string>)
    requires OpenPath(g, root, path) && path != []
    ensures OpenPath(g, root, path[..|path| - 1])
  {
    var q := path[..|path| - 1];
    forall k | 0 <= k < |q| - 1 ensures Edge(g, q[k], q[k + 1]) {
      assert Edge(g, path[k], path[k + 1]);
    }
  }

  // When the exit frame of the innermost resource is on top, none of its references is left on the stack.
  lemma FinishedRefs(g: Graph, stack: seq<Frame>, level: seq<nat>, path: seq<string>, order: seq<string>)
    requires |level| == |stack| > 0 && path != [] && level[|stack| - 1] == |path| - 1
    requires forall i, j :: 0 <= i < j < |stack| ==> level[i] <= level[j]
    requires Pending(g, stack, level, path, order, {})
    ensures forall y :: Edge(g, path[|path| - 1], y) ==> y in order
  {
    var m := |path| - 1;
    assert forall i :: 0 <= i < |stack| ==> level[i] <= m;
    forall y | Edge(g, path[m], y) ensures y in order {
      assert !OnStack(stack, level, m + 1, y);
    }
  }

  lemma PendingExit(g: Graph, stack: seq<Frame>, level: seq<nat>, path: seq<string>, order: seq<string>)
    requires |level| == |stack| > 0 && path != [] && stack[|stack| - 1].id == path[|path| - 1]
    requires Pending(g, stack, level, path, order, {})
    ensures Pending(g, stack[..|stack| - 1], level[..|stack| - 1], path[..|path| - 1], order + [path[|path| - 1]], {})
  {
    hide OnStack;
    var id, q := path[|path| - 1], path[..|path| - 1];
    forall k, y | 0 <= k < |q| && Edge(g, q[k], y)
      ensures y in order + [id] || OnStack(stack[..|stack| - 1], level[..|stack| - 1], k + 1, y)
    {
      assert Edge(g, path[k], y);
      if y !in order && y != id {
        OnStackPop(stack, level, k + 1, y);
      }
    }
  }

  lemma MarksExit(state: map<string, int>, path: seq<string>, order: seq<string>)
    requires Marks(state, path, order) && path != [] && forall i, j :: 0 <= i < j < |path| ==> path[i] != path[j]
    ensures var id := path[|path| - 1]; Marks(state[id := 2], path[..|path| - 1], order + [id])
  {
    var m := |path| - 1;
    assert path == path[..m] + [path[m]];
    assert path[m] !in path[..m];
  }

  lemma MarksOpen(state: map<string, int>, path: seq<string>, order: seq<string>, id: string)
    requires Marks(state, path, order) && id !in state
    ensures Marks(state[id := 1], path + [id], order)
  {
  }

  // Opening a resource replaces its entry by its exit frame.
  lemma Open(g: Graph, root: string, stack: seq<Frame>, level: seq<nat>, path: seq<string>,
             state: map<string, int>, order: seq<string>)
    requires stack != [] && Search(g, root, stack, level, path, state, order, {}) && !stack[|stack| - 1].exiting
    requires stack[|stack| - 1].id !in state && stack[|stack| - 1].id in g
    ensures var id := stack[|stack| - 1].id;
      Search(g, root, stack[..|stack| - 1] + [Frame(id, true)], level, path + [id], state[id := 1], order, g[id])
  {
    hide Ordered, OnStack, Path, Pending;
    var id := stack[|stack| - 1].id;
    MarksOpen(state, path, order, id);
    TopLevel(g, root, stack, level, path);
    assert FrameFits(g, root, stack[|stack| - 1], level[|stack| - 1], path);
    hide Levels, OpenPath;
    OpenPathPush(g, root, path, id);
    OpenLevels(g, root, stack, level, path);
    PendingOpen(g, stack, level, path, order);
  }

  lemma PendingOpen(g: Graph, stack: seq<Frame>, level: seq<nat>, path: seq<string>, order: seq<string>)
    requires |level| == |stack| > 0 && Pending(g, stack, level, path, order, {}) && stack[|stack| - 1].id in g
    ensures var id := stack[|stack| - 1].id;
      Pending(g, stack[..|stack| - 1] + [Frame(id, true)], level, path + [id], order, g[id])
  {
    var n := |stack| - 1;
    var id := stack[n].id;
    var s, q := stack[..n] + [Frame(id, true)], path + [id];
    forall k, y | 0 <= k < |q| && Edge(g, q[k], y)
      ensures y in order || (k == |q| - 1 && y in g[id]) || OnStack(s, level, k + 1, y)
    {
      if k < |path| {
        assert Edge(g, path[k], y);
        if y !in order {
          var i :| 0 <= i < |stack| && level[i] == k + 1 && stack[i].id == y;
          assert s[i].id == y;
        }
      }
    }
  }

  lemma OpenPathPush(g: Graph, root: string, path: seq<string>, id: string)
    requires OpenPath(g, root, path) && id !in path
    requires if path == [] then id == root else Edge(g, path[|path| - 1], id)
    ensures OpenPath(g, root, path + [id])
  {
    if path != [] {
      PathExtend(g, path, id);
    }
  }

  lemma FitsLonger(g: Graph, root: string, f: Frame, k: nat, path: seq<string>, id: string)
    requires FrameFits(g, root, f, k, path)
    ensures FrameFits(g, root, f, k, path + [id])
    ensures k == |path| && f.id == id ==> FrameFits(g, root, Frame(id, true), k, path + [id])
  {
  }

  lemma OpenLevels(g: Graph, root: string, stack: seq<Frame>, level: seq<nat>, path: seq<string>)
    requires stack != [] && Levels(g, root, stack, level, path)
    requires !stack[|stack| - 1].exiting && level[|stack| - 1] == |path|
    ensures var id := stack[|stack| - 1].id;
      Levels(g, root, stack[..|stack| - 1] + [Frame(id, true)], level, path + [id])
  {
    hide FrameFits;
    var n := |stack| - 1;
    var id := stack[n].id;
    var s, q := stack[..n] + [Frame(id, true)], path + [id];
    forall i | 0 <= i < |s| ensures FrameFits(g, root, s[i], level[i], q) {
      assert FrameFits(g, root, stack[i], level[i], path);
      FitsLonger(g, root, stack[i], level[i], path, id);
    }
    OpenRising(stack, level, Frame(id, true));
    forall k | 0 <= k < |q| ensures Frame(q[k], true) in s {
      if k < |path| {
        OpenKeeps(stack, Frame(path[k], true), Frame(id, true));
      }
    }
  }

  lemma OpenRising(stack: seq<Frame>, level: seq<nat>, f: Frame)
    requires stack != [] && |level| == |stack|
    requires forall i, j :: 0 <= i < j < |stack| ==> level[i] <= level[j] && (stack[i].exiting ==> level[i] < level[j])
    ensures var s := stack[..|stack| - 1] + [f];
      forall i, j :: 0 <= i < j < |s| ==> level[i] <= level[j] && (s[i].exiting ==> level[i] < level[j])
  {
  }

  // Opening the top frame keeps every exit frame.
  lemma OpenKeeps(stack: seq<Frame>, exit: Frame, f: Frame)
    requires stack != [] && exit in stack && exit.exiting && !stack[|stack| - 1].exiting
    ensures exit in stack[..|stack| - 1] + [f]
  {
    var i :| 0 <= i < |stack| && stack[i] == exit;
    assert stack[..|stack| - 1][i] == exit;
  }

  // Pushing a reference of the innermost open resource.
  lemma PushRef(g: Graph, root: string, stack: seq<Frame>, level: seq<nat>, path: seq<string>,
                state: map<string, int>, order: seq<string>, todo: set<string>, y: string)
    requires Search(g, root, stack, level, path, state, order, todo) && path != [] && Edge(g, path[|path| - 1], y)
    ensures y in order ==> Search(g, root, stack, level, path, state, order, todo - {y})
    ensures Search(g, root, stack + [Frame(y, false)], level + [|path|], path, state, order, todo - {y})
  {
    hide Ordered, OnStack, OpenPath, Marks, Levels;
    var f := Frame(y, false);
    PushLevels(g, root, stack, level, path, f);
    forall k, z | 0 <= k < |path| && Edge(g, path[k], z)
      ensures z in order || (k == |path| - 1 && z in todo - {y}) || OnStack(stack + [f], level + [|path|], k + 1, z)
    {
      OnStackPush(stack, level, f, |path|, k + 1, z);
    }
  }

  lemma FitsBelow(g: Graph, root: string, f: Frame, k: nat, path: seq<string>)
    requires FrameFits(g, root, f, k, path)
    ensures k <= |path| && (f.exiting ==> k < |path|)
  {
  }

  lemma PushLevels(g: Graph, root: string, stack: seq<Frame>, level: seq<nat>, path: seq<string>, f: Frame)
    requires Levels(g, root, stack, level, path) && path != [] && Edge(g, path[|path| - 1], f.id) && !f.exiting
    ensures Levels(g, root, stack + [f], level + [|path|], path)
  {
    assert FrameFits(g, root, f, |path|, path);
    hide Edge, FrameFits;
    forall i | 0 <= i < |stack| ensures level[i] <= |path| && (stack[i].exiting ==> level[i] < |path|) {
      FitsBelow(g, root, stack[i], level[i], path);
    }
    PushRising(stack, level, f, |path|);
    PushFits(g, root, stack, level, path, f);
  }

  lemma PushRising(stack: seq<Frame>, level: seq<nat>, f: Frame, m: nat)
    requires |level| == |stack|
    requires forall i, j :: 0 <= i < j < |stack| ==> level[i] <= level[j] && (stack[i].exiting ==> level[i] < level[j])
    requires forall i :: 0 <= i < |stack| ==> level[i] <= m && (stack[i].exiting ==> level[i] < m)
    ensures var s, l := stack + [f], level + [m];
      forall i, j :: 0 <= i < j < |s| ==> l[i] <= l[j] && (s[i].exiting ==> l[i] < l[j])
  {
  }

  lemma PushFits(g: Graph, root: string, stack: seq<Frame>, level: seq<nat>, path: seq<string>, f: Frame)
    requires |level| == |stack| && FrameFits(g, root, f, |path|, path)
    requires forall i :: 0 <= i < |stack| ==> FrameFits(g, root, stack[i], level[i], path)
    ensures var s, l := stack + [f], level + [|path|];
      forall i :: 0 <= i < |s| ==> FrameFits(g, root, s[i], l[i], path)
  {
    hide FrameFits;
  }

  // A reference to an open resource closes a cycle.
  lemma CycleFound(g: Graph, roots: set<string>, root: string, path: seq<string>, y: string)
    requires OpenPath(g, root, path) && root in roots && y in path && Edge(g, path[|path| - 1], y)
    ensures ReachableCycle(g, roots)
  {
    var i :| 0 <= i < |path| && path[i] == y;
    PathExtend(g, path, y);
    var all := path + [y];
    var p := all[i..];
    forall k | 0 <= k < |p| - 1 ensures Edge(g, p[k], p[k + 1]) {
      assert Edge(g, all[i + k], all[i + k + 1]);
    }
    assert Cycle(g, p) && p[0] == y;
    PathReachable(g, roots, root, path, i);
  }

  lemma PathReachable(g: Graph, roots: set<string>, root: string, path: seq<string>, i: nat)
    requires OpenPath(g, root, path) && root in roots && i < |path|
    ensures Reachable(g, roots, path[i])
  {
    var p := path[..i + 1];
    forall k | 0 <= k < |p| - 1 ensures Edge(g, p[k], p[k + 1]) {
      assert Edge(g, path[k], path[k + 1]);
    }
    assert Path(g, p) && p[0] in roots && p[|p| - 1] == path[i];
  }

  // Whatever is on top of the stack is reachable.
  lemma TopReachable(g: Graph, roots: set<string>, root: string, stack: seq<Frame>, level: seq<nat>, path: seq<string>)
    requires stack != [] && Levels(g, root, stack, level, path) && OpenPath(g, root, path) && root in roots
    ensures Reachable(g, roots, stack[|stack| - 1].id)
  {
    var n := |stack| - 1;
    assert FrameFits(g, root, stack[n], level[n], path);
    if level[n] == 0 {
      RootReachable(g, roots, root);
    } else {
      PathReachable(g, roots, root, path, level[n] - 1);
      ReachableStep(g, roots, path[level[n] - 1], stack[n].id);
    }
  }

  // The search is over: nothing reachable is missing, nothing is cyclic, and the order is what is reachable.
  ghost predicate Complete(g: Graph, roots: set<string>, order: seq<string>) {
    && Ordered(g, order)
    && forall x :: x in order <==> Reachable(g, roots, x)
  }

  lemma CompleteIsSound(g: Graph, roots: set<string>, order: seq<string>)
    requires Complete(g, roots, order)
    ensures !ReachableMissing(g, roots) && !ReachableCycle(g, roots)
  {
    if ReachableCycle(g, roots) {
      var p :| Cycle(g, p) && Reachable(g, roots, p[0]);
      PathDescends(g, order, p);
    }
  }

  lemma FinishedIsComplete(g: Graph, roots: set<string>, order: seq<string>)
    requires Ordered(g, order) && (forall x :: x in roots ==> x in order)
    requires forall x :: x in order ==> Reachable(g, roots, x)
    ensures Complete(g, roots, order)
  {
    forall x | Reachable(g, roots, x) ensures x in order {
      var p :| Path(g, p) && p[0] in roots && p[|p| - 1] == x;
      PathDescends(g, order, p);
    }
  }

  // _schema_resource_closure: a depth-first search with an explicit stack that may hold an identifier
  // more than once.  Roots and references are taken in any order.
  method ResourceClosure(g: Graph, roots: set<string>) returns (ok: bool, order: seq<string>)
    ensures ok <==> !ReachableMissing(g, roots) && !ReachableCycle(g, roots)
    ensures ok ==> Complete(g, roots, order)
  {
    order := [];
    var state: map<string, int> := map[];
    var rest := roots;
    while rest != {}
      invariant rest <= roots
      invariant Marks(state, [], order) && Ordered(g, order) && Opened(g, state)
      invariant forall x :: x in roots && x !in rest ==> x in order
      invariant forall x :: x in order ==> Reachable(g, roots, x)
      decreases rest
    {
      var root :| root in rest;
      ok, state, order := SearchFrom(g, roots, root, state, order);
      if !ok {
        return;
      }
      rest := rest - {root};
    }
    FinishedIsComplete(g, roots, order);
    CompleteIsSound(g, roots, order);
    ok := true;
  }

  method SearchFrom(g: Graph, ghost roots: set<string>, root: string, state0: map<string, int>, order0: seq<string>)
    returns (ok: bool, state: map<string, int>, order: seq<string>)
    requires root in roots && Marks(state0, [], order0) && Ordered(g, order0) && Opened(g, state0)
    requires forall x :: x in order0 ==> Reachable(g, roots, x)
    ensures !ok ==> ReachableMissing(g, roots) || ReachableCycle(g, roots)
    ensures ok ==> Marks(state, [], order) && Ordered(g, order) && Opened(g, state) && root in order
    ensures ok ==> (forall x :: x in order0 ==> x in order) && forall x :: x in order ==> Reachable(g, roots, x)
  {
    hide Levels, OpenPath, Marks, Pending, Ordered, Search, Reachable;
    state, order := state0, order0;
    var stack := [Frame(root, false)];
    ghost var level: seq<nat>, path: seq<string> := [0], [];
    StartSearch(g, root, state, order);
    while stack != []
      invariant Search(g, root, stack, level, path, state, order, {})
      invariant (stack == [] ==> root in order) && (stack != [] ==> stack[0].id == root)
      invariant forall x :: x in order0 ==> x in order
      invariant forall x :: x in order ==> Reachable(g, roots, x)
      decreases g.Keys - state.Keys, |stack|
    {
      var n := |stack| - 1;
      var frame := stack[n];
      SearchFacts(g, roots, root, stack, level, path, state, order);
      if frame.exiting {
        PopExit(g, root, stack, level, path, state, order);
        stack, level, path := stack[..n], level[..n], path[..|path| - 1];
        state := state[frame.id := 2];
        order := order + [frame.id];
        continue;
      }
      var mark := if frame.id in state then state[frame.id] else 0;
      if mark == 1 {
        CycleFound(g, roots, root, path, frame.id);
        return false, state, order;
      }
      if mark == 2 {
        PopFinished(g, root, stack, level, path, state, order);
        stack, level := stack[..n], level[..n];
        continue;
      }
      if frame.id !in g {
        return false, state, order;
      }
      Open(g, root, stack, level, path, state, order);
      ghost var closed := g.Keys - state.Keys;
      state := state[frame.id := 1];
      stack := stack[..n] + [Frame(frame.id, true)];
      path := path + [frame.id];
      assert g.Keys - state.Keys == closed - {frame.id};
      var todo := g[frame.id];
      while todo != {}
        invariant Search(g, root, stack, level, path, state, order, todo)
        invariant todo <= g[frame.id] && path != [] && path[|path| - 1] == frame.id
        invariant stack != [] && stack[0].id == root
        decreases todo
      {
        var ref :| ref in todo;
        PushRef(g, root, stack, level, path, state, order, todo, ref);
        OpenFacts(g, root, stack, level, path, state, order, todo);
        if ref in state && state[ref] == 1 {
          CycleFound(g, roots, root, path, ref);
          return false, state, order;
        }
        if !(ref in state && state[ref] == 2) {
          stack, level := stack + [Frame(ref, false)], level + [|path|];
        }
        todo := todo - {ref};
      }
    }
    EndSearch(g, root, level, path, state, order);
    ok := true;
  }

  lemma StartSearch(g: Graph, root: string, state: map<string, int>, order: seq<string>)
    requires Marks(state, [], order) && Ordered(g, order) && Opened(g, state)
    ensures Search(g, root, [Frame(root, false)], [0], [], state, order, {})
  {
    hide Ordered;
  }

  lemma EndSearch(g: Graph, root: string, level: seq<nat>, path: seq<string>, state: map<string, int>, order: seq<string>)
    requires Search(g, root, [], level, path, state, order, {})
    ensures Marks(state, [], order) && Ordered(g, order) && Opened(g, state)
  {
    hide Ordered;
  }

  // What the invariant says about the frame on top.
  lemma SearchFacts(g: Graph, roots: set<string>, root: string, stack: seq<Frame>, level: seq<nat>, path: seq<string>,
                    state: map<string, int>, order: seq<string>)
    requires stack != [] && root in roots && Search(g, root, stack, level, path, state, order, {})
    ensures |level| == |stack|
    ensures var f := stack[|stack| - 1];
      && Reachable(g, roots, f.id) && OpenPath(g, root, path)
      && (f.exiting ==> f.id in state)
      && (f.id in state ==> state[f.id] == 1 || state[f.id] == 2)
      && (f.id in state && state[f.id] == 2 ==> f.id in order)
      && (f.id in state && state[f.id] == 1 && !f.exiting ==> f.id in path && Edge(g, path[|path| - 1], f.id))
  {
    hide Ordered, Pending, Levels, Reachable, OpenPath;
    TopLevel(g, root, stack, level, path);
    TopReachable(g, roots, root, stack, level, path);
    var n := |stack| - 1;
    if stack[n].exiting {
      assert stack[n].id == path[level[n]];
    }
  }

  lemma OpenFacts(g: Graph, root: string, stack: seq<Frame>, level: seq<nat>, path: seq<string>,
                  state: map<string, int>, order: seq<string>, todo: set<string>)
    requires Search(g, root, stack, level, path, state, order, todo)
    ensures OpenPath(g, root, path)
    ensures forall x :: x in state && state[x] == 1 ==> x in path
    ensures forall x :: x in state && state[x] == 2 ==> x in order
  {
    hide Ordered, Pending, Levels;
  }

  /******* The recursive search *******/

  ghost predicate Closed(g: Graph) { forall x, y :: Edge(g, x, y) ==> y in g }

  // `visit` of validate_bundle, with its two shared sets.
  class GraphCheck {
    const graph: Graph
    var visiting: set<string>
    var visited: set<string>
    ghost var order: seq<string>

    constructor (graph: Graph)
      ensures this.graph == graph && visiting == {} && visited == {} && order == []
    {
      this.graph := graph;
      visiting := {};
      visited := {};
      order := [];
    }

    // The finished identifiers are in an order in which references come first.
    ghost predicate Valid()
      reads this
    {
      Ordered(graph, order) && (forall x :: x in visited <==> x in order) && visiting !! visited
    }

    // `path` is the chain of calls that are still open.
    method Visit(id: string, ghost path: seq<string>) returns (ok: bool)
      requires Valid() && Closed(graph) && id in graph && visiting <= graph.Keys
      requires forall x :: x in visiting <==> x in path
      requires path != [] ==> Path(graph, path + [id])
      modifies this
      ensures ok ==> Valid() && visiting == old(visiting) && id in visited && old(visited) <= visited
      ensures !ok ==> exists p :: Cycle(graph, p)
      decreases graph.Keys - visiting
    {
      if id in visiting {
        CycleOnPath(graph, path, id);
        return false;
      }
      if id in visited {
        return true;
      }
      visiting := visiting + {id};
      ghost var here := path + [id];
      assert forall x :: x in visiting <==> x in here;
      var todo := graph[id];
      ghost var done: set<string> := {};
      while todo != {}
        invariant Valid() && visiting == old(visiting) + {id} && old(visited) <= visited
        invariant done <= visited && done + todo == graph[id]
        decreases todo
      {
        var target :| target in todo;
        assert Edge(graph, id, target);
        assert Path(graph, here) by {
          if path == [] {
            assert here == [id];
          }
        }
        PathExtend(graph, here, target);
        ok := Visit(target, here);
        if !ok {
          return;
        }
        todo := todo - {target};
        done := done + {target};
      }
      visiting := visiting - {id};
      OrderedPush(graph, order, id);
      visited := visited + {id};
      order := order + [id];
      return true;
    }
  }

  // An identifier met again while it is open lies on the path, so the path closes into a cycle.
  lemma CycleOnPath(g: Graph, path: seq<string>, id: string)
    requires id in path && Path(g, path + [id])
    ensures exists p :: Cycle(g, p)
  {
    var i :| 0 <= i < |path| && path[i] == id;
    var all := path + [id];
    var p := all[i..];
    forall k | 0 <= k < |p| - 1 ensures Edge(g, p[k], p[k + 1]) {
      assert Edge(g, all[i + k], all[i + k + 1]);
    }
    assert Cycle(g, p);
  }

  // The graph part of validate_bundle: it accepts exactly the graphs that have a rank function.
  method CheckGraph(g: Graph) returns (ok: bool)
    requires Closed(g)
    ensures ok <==> exists rank :: RankFunction(g, rank)
  {
    var check := new GraphCheck(g);
    var rest := g.Keys;
    while rest != {}
      invariant check.Valid() && check.visiting == {} && check.graph == g && rest <= g.Keys
      invariant forall x :: x in g && x !in rest ==> x in check.visited
      decreases rest
    {
      var id :| id in rest;
      ok := check.Visit(id, []);
      if !ok {
        NoRank(g);
        return;
      }
      rest := rest - {id};
    }
    OrderGivesRank(g, check.order);
    return true;
  }

  lemma NoRank(g: Graph)
    requires exists p :: Cycle(g, p)
    ensures !exists rank :: RankFunction(g, rank)
  {
    var p :| Cycle(g, p);
    forall rank | RankFunction(g, rank) ensures false {
      RankDescends(g, rank, p);
    }
  }

  // The two searches agree: after the recursive check, the stack search never refuses.
  lemma RankedClosureSucceeds(g: Graph, roots: set<string>)
    requires Closed(g) && roots <= g.Keys && exists rank :: RankFunction(g, rank)
    ensures !ReachableMissing(g, roots) && !ReachableCycle(g, roots)
  {
    var rank :| RankFunction(g, rank);
    forall p | Cycle(g, p) ensures false {
      RankDescends(g, rank, p);
    }
    forall x | Reachable(g, roots, x) ensures x in g {
      var p :| Path(g, p) && p[0] in roots && p[|p| - 1] == x;
      if |p| >= 2 {
        assert Edge(g, p[|p| - 2], p[|p| - 1]);
      }
    }
  }
}
