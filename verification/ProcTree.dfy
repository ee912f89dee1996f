/** Walks over the process table: breadth first, breadth first with depths, and depth first. */
module ProcTree {
  import opened Text
  import opened Collections

  /** One numeric entry of the process directory; the parent is missing when its stat file is unreadable. */
  datatype Proc = Proc(pid: int, ppid: Option<int>)
  type Tree = map<int, seq<int>>

  function Children(tree: Tree, p: int): seq<int> {
    if p in tree then tree[p] else []
  }

  ghost predicate UniquePids(procs: seq<Proc>) {
    forall i, j | 0 <= i < j < |procs| :: procs[i].pid != procs[j].pid
  }

  /** The parent of every process whose stat file was readable. */
  function Parents(procs: seq<Proc>): map<int, int> {
    if procs == [] then map[]
    else
      var last := procs[|procs| - 1];
      var rest := Parents(procs[..|procs| - 1]);
      if last.ppid.Some? then rest[last.pid := last.ppid.value] else rest
  }

  /** `tree` lists, in some order and once each, the children that the parent map gives every process. */
  ghost predicate Lists(tree: Tree, parents: map<int, int>) {
    forall p :: Distinct(Children(tree, p))
                && forall c :: c in Children(tree, p) <==> c in parents && parents[c] == p
  }

  lemma ParentsKeys(procs: seq<Proc>)
    ensures forall p | p in Parents(procs) :: exists i | 0 <= i < |procs| :: procs[i].pid == p
  {
  }

  /** The parent map says of each process what its entry says. */
  lemma {:induction false} ParentsAre(procs: seq<Proc>)
    requires UniquePids(procs)
    ensures forall c, p :: c in Parents(procs) && Parents(procs)[c] == p <==> Proc(c, Some(p)) in procs
  {
    if procs == [] {
    } else {
      var front, last := procs[..|procs| - 1], procs[|procs| - 1];
      ParentsAre(front);
      assert procs == front + [last];
      assert forall p :: Proc(last.pid, Some(p)) !in front;
    }
  }

  /** One scan of the process directory. */
  method TakeSnapshot(procs: seq<Proc>) returns (tree: Tree)
    requires UniquePids(procs)
    ensures Lists(tree, Parents(procs))
    ensures forall p, c :: c in Children(tree, p) <==> Proc(c, Some(p)) in procs
  {
    tree := map[];
    for i := 0 to |procs|
      invariant Lists(tree, Parents(procs[..i]))
    {
      var parents, pid := Parents(procs[..i]), procs[i].pid;
      assert procs[..i + 1][..i] == procs[..i];
      ParentsKeys(procs[..i]);
      if procs[i].ppid.Some? {
        var ppid := procs[i].ppid.value;
        assert pid !in parents;
        ghost var before := tree;
        tree := tree[ppid := Children(tree, ppid) + [pid]];
        forall p
          ensures Distinct(Children(tree, p))
          ensures forall c :: c in Children(tree, p) <==> c in Parents(procs[..i + 1]) && Parents(procs[..i + 1])[c] == p
        {
          assert Distinct(Children(before, p)) && pid !in Children(before, p);
        }
      }
    }
    assert procs[..|procs|] == procs;
    ParentsAre(procs);
  }

  // ----- descent

  /** `p` is `n` generations below `root`. */
  ghost predicate Below(parents: map<int, int>, root: int, p: int, n: nat)
    decreases n
  {
    if n == 0 then p == root else p in parents && Below(parents, root, parents[p], n - 1)
  }

  ghost predicate Descends(parents: map<int, int>, root: int, p: int) {
    exists n: nat :: Below(parents, root, p, n)
  }

  /** Following parents up from `root` never comes back to it. */
  ghost predicate NotItsOwnDescendant(parents: map<int, int>, root: int) {
    forall n: nat | n > 0 :: !Below(parents, root, root, n)
  }

  lemma ChildBelow(parents: map<int, int>, root: int, p: int, n: nat, c: int)
    requires Below(parents, root, p, n) && c in parents && parents[c] == p
    ensures Below(parents, root, c, n + 1)
  {
  }

  lemma ElemsConcat<T(!new)>(a: seq<T>, b: seq<T>)
    ensures Elems(a + b) == Elems(a) + Elems(b)
  {
    forall x
      ensures x in Elems(a + b) <==> x in Elems(a) + Elems(b)
    {
    }
  }

  lemma DistinctConcat<T(!new)>(a: seq<T>, b: seq<T>)
    requires Distinct(a) && Distinct(b) && Elems(a) !! Elems(b)
    ensures Distinct(a + b)
  {
    forall i, j | 0 <= i < j < |a + b|
      ensures (a + b)[i] != (a + b)[j]
    {
      if i < |a| && j >= |a| {
        assert a[i] in Elems(a) && b[j - |a|] in Elems(b);
      }
    }
  }

  lemma DistinctParts<T(!new)>(a: seq<T>, b: seq<T>)
    requires Distinct(a + b)
    ensures Distinct(a) && Distinct(b) && Elems(a) !! Elems(b)
  {
    var s := a + b;
    assert forall i | 0 <= i < |a| :: a[i] == s[i];
    assert forall i | 0 <= i < |b| :: b[i] == s[|a| + i];
    assert forall i, j | 0 <= i < |a| && 0 <= j < |b| :: a[i] != b[j];
  }

  /** `x` descends from the root and, unless it is the root, was reached from a processed parent. */
  ghost predicate Reached(parents: map<int, int>, root: int, processed: set<int>, x: int) {
    Descends(parents, root, x) && (x == root || (x in parents && parents[x] in processed))
  }

  /** What every walk keeps: everything seen was reached, and the processed ones have all their children seen. */
  ghost predicate Walk(parents: map<int, int>, root: int, seen: set<int>, processed: set<int>) {
    && root in seen && processed <= seen
    && (forall x | x in seen :: Reached(parents, root, processed, x))
    && (forall c | c in parents && parents[c] in processed :: c in seen)
  }

  lemma ChildrenOf(tree: Tree, parents: map<int, int>, p: int)
    requires Lists(tree, parents)
    ensures Distinct(Children(tree, p))
    ensures forall c :: c in Children(tree, p) <==> c in parents && parents[c] == p
    ensures forall c :: c in Elems(Children(tree, p)) <==> c in parents && parents[c] == p
  {
    assert Distinct(Children(tree, p));
  }

  lemma FreshChildren(parents: map<int, int>, root: int, seen: set<int>, processed: set<int>, cur: int, kids: set<int>)
    requires NotItsOwnDescendant(parents, root)
    requires Walk(parents, root, seen, processed) && cur in seen && cur !in processed
    requires forall c :: c in kids <==> c in parents && parents[c] == cur
    ensures kids !! seen && forall c | c in kids :: Descends(parents, root, c)
  {
    assert Reached(parents, root, processed, cur);
    var n: nat :| Below(parents, root, cur, n);
    forall c | c in kids
      ensures c !in seen && Descends(parents, root, c)
    {
      ChildBelow(parents, root, cur, n, c);
      assert c in seen ==> Reached(parents, root, processed, c);
    }
    assert forall c | c in kids :: c !in seen;
  }

  /** Processing one more process adds exactly its children, none of which was reached before. */
  lemma WalkStep(tree: Tree, parents: map<int, int>, root: int, seen: set<int>, processed: set<int>, cur: int)
    requires Lists(tree, parents) && NotItsOwnDescendant(parents, root)
    requires Walk(parents, root, seen, processed) && cur in seen && cur !in processed
    ensures Walk(parents, root, seen + Elems(Children(tree, cur)), processed + {cur})
    ensures Elems(Children(tree, cur)) !! seen
  {
    hide Lists, Elems, Distinct, NotItsOwnDescendant, Descends;
    var kids := Elems(Children(tree, cur));
    ChildrenOf(tree, parents, cur);
    FreshChildren(parents, root, seen, processed, cur, kids);
    forall x | x in seen + kids
      ensures Reached(parents, root, processed + {cur}, x)
    {
      assert x in seen ==> Reached(parents, root, processed, x);
    }
    forall c | c in parents && parents[c] in processed + {cur}
      ensures c in seen + kids
    {
      assert parents[c] == cur ==> c in kids;
    }
  }

  lemma WalkSize(parents: map<int, int>, root: int, seen: set<int>, processed: set<int>, cur: int)
    requires Walk(parents, root, seen, processed) && cur in seen && cur !in processed
    ensures |processed + {cur}| == |processed| + 1 <= |parents.Keys + {root}|
  {
    hide Descends;
    forall x | x in processed + {cur}
      ensures x in parents.Keys + {root}
    {
      assert Reached(parents, root, processed, x);
    }
    SubsetSize(processed + {cur}, parents.Keys + {root});
  }

  lemma WalkStart(parents: map<int, int>, root: int)
    ensures Walk(parents, root, {root}, {})
  {
    assert Below(parents, root, root, 0);
  }

  lemma {:induction false} WalkComplete(parents: map<int, int>, root: int, seen: set<int>, p: int, n: nat)
    requires Walk(parents, root, seen, seen) && Below(parents, root, p, n)
    ensures p in seen
    decreases n
  {
    if n == 0 {
    } else {
      WalkComplete(parents, root, seen, parents[p], n - 1);
    }
  }

  /** When everything seen is processed, the walk has seen exactly the descendants. */
  lemma WalkFinished(parents: map<int, int>, root: int, seen: set<int>)
    requires Walk(parents, root, seen, seen)
    ensures forall x :: x in seen <==> Descends(parents, root, x)
  {
    forall x | Descends(parents, root, x)
      ensures x in seen
    {
      var n: nat :| Below(parents, root, x, n);
      WalkComplete(parents, root, seen, x, n);
    }
  }

  lemma Singleton(x: int)
    ensures Distinct([x]) && Elems([x]) == {x} && Elems<int>([]) == {} && Distinct<int>([])
  {
  }

  lemma InElems(s: seq<int>)
    ensures forall x :: x in s <==> x in Elems(s)
  {
  }

  /** The head of the queue of a breadth-first walk is seen and not yet done. */
  lemma QueueHead(done: seq<int>, queue: seq<int>)
    requires queue != [] && Distinct(done + queue)
    ensures var cur := queue[0];
            cur in Elems(done + queue) && cur !in Elems(done) && Elems(done + [cur]) == Elems(done) + {cur}
  {
    DistinctParts(done, queue);
    ElemsConcat(done, queue);
    ElemsConcat(done, [queue[0]]);
    Singleton(queue[0]);
    assert queue[0] in Elems(queue);
  }

  /** The metrics walk: the root and all its descendants, breadth first. */
  method FindDescendants(tree: Tree, ghost parents: map<int, int>, root: int) returns (out: seq<int>)
    requires Lists(tree, parents) && NotItsOwnDescendant(parents, root)
    ensures Distinct(out) && forall x :: x in out <==> Descends(parents, root, x)
  {
    hide Lists, NotItsOwnDescendant, Walk, Descends, Distinct, Elems;
    out := [root];
    var queue := [root];
    ghost var done: seq<int> := [];
    WalkStart(parents, root);
    Singleton(root);
    while queue != []
      invariant out == done + queue && Distinct(out)
      invariant Walk(parents, root, Elems(out), Elems(done))
      decreases |parents.Keys + {root}| - |Elems(done)|
    {
      var cur := queue[0];
      var children := Children(tree, cur);
      QueueHead(done, queue);
      WalkStep(tree, parents, root, Elems(out), Elems(done), cur);
      WalkSize(parents, root, Elems(out), Elems(done), cur);
      ChildrenOf(tree, parents, cur);
      ElemsConcat(out, children);
      DistinctConcat(out, children);
      queue := queue[1..];
      done := done + [cur];
      out := out + children;
      queue := queue + children;
    }
    assert out == done;
    WalkFinished(parents, root, Elems(out));
    InElems(out);
  }

  /** Every process listed comes after its parent, unless that is the root. */
  ghost predicate ParentsFirst(parents: map<int, int>, root: int, out: seq<int>) {
    forall i | 0 <= i < |out| :: out[i] in parents && (parents[out[i]] == root || parents[out[i]] in out[..i])
  }

  /** What the depth-first walk keeps: the stack holds what was reached and is not processed. */
  ghost predicate DepthFirst(parents: map<int, int>, root: int, out: seq<int>, stack: seq<int>, processed: set<int>) {
    && Walk(parents, root, {root} + Elems(out), processed)
    && Distinct(out) && root !in Elems(out) && Distinct(stack)
    && Elems(stack) !! processed && Elems(stack) + processed == {root} + Elems(out)
    && ParentsFirst(parents, root, out)
  }

  lemma DepthFirstStart(parents: map<int, int>, root: int)
    ensures DepthFirst(parents, root, [], [root], {})
  {
    WalkStart(parents, root);
    Singleton(root);
    assert {root} + Elems([]) == {root};
  }

  lemma TopProcessed(rest: set<int>, pid: int, processed: set<int>, seen: set<int>, kids: set<int>)
    requires pid !in rest && (rest + {pid}) !! processed && rest + {pid} + processed == seen && kids !! seen
    ensures (rest + kids) !! (processed + {pid}) && rest + kids + (processed + {pid}) == seen + kids
  {
  }

  /** The sequences and sets of a depth-first step. */
  lemma Appended(root: int, out: seq<int>, stack: seq<int>, rest: seq<int>, pid: int, processed: set<int>, kids: seq<int>)
    requires Distinct(out) && root !in Elems(out) && Distinct(kids) && Elems(kids) !! ({root} + Elems(out))
    requires Distinct(rest) && pid !in Elems(rest) && Elems(stack) == Elems(rest) + {pid}
    requires Elems(stack) !! processed && Elems(stack) + processed == {root} + Elems(out)
    ensures Distinct(out + kids) && root !in Elems(out + kids) && Distinct(rest + kids)
    ensures {root} + Elems(out) + Elems(kids) == {root} + Elems(out + kids)
    ensures Elems(rest + kids) !! (processed + {pid}) && Elems(rest + kids) + (processed + {pid}) == {root} + Elems(out + kids)
  {
    hide Distinct, Elems;
    TopProcessed(Elems(rest), pid, processed, {root} + Elems(out), Elems(kids));
    ElemsConcat(out, kids);
    ElemsConcat(rest, kids);
    DistinctConcat(out, kids);
    DistinctConcat(rest, kids);
  }

  lemma StackTop(stack: seq<int>)
    requires stack != [] && Distinct(stack)
    ensures var pid, rest := stack[|stack| - 1], stack[..|stack| - 1];
            Distinct(rest) && pid !in Elems(rest) && Elems(stack) == Elems(rest) + {pid}
  {
    var pid, rest := stack[|stack| - 1], stack[..|stack| - 1];
    assert stack == rest + [pid];
    Singleton(pid);
    DistinctParts(rest, [pid]);
    ElemsConcat(rest, [pid]);
  }

  lemma AppendChildren(parents: map<int, int>, root: int, out: seq<int>, pid: int, kids: seq<int>)
    requires ParentsFirst(parents, root, out) && (pid == root || pid in out)
    requires forall c | c in kids :: c in parents && parents[c] == pid
    ensures ParentsFirst(parents, root, out + kids)
  {
    var all := out + kids;
    forall i | 0 <= i < |all|
      ensures all[i] in parents && (parents[all[i]] == root || parents[all[i]] in all[..i])
    {
      if i < |out| {
        assert all[..i] == out[..i] && all[i] == out[i];
      } else {
        assert all[i] == kids[i - |out|] && kids[i - |out|] in kids;
        assert all[..i] == out + kids[..i - |out|];
      }
    }
  }

  lemma DepthFirstStep(tree: Tree, parents: map<int, int>, root: int, out: seq<int>, stack: seq<int>, processed: set<int>)
    requires Lists(tree, parents) && NotItsOwnDescendant(parents, root)
    requires stack != [] && DepthFirst(parents, root, out, stack, processed)
    ensures var pid := stack[|stack| - 1];
            var kids := Children(tree, pid);
            DepthFirst(parents, root, out + kids, stack[..|stack| - 1] + kids, processed + {pid})
            && |processed + {pid}| == |processed| + 1 <= |parents.Keys + {root}|
  {
    hide Lists, NotItsOwnDescendant, Walk, Descends, ParentsFirst, Distinct, Elems;
    var pid, rest, seen := stack[|stack| - 1], stack[..|stack| - 1], {root} + Elems(out);
    StackTop(stack);
    var kids := Children(tree, pid);
    ChildrenOf(tree, parents, pid);
    WalkStep(tree, parents, root, seen, processed, pid);
    WalkSize(parents, root, seen, processed, pid);
    assert pid == root || pid in out by { InElems(out); }
    AppendChildren(parents, root, out, pid, kids);
    Appended(root, out, stack, rest, pid, processed, kids);
  }

  lemma DepthFirstEnd(parents: map<int, int>, root: int, out: seq<int>, processed: set<int>)
    requires DepthFirst(parents, root, out, [], processed)
    ensures Distinct(out) && ParentsFirst(parents, root, out)
    ensures forall x :: x in out <==> x != root && Descends(parents, root, x)
  {
    hide Walk, Descends, ParentsFirst, Distinct;
    assert processed == {root} + Elems(out);
    WalkFinished(parents, root, {root} + Elems(out));
  }

  /** The stop walk: all proper descendants, each after its parent. */
  method WalkDescendants(tree: Tree, ghost parents: map<int, int>, root: int) returns (out: seq<int>)
    requires Lists(tree, parents) && NotItsOwnDescendant(parents, root)
    ensures Distinct(out) && forall x :: x in out <==> x != root && Descends(parents, root, x)
    ensures ParentsFirst(parents, root, out)
  {
    hide Lists, NotItsOwnDescendant, Walk, Descends, ParentsFirst, Distinct, Elems, DepthFirst;
    out := [];
    var stack := [root];
    ghost var processed: set<int> := {};
    DepthFirstStart(parents, root);
    while stack != []
      invariant DepthFirst(parents, root, out, stack, processed)
      decreases |parents.Keys + {root}| - |processed|
    {
      var pid := stack[|stack| - 1];
      DepthFirstStep(tree, parents, root, out, stack, processed);
      stack := stack[..|stack| - 1];
      var kids := Children(tree, pid);
      out := out + kids;
      stack := stack + kids;
      processed := processed + {pid};
    }
    DepthFirstEnd(parents, root, out, processed);
  }

  // ----- the walks do not end exactly when the root is its own descendant

  /** The worklist after `k` steps of a walk that takes its next process from the front (a queue) or from the
      back (a stack), if the walk has not ended by then. */
  function WorkAfter(tree: Tree, work: seq<int>, queue: bool, k: nat): seq<int>
    decreases k
  {
    if k == 0 || work == [] then work
    else if queue then WorkAfter(tree, work[1..] + Children(tree, work[0]), queue, k - 1)
    else WorkAfter(tree, work[..|work| - 1] + Children(tree, work[|work| - 1]), queue, k - 1)
  }

  /** The first process on the way from `x` down to `p`. */
  lemma {:induction false} StepDown(parents: map<int, int>, x: int, p: int, n: nat) returns (y: int)
    requires n > 0 && Below(parents, x, p, n)
    ensures y in parents && parents[y] == x && Below(parents, y, p, n - 1)
    decreases n
  {
    if n == 1 {
      y := p;
    } else {
      y := StepDown(parents, x, parents[p], n - 1);
    }
  }

  /** Somebody in the worklist has `root` below it, so it never runs dry. */
  lemma {:induction false} NeverEmpty(tree: Tree, parents: map<int, int>, root: int, cycle: nat,
                                      work: seq<int>, queue: bool, x: int, m: nat, k: nat)
    requires Lists(tree, parents) && cycle > 0 && Below(parents, root, root, cycle)
    requires x in work && Below(parents, x, root, m)
    ensures WorkAfter(tree, work, queue, k) != []
    decreases k
  {
    if k == 0 {
    } else {
      var cur, rest := if queue then work[0] else work[|work| - 1], if queue then work[1..] else work[..|work| - 1];
      if x in rest {
        NeverEmpty(tree, parents, root, cycle, rest + Children(tree, cur), queue, x, m, k - 1);
      } else {
        var n := if m > 0 then m else cycle;
        var y := StepDown(parents, x, root, n);
        ChildrenOf(tree, parents, x);
        assert x == cur && y in Children(tree, cur);
        NeverEmpty(tree, parents, root, cycle, rest + Children(tree, cur), queue, y, n - 1, k - 1);
      }
    }
  }

  /** If the root is its own descendant, neither the queue nor the stack of a walk is ever empty. */
  lemma WalkDiverges(tree: Tree, parents: map<int, int>, root: int, queue: bool, k: nat)
    requires Lists(tree, parents) && !NotItsOwnDescendant(parents, root)
    ensures WorkAfter(tree, [root], queue, k) != []
  {
    var cycle: nat :| cycle > 0 && Below(parents, root, root, cycle);
    NeverEmpty(tree, parents, root, cycle, [root], queue, root, 0, k);
  }

  // ----- the levelled walk

  const PAGE_SIZE := 4096

  datatype ChildStat = ChildStat(pid: int, depth: nat, memoryBytes: int)
  datatype Queued = Queued(pid: int, depth: nat)

  /** `p` is `n` generations below `root` and every process on the way, both included, is readable. */
  ghost predicate ReadableBelow(parents: map<int, int>, rss: map<int, int>, root: int, p: int, n: nat)
    decreases n
  {
    && p in rss
    && if n == 0 then p == root else p in parents && ReadableBelow(parents, rss, root, parents[p], n - 1)
  }

  /** The links that start at a readable process. */
  ghost function Pruned(parents: map<int, int>, rss: map<int, int>): map<int, int> {
    map c | c in parents && parents[c] in rss :: parents[c]
  }

  ghost function PrunedTree(tree: Tree, rss: map<int, int>): Tree {
    map p | p in tree && p in rss :: tree[p]
  }

  lemma PrunedLists(tree: Tree, parents: map<int, int>, rss: map<int, int>)
    requires Lists(tree, parents)
    ensures Lists(PrunedTree(tree, rss), Pruned(parents, rss))
  {
    forall p
      ensures Distinct(Children(PrunedTree(tree, rss), p))
      ensures forall c :: c in Children(PrunedTree(tree, rss), p) <==> c in Pruned(parents, rss) && Pruned(parents, rss)[c] == p
    {
      ChildrenOf(tree, parents, p);
    }
  }

  lemma {:induction false} PrunedBelow(parents: map<int, int>, rss: map<int, int>, root: int, p: int, n: nat)
    ensures ReadableBelow(parents, rss, root, p, n) <==> p in rss && Below(Pruned(parents, rss), root, p, n)
    decreases n
  {
    if n > 0 && p in parents {
      PrunedBelow(parents, rss, root, parents[p], n - 1);
    }
  }

  function Pids(qs: seq<Queued>): (pids: seq<int>)
    ensures |pids| == |qs| && forall i | 0 <= i < |qs| :: pids[i] == qs[i].pid
  {
    seq(|qs|, i requires 0 <= i < |qs| => qs[i].pid)
  }

  function AtDepth(pids: seq<int>, depth: nat): (qs: seq<Queued>)
    ensures |qs| == |pids| && forall i | 0 <= i < |qs| :: qs[i] == Queued(pids[i], depth)
  {
    seq(|pids|, i requires 0 <= i < |pids| => Queued(pids[i], depth))
  }

  /** The entries reported for the readable ones of `done`. */
  function Reported(done: seq<Queued>, rss: map<int, int>): (out: seq<ChildStat>) {
    if done == [] then []
    else
      var q := done[|done| - 1];
      Reported(done[..|done| - 1], rss) + if q.pid in rss then [ChildStat(q.pid, q.depth, rss[q.pid] * PAGE_SIZE)] else []
  }

  /** Depths never decrease, and the queue spans at most two levels. */
  ghost predicate Levels(parents: map<int, int>, root: int, done: seq<Queued>, queue: seq<Queued>) {
    var all := done + queue;
    && (forall i | 0 <= i < |all| :: Below(parents, root, all[i].pid, all[i].depth))
    && (forall i, j | 0 <= i < j < |all| :: all[i].depth <= all[j].depth)
    && (forall i | 0 <= i < |queue| :: queue[i].depth <= queue[0].depth + 1)
  }

  lemma LevelsStep(parents: map<int, int>, root: int, done: seq<Queued>, queue: seq<Queued>, kids: seq<int>)
    requires queue != [] && Levels(parents, root, done, queue)
    requires forall c | c in kids :: c in parents && parents[c] == queue[0].pid
    ensures Levels(parents, root, done + [queue[0]], queue[1..] + AtDepth(kids, queue[0].depth + 1))
  {
    var cur, more := queue[0], AtDepth(kids, queue[0].depth + 1);
    var all, all' := done + queue, done + [cur] + (queue[1..] + more);
    assert all[|done|] == cur;
    assert forall i | 0 <= i < |all| :: all'[i] == all[i];
    assert forall i | |all| <= i < |all'| :: all'[i] == more[i - |all|] && all'[i].pid in kids;
    assert forall i | |done| <= i < |all| :: all[i] == queue[i - |done|];
    forall i | 0 <= i < |all'|
      ensures Below(parents, root, all'[i].pid, all'[i].depth) && all'[i].depth <= cur.depth + 1
    {
      if i >= |all| {
        ChildBelow(parents, root, cur.pid, cur.depth, all'[i].pid);
      }
    }
    forall i | |done| + 1 <= i < |all'|
      ensures all'[i].depth >= cur.depth && all'[i] == (queue[1..] + more)[i - |done| - 1]
    {
    }
    var queue' := queue[1..] + more;
    forall i | 0 <= i < |queue'|
      ensures queue'[i].depth <= queue'[0].depth + 1
    {
      assert queue'[i] == all'[|done| + 1 + i] && queue'[0] == all'[|done| + 1];
    }
  }

  /** What the levelled walk keeps. */
  ghost predicate LevelWalk(parents: map<int, int>, root: int, done: seq<Queued>, queue: seq<Queued>) {
    && Distinct(Pids(done + queue))
    && Walk(parents, root, Elems(Pids(done + queue)), Elems(Pids(done)))
    && Levels(parents, root, done, queue)
  }

  lemma LevelsStart(parents: map<int, int>, root: int)
    ensures LevelWalk(parents, root, [], [Queued(root, 0)])
  {
    hide Walk, Elems, Distinct;
    var start := [Queued(root, 0)];
    assert [] + start == start && Pids(start) == [root] && Pids([]) == [];
    WalkStart(parents, root);
    Singleton(root);
  }

  lemma StepPids(done: seq<Queued>, queue: seq<Queued>, kids: seq<int>)
    requires queue != []
    ensures Pids(done + queue) == Pids(done) + Pids(queue)
    ensures Pids(done + [queue[0]]) == Pids(done) + [queue[0].pid]
    ensures Pids(done + [queue[0]] + (queue[1..] + AtDepth(kids, queue[0].depth + 1))) == Pids(done) + Pids(queue) + kids
  {
  }

  lemma LevelWalkStep(tree: Tree, parents: map<int, int>, root: int, done: seq<Queued>, queue: seq<Queued>)
    requires Lists(tree, parents) && NotItsOwnDescendant(parents, root)
    requires queue != [] && LevelWalk(parents, root, done, queue)
    ensures var cur := queue[0];
            LevelWalk(parents, root, done + [cur], queue[1..] + AtDepth(Children(tree, cur.pid), cur.depth + 1))
            && |Elems(Pids(done + [cur]))| == |Elems(Pids(done))| + 1 <= |parents.Keys + {root}|
  {
    hide Lists, NotItsOwnDescendant, Walk, Levels, Distinct, Elems;
    var cur := queue[0];
    var kids := Children(tree, cur.pid);
    var a, b := Pids(done), Pids(queue);
    StepPids(done, queue, kids);
    QueueHead(a, b);
    ChildrenOf(tree, parents, cur.pid);
    WalkStep(tree, parents, root, Elems(a + b), Elems(a), cur.pid);
    WalkSize(parents, root, Elems(a + b), Elems(a), cur.pid);
    ElemsConcat(a + b, kids);
    DistinctConcat(a + b, kids);
    LevelsStep(parents, root, done, queue, kids);
  }

  ghost predicate Ascending(out: seq<ChildStat>) {
    forall i, j | 0 <= i < j < |out| :: out[i].pid != out[j].pid && out[i].depth <= out[j].depth
  }

  /** `out` reports exactly the processes reached through readable ones, once each, with their true
      depths and memory, in order of depth. */
  ghost predicate Levelled(parents: map<int, int>, rss: map<int, int>, root: int, out: seq<ChildStat>) {
    && Ascending(out)
    && (forall i | 0 <= i < |out| ::
          ReadableBelow(parents, rss, root, out[i].pid, out[i].depth)
          && out[i].pid in rss && out[i].memoryBytes == rss[out[i].pid] * PAGE_SIZE)
    && (forall p, n: nat | ReadableBelow(parents, rss, root, p, n) ::
          exists i | 0 <= i < |out| :: out[i].pid == p && out[i].depth == n)
  }

  function StatOf(q: Queued, rss: map<int, int>): ChildStat
    requires q.pid in rss
  {
    ChildStat(q.pid, q.depth, rss[q.pid] * PAGE_SIZE)
  }

  ghost predicate Reports(done: seq<Queued>, rss: map<int, int>, e: ChildStat) {
    exists k | 0 <= k < |done| :: done[k].pid in rss && e == StatOf(done[k], rss)
  }

  lemma {:induction false} ReportedFrom(done: seq<Queued>, rss: map<int, int>)
    ensures forall i | 0 <= i < |Reported(done, rss)| :: Reports(done, rss, Reported(done, rss)[i])
  {
    if done == [] {
    } else {
      var front, q := done[..|done| - 1], done[|done| - 1];
      ReportedFrom(front, rss);
      var before, out := Reported(front, rss), Reported(done, rss);
      assert before <= out;
      forall i | 0 <= i < |out|
        ensures Reports(done, rss, out[i])
      {
        if i < |before| {
          assert Reports(front, rss, before[i]);
          var k :| 0 <= k < |front| && front[k].pid in rss && before[i] == StatOf(front[k], rss);
          assert done[k] == front[k];
        } else {
          assert out[i] == StatOf(q, rss);
        }
      }
    }
  }

  lemma AscendingAppend(before: seq<ChildStat>, q: Queued, rss: map<int, int>)
    requires Ascending(before) && forall i | 0 <= i < |before| :: before[i].pid != q.pid && before[i].depth <= q.depth
    ensures q.pid in rss ==> Ascending(before + [StatOf(q, rss)])
  {
  }

  lemma {:induction false} ReportedOrdered(done: seq<Queued>, rss: map<int, int>)
    requires forall i, j | 0 <= i < j < |done| :: done[i].pid != done[j].pid && done[i].depth <= done[j].depth
    ensures Ascending(Reported(done, rss))
  {
    if done == [] {
    } else {
      var front, q := done[..|done| - 1], done[|done| - 1];
      ReportedOrdered(front, rss);
      ReportedFrom(front, rss);
      var before := Reported(front, rss);
      forall i | 0 <= i < |before|
        ensures before[i].pid != q.pid && before[i].depth <= q.depth
      {
        assert Reports(front, rss, before[i]);
        var k :| 0 <= k < |front| && front[k].pid in rss && before[i] == StatOf(front[k], rss);
        assert done[k] == front[k];
      }
      assert Ascending(before);
      AscendingAppend(before, q, rss);
    }
  }

  lemma {:induction false} ReportedAll(done: seq<Queued>, rss: map<int, int>)
    ensures forall k | 0 <= k < |done| && done[k].pid in rss :: StatOf(done[k], rss) in Reported(done, rss)
  {
    if done == [] {
    } else {
      var front, q := done[..|done| - 1], done[|done| - 1];
      ReportedAll(front, rss);
      var before, out := Reported(front, rss), Reported(done, rss);
      assert q.pid in rss ==> out[|out| - 1] == StatOf(q, rss);
      forall k | 0 <= k < |front| && done[k].pid in rss
        ensures StatOf(done[k], rss) in out
      {
        assert front[k] == done[k] && StatOf(front[k], rss) in before;
      }
    }
  }

  /** A process has one depth only. */
  lemma {:induction false} OneDepth(parents: map<int, int>, root: int, p: int, m: nat, n: nat)
    requires NotItsOwnDescendant(parents, root) && Below(parents, root, p, m) && Below(parents, root, p, n)
    ensures m == n
    decreases m
  {
    if m > 0 && n > 0 {
      OneDepth(parents, root, parents[p], m - 1, n - 1);
    }
  }

  lemma LevelWalkFinds(parents: map<int, int>, rss: map<int, int>, root: int, done: seq<Queued>, p: int, n: nat)
    requires NotItsOwnDescendant(Pruned(parents, rss), root) && LevelWalk(Pruned(parents, rss), root, done, [])
    requires ReadableBelow(parents, rss, root, p, n)
    ensures exists i | 0 <= i < |Reported(done, rss)| :: Reported(done, rss)[i].pid == p && Reported(done, rss)[i].depth == n
  {
    hide Pruned, Walk, Reported, NotItsOwnDescendant, ReadableBelow;
    var pruned := Pruned(parents, rss);
    assert done + [] == done;
    PrunedBelow(parents, rss, root, p, n);
    WalkFinished(pruned, root, Elems(Pids(done)));
    assert p in Elems(Pids(done));
    var k :| 0 <= k < |done| && Pids(done)[k] == p;
    OneDepth(pruned, root, p, done[k].depth, n);
    ReportedAll(done, rss);
    assert StatOf(done[k], rss) in Reported(done, rss);
  }

  lemma LevelWalkEnd(parents: map<int, int>, rss: map<int, int>, root: int, done: seq<Queued>)
    requires NotItsOwnDescendant(Pruned(parents, rss), root) && LevelWalk(Pruned(parents, rss), root, done, [])
    ensures Levelled(parents, rss, root, Reported(done, rss))
  {
    hide Pruned, Walk, Reported, NotItsOwnDescendant;
    var pruned, out := Pruned(parents, rss), Reported(done, rss);
    assert done + [] == done;
    assert forall i | 0 <= i < |done| :: Pids(done)[i] == done[i].pid;
    ReportedFrom(done, rss);
    ReportedOrdered(done, rss);
    forall i | 0 <= i < |out|
      ensures ReadableBelow(parents, rss, root, out[i].pid, out[i].depth)
      ensures out[i].pid in rss && out[i].memoryBytes == rss[out[i].pid] * PAGE_SIZE
    {
      assert Reports(done, rss, out[i]);
      PrunedBelow(parents, rss, root, out[i].pid, out[i].depth);
    }
    forall p, n: nat | ReadableBelow(parents, rss, root, p, n)
      ensures exists i | 0 <= i < |out| :: out[i].pid == p && out[i].depth == n
    {
      LevelWalkFinds(parents, rss, root, done, p, n);
    }
  }

  /** The process tree as listed to the user: breadth first, depths included, unreadable processes and
      what only they lead to left out. */
  method GetProcessTree(tree: Tree, ghost parents: map<int, int>, rss: map<int, int>, root: int)
    returns (out: seq<ChildStat>)
    requires Lists(tree, parents) && NotItsOwnDescendant(Pruned(parents, rss), root)
    ensures Levelled(parents, rss, root, out)
  {
    hide Lists, NotItsOwnDescendant, Walk, Levels, Levelled, Distinct, Elems, Pruned;
    out := [];
    var queue := [Queued(root, 0)];
    ghost var done: seq<Queued>, pruned := [], Pruned(parents, rss);
    PrunedLists(tree, parents, rss);
    LevelsStart(pruned, root);
    while queue != []
      invariant LevelWalk(pruned, root, done, queue)
      invariant out == Reported(done, rss)
      decreases |pruned.Keys + {root}| - |Elems(Pids(done))|
    {
      var cur := queue[0];
      LevelWalkStep(PrunedTree(tree, rss), pruned, root, done, queue);
      ghost var kids := Children(PrunedTree(tree, rss), cur.pid);
      queue := queue[1..];
      done := done + [cur];
      assert done[..|done| - 1] + [cur] == done;
      if cur.pid !in rss {
        assert kids == [] && queue + AtDepth(kids, cur.depth + 1) == queue;
        continue;
      }
      out := out + [ChildStat(cur.pid, cur.depth, rss[cur.pid] * PAGE_SIZE)];
      queue := queue + AtDepth(Children(tree, cur.pid), cur.depth + 1);
    }
    LevelWalkEnd(parents, rss, root, done);
  }

  /** The queue of the levelled walk after `k` steps, if it has not ended by then. */
  function LevelQueueAfter(tree: Tree, rss: map<int, int>, queue: seq<Queued>, k: nat): seq<Queued>
    decreases k
  {
    if k == 0 || queue == [] then queue
    else
      var cur := queue[0];
      var kids := if cur.pid in rss then AtDepth(Children(tree, cur.pid), cur.depth + 1) else [];
      LevelQueueAfter(tree, rss, queue[1..] + kids, k - 1)
  }

  /** It is the queue of the plain walk over the readable processes. */
  lemma {:induction false} LevelQueueIsPruned(tree: Tree, rss: map<int, int>, queue: seq<Queued>, k: nat)
    ensures Pids(LevelQueueAfter(tree, rss, queue, k)) == WorkAfter(PrunedTree(tree, rss), Pids(queue), true, k)
    decreases k
  {
    if k > 0 && queue != [] {
      var cur := queue[0];
      var kids := if cur.pid in rss then AtDepth(Children(tree, cur.pid), cur.depth + 1) else [];
      assert Pids(queue[1..] + kids) == Pids(queue)[1..] + Children(PrunedTree(tree, rss), cur.pid);
      LevelQueueIsPruned(tree, rss, queue[1..] + kids, k - 1);
    }
  }

  /** The levelled walk does not end if the root is its own descendant through readable processes. */
  lemma LevelWalkDiverges(tree: Tree, parents: map<int, int>, rss: map<int, int>, root: int, k: nat)
    requires Lists(tree, parents) && !NotItsOwnDescendant(Pruned(parents, rss), root)
    ensures LevelQueueAfter(tree, rss, [Queued(root, 0)], k) != []
  {
    hide Lists, NotItsOwnDescendant, Pruned, LevelQueueAfter;
    PrunedLists(tree, parents, rss);
    WalkDiverges(PrunedTree(tree, rss), Pruned(parents, rss), root, true, k);
    LevelQueueIsPruned(tree, rss, [Queued(root, 0)], k);
    assert Pids([Queued(root, 0)]) == [root];
  }

  // ----- totals

  /** Ticks and resident pages of the readable ones of `pids`. */
  function Totals(pids: seq<int>, stats: map<int, (int, int)>): (int, int) {
    if pids == [] then (0, 0)
    else
      var (ticks, pages) := Totals(pids[..|pids| - 1], stats);
      var p := pids[|pids| - 1];
      if p in stats then (ticks + stats[p].0, pages + stats[p].1) else (ticks, pages)
  }

  /** The summing loop of the collector. */
  method Collect(pids: seq<int>, stats: map<int, (int, int)>) returns (ticks: int, memoryBytes: int)
    ensures (ticks, memoryBytes) == (Totals(pids, stats).0, Totals(pids, stats).1 * PAGE_SIZE)
  {
    var pages := 0;
    ticks := 0;
    for i := 0 to |pids|
      invariant (ticks, pages) == Totals(pids[..i], stats)
    {
      assert pids[..i + 1][..i] == pids[..i];
      if pids[i] in stats {
        ticks, pages := ticks + stats[pids[i]].0, pages + stats[pids[i]].1;
      }
    }
    assert pids[..|pids|] == pids;
    memoryBytes := pages * PAGE_SIZE;
  }

  lemma {:induction false} TotalsWithout(pids: seq<int>, stats: map<int, (int, int)>, k: nat)
    requires k < |pids|
    ensures var rest, p, total := Totals(pids[..k] + pids[k + 1..], stats), pids[k], Totals(pids, stats);
            total == if p in stats then (rest.0 + stats[p].0, rest.1 + stats[p].1) else rest
  {
    var last := |pids| - 1;
    var rest := pids[..k] + pids[k + 1..];
    if k == last {
      assert rest == pids[..last];
    } else {
      TotalsWithout(pids[..last], stats, k);
      assert rest[..|rest| - 1] == pids[..last][..k] + pids[..last][k + 1..];
    }
  }

  lemma WithoutOne(s: seq<int>, k: nat)
    requires k < |s|
    ensures multiset(s[..k] + s[k + 1..]) == multiset(s) - multiset{s[k]}
  {
    var a, b := s[..k], s[k + 1..];
    assert s == a + [s[k]] + b;
    assert multiset(s) == multiset(a) + multiset{s[k]} + multiset(b);
    assert multiset(a + b) == multiset(a) + multiset(b);
  }

  lemma SameWithoutOne(a: seq<int>, b: seq<int>, k: nat)
    requires a != [] && k < |b| && b[k] == a[|a| - 1] && multiset(a) == multiset(b)
    ensures multiset(a[..|a| - 1]) == multiset(b[..k] + b[k + 1..])
  {
    var last := |a| - 1;
    WithoutOne(a, last);
    WithoutOne(b, k);
    assert a[..last] + a[last + 1..] == a[..last];
  }

  /** The totals depend on which processes are listed, not on the order. */
  lemma {:induction false} TotalsIgnoreOrder(a: seq<int>, b: seq<int>, stats: map<int, (int, int)>)
    requires multiset(a) == multiset(b)
    ensures Totals(a, stats) == Totals(b, stats)
    decreases |a|
  {
    if a == [] {
      assert |multiset(b)| == |b|;
      assert b == [];
    } else {
      var p, front := a[|a| - 1], a[..|a| - 1];
      assert a == front + [p] && p in multiset(b);
      var k :| 0 <= k < |b| && b[k] == p;
      SameWithoutOne(a, b, k);
      TotalsIgnoreOrder(front, b[..k] + b[k + 1..], stats);
      TotalsWithout(b, stats, k);
    }
  }

  lemma DistinctOnce(s: seq<int>)
    requires Distinct(s)
    ensures forall x :: multiset(s)[x] == if x in s then 1 else 0
  {
    if s != [] {
      var front, last := s[..|s| - 1], s[|s| - 1];
      DistinctOnce(front);
      assert s == front + [last] && last !in front;
    }
  }

  /** Two walks over the same processes, in whatever order the directory listed them, total the same. */
  lemma WalksTotalTheSame(parents: map<int, int>, root: int, a: seq<int>, b: seq<int>, stats: map<int, (int, int)>)
    requires Distinct(a) && forall x :: x in a <==> Descends(parents, root, x)
    requires Distinct(b) && forall x :: x in b <==> Descends(parents, root, x)
    ensures Totals(a, stats) == Totals(b, stats)
  {
    DistinctOnce(a);
    DistinctOnce(b);
    assert multiset(a) == multiset(b);
    TotalsIgnoreOrder(a, b, stats);
  }

  /** The totals are sums: over two lists together they add up, and one process counts for what it used, or for nothing if
      it cannot be read. */
  lemma {:induction false} TotalsAdd(a: seq<int>, b: seq<int>, stats: map<int, (int, int)>)
    ensures var x, y := Totals(a, stats), Totals(b, stats); Totals(a + b, stats) == (x.0 + y.0, x.1 + y.1)
    ensures forall p :: Totals([p], stats) == if p in stats then stats[p] else (0, 0)
  {
    if b == [] {
      assert a + b == a;
    } else {
      TotalsAdd(a, b[..|b| - 1], stats);
      assert (a + b)[..|a + b| - 1] == a + b[..|b| - 1];
    }
    forall p
      ensures Totals([p], stats) == if p in stats then stats[p] else (0, 0)
    {
      assert [p][..0] == [];
    }
  }
}
