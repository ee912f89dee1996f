/** The follow-mode merger: entries wait in a min-heap and leave in timestamp order at every flush. */
module LogMerge {
  import opened Text
  import opened LogEntries

  function Ts(e: Entry): int {
    if e.ts.Some? then e.ts.value else 0
  }

  /** Heap order: by timestamp, then by sequence number. */
  predicate Le(a: Entry, b: Entry) {
    Ts(a) < Ts(b) || (Ts(a) == Ts(b) && a.seqNo <= b.seqNo)
  }

  ghost predicate Sorted(s: seq<Entry>) {
    forall i, j | 0 <= i < j < |s| :: Le(s[i], s[j])
  }

  ghost predicate IsMin(m: multiset<Entry>, e: Entry) {
    e in m && forall x | x in m :: Le(e, x)
  }

  lemma MinExists(m: multiset<Entry>)
    requires m != multiset{}
    ensures exists e :: IsMin(m, e)
    decreases |m|
  {
    var e :| e in m;
    var rest := m - multiset{e};
    if rest == multiset{} {
      assert forall x | x in m :: x == e by {
        assert forall x | x in m && x != e :: x in rest;
      }
      assert IsMin(m, e);
    } else {
      MinExists(rest);
      var f :| IsMin(rest, f);
      var g := if Le(e, f) then e else f;
      forall x | x in m
        ensures Le(g, x)
      {
        assert x == e || x in rest;
      }
      assert IsMin(m, g);
    }
  }

  /** Everything popped comes before everything held. */
  ghost predicate Ahead(popped: seq<Entry>, held: multiset<Entry>) {
    forall i, x | 0 <= i < |popped| && x in held :: Le(popped[i], x)
  }

  /** State of a flush pass over `all`: what left is in order, up to the cutoff and ahead of what is held. */
  ghost predicate Draining(all: multiset<Entry>, held: multiset<Entry>, popped: seq<Entry>, cutoff: int) {
    && all == held + multiset(popped)
    && Sorted(popped) && Ahead(popped, held)
    && forall i | 0 <= i < |popped| :: Ts(popped[i]) <= cutoff
  }

  lemma DrainStart(all: multiset<Entry>, cutoff: int)
    ensures Draining(all, all, [], cutoff)
  {
    assert all + multiset([]) == all;
  }

  lemma TakeConserves(held: multiset<Entry>, popped: seq<Entry>, e: Entry)
    requires e in held
    ensures held - multiset{e} + multiset(popped + [e]) == held + multiset(popped)
  {
    assert held == held - multiset{e} + multiset{e};
    assert multiset(popped + [e]) == multiset(popped) + multiset{e};
  }

  lemma DrainTake(all: multiset<Entry>, held: multiset<Entry>, popped: seq<Entry>, cutoff: int, e: Entry)
    requires Draining(all, held, popped, cutoff) && IsMin(held, e) && Ts(e) <= cutoff
    ensures Draining(all, held - multiset{e}, popped + [e], cutoff)
    ensures |held - multiset{e}| < |held|
  {
    TakeConserves(held, popped, e);
    assert forall x | x in held - multiset{e} :: x in held;
  }

  lemma AllLater(held: multiset<Entry>, e: Entry, cutoff: int)
    requires IsMin(held, e) && Ts(e) > cutoff
    ensures forall x | x in held :: Ts(x) > cutoff
  {
  }

  class EntryHeap {
    var held: multiset<Entry>

    constructor ()
      ensures held == multiset{}
    {
      held := multiset{};
    }

    method Push(e: Entry)
      modifies this
      ensures held == old(held) + multiset{e}
    {
      held := held + multiset{e};
    }

    /** Any least entry; which one of several is not specified. */
    method Peek() returns (e: Option<Entry>)
      ensures e.None? <==> held == multiset{}
      ensures e.Some? ==> IsMin(held, e.value)
    {
      if held == multiset{} {
        return None;
      }
      MinExists(held);
      var least :| least in held && forall x | x in held :: Le(least, x);
      return Some(least);
    }

    method Take(e: Entry)
      modifies this
      ensures held == old(held) - multiset{e}
    {
      held := held - multiset{e};
    }

    /** The flush pass: everything up to the cutoff leaves, in order. */
    method Flush(cutoff: int) returns (popped: seq<Entry>)
      modifies this
      ensures old(held) == held + multiset(popped)
      ensures Sorted(popped)
      ensures forall i | 0 <= i < |popped| :: Ts(popped[i]) <= cutoff
      ensures forall x | x in held :: Ts(x) > cutoff
    {
      popped := [];
      DrainStart(held, cutoff);
      while true
        invariant Draining(old(held), held, popped, cutoff)
        decreases |held|
      {
        hide Draining, IsMin;
        var top := Peek();
        if top.None? {
          break;
        }
        if Ts(top.value) > cutoff {
          AllLater(held, top.value, cutoff);
          break;
        }
        DrainTake(old(held), held, popped, cutoff, top.value);
        Take(top.value);
        popped := popped + [top.value];
      }
    }
  }

  // ----- runs of the merge loop

  datatype Event = Arrived(e: Entry) | Flush(cutoff: int)

  function Pushed(events: seq<Event>): (m: multiset<Entry>) {
    if events == [] then multiset{}
    else
      var last := events[|events| - 1];
      Pushed(events[..|events| - 1]) + if last.Arrived? then multiset{last.e} else multiset{}
  }

  /** The last cutoff of a run, if it flushed at all. */
  function LastCutoff(events: seq<Event>): Option<int> {
    if events == [] then None
    else
      var last := events[|events| - 1];
      if last.Flush? then Some(last.cutoff) else LastCutoff(events[..|events| - 1])
  }

  /** Cutoffs never decrease, and every entry arrives before its timestamp is flushed. */
  predicate Timely(events: seq<Event>) {
    events == [] ||
    var front, last := events[..|events| - 1], events[|events| - 1];
    var cutoff := LastCutoff(front);
    Timely(front) && (cutoff.Some? ==> if last.Flush? then cutoff.value <= last.cutoff else cutoff.value < Ts(last.e))
  }

  function Kept(es: seq<Entry>, keep: Entry -> bool): seq<Entry> {
    if es == [] then []
    else Kept(es[..|es| - 1], keep) + if keep(es[|es| - 1]) then [es[|es| - 1]] else []
  }

  lemma {:induction false} KeptConcat(a: seq<Entry>, b: seq<Entry>, keep: Entry -> bool)
    ensures Kept(a + b, keep) == Kept(a, keep) + Kept(b, keep)
  {
    if b == [] {
      assert a + b == a;
    } else {
      assert (a + b)[..|a + b| - 1] == a + b[..|b| - 1];
      KeptConcat(a, b[..|b| - 1], keep);
    }
  }

  /** Every entry that passes the filter is kept as often as it occurs, and no other. */
  lemma {:induction false} KeptCounts(es: seq<Entry>, keep: Entry -> bool)
    ensures forall e :: multiset(Kept(es, keep))[e] == if keep(e) then multiset(es)[e] else 0
  {
    if es == [] {
    } else {
      var front, last := es[..|es| - 1], es[|es| - 1];
      KeptCounts(front, keep);
      assert es == front + [last];
    }
  }

  /** The entries that pass the filter, in order. */
  method Print(es: seq<Entry>, keep: Entry -> bool) returns (printed: seq<Entry>)
    ensures printed == Kept(es, keep)
  {
    printed := [];
    for j := 0 to |es|
      invariant printed == Kept(es[..j], keep)
    {
      assert es[..j + 1][..j] == es[..j];
      if keep(es[j]) {
        printed := printed + [es[j]];
      }
    }
    assert es[..|es|] == es;
  }

  /** Leaving entries out keeps the order. */
  lemma {:induction false} KeptSorted(es: seq<Entry>, keep: Entry -> bool)
    requires Sorted(es)
    ensures Sorted(Kept(es, keep)) && forall i | 0 <= i < |Kept(es, keep)| :: Kept(es, keep)[i] in es
  {
    if es == [] {
    } else {
      var front, last := es[..|es| - 1], es[|es| - 1];
      KeptSorted(front, keep);
      forall i | 0 <= i < |Kept(front, keep)|
        ensures Le(Kept(front, keep)[i], last)
      {
        var e := Kept(front, keep)[i];
        assert e in front;
        var k :| 0 <= k < |front| && front[k] == e;
        assert es[k] == e;
      }
    }
  }

  // ----- when the output is in order

  /** The flush at `k` takes the entry that arrived at `a`, if no earlier one did. */
  predicate Takes(events: seq<Event>, a: int, k: int) {
    && 0 <= a < k < |events| && events[a].Arrived? && events[k].Flush?
    && Ts(events[a].e) <= events[k].cutoff
  }

  /** The entry that arrived at `b` is still held. */
  ghost predicate Waits(events: seq<Event>, b: int) {
    0 <= b < |events| && events[b].Arrived? && forall m :: !Takes(events, b, m)
  }

  ghost predicate WasTaken(events: seq<Event>, x: Entry) {
    exists a, k :: Takes(events, a, k) && events[a].e == x
  }

  ghost predicate IsWaiting(events: seq<Event>, y: Entry) {
    exists b :: Waits(events, b) && events[b].e == y
  }

  /** No entry that is printed arrives after a flush has printed a greater one. */
  ghost predicate NeverOvertaken(events: seq<Event>, keep: Entry -> bool) {
    forall a, k, b, m | Takes(events, a, k) && k < b && Takes(events, b, m) && keep(events[a].e) && keep(events[b].e) ::
      Le(events[a].e, events[b].e)
  }

  /** The flush after `events` at `cutoff` prints nothing that belongs before what is printed already. */
  ghost predicate FlushFits(events: seq<Event>, cutoff: int, keep: Entry -> bool) {
    forall x, y | WasTaken(events, x) && IsWaiting(events, y) && keep(x) && keep(y) && Ts(y) <= cutoff :: Le(x, y)
  }

  lemma TakesMore(events: seq<Event>, last: Event, a: int, k: int)
    ensures Takes(events + [last], a, k)
       <==> Takes(events, a, k)
            || (k == |events| && 0 <= a < k && events[a].Arrived? && last.Flush? && Ts(events[a].e) <= last.cutoff)
  {
  }

  lemma WaitsMore(events: seq<Event>, last: Event, b: int)
    ensures Waits(events + [last], b)
       <==> if b == |events| then last.Arrived?
            else Waits(events, b) && (last.Flush? ==> Ts(events[b].e) > last.cutoff)
  {
    var all := events + [last];
    forall m
      ensures Takes(all, b, m)
         <==> Takes(events, b, m)
              || (m == |events| && 0 <= b < m && events[b].Arrived? && last.Flush? && Ts(events[b].e) <= last.cutoff)
    {
      TakesMore(events, last, b, m);
    }
    if Waits(all, b) && b != |events| {
      assert !Takes(all, b, |events|);
      assert forall m :: Takes(events, b, m) ==> Takes(all, b, m);
    }
  }

  /** What an arrival and a flush change. */
  lemma WaitingMore(events: seq<Event>, last: Event, y: Entry)
    ensures IsWaiting(events + [last], y)
       <==> if last.Arrived? then IsWaiting(events, y) || y == last.e else IsWaiting(events, y) && Ts(y) > last.cutoff
  {
    var all := events + [last];
    if IsWaiting(all, y) {
      var b :| Waits(all, b) && all[b].e == y;
      WaitsMore(events, last, b);
      if b < |events| {
        assert Waits(events, b) && events[b].e == y;
      }
    }
    if IsWaiting(events, y) {
      var b :| Waits(events, b) && events[b].e == y;
      WaitsMore(events, last, b);
      if last.Flush? ==> Ts(y) > last.cutoff {
        assert Waits(all, b) && all[b].e == y;
      }
    }
    if last.Arrived? && y == last.e {
      WaitsMore(events, last, |events|);
      assert Waits(all, |events|) && all[|events|].e == y;
    }
  }

  lemma TakenMore(events: seq<Event>, last: Event, x: Entry)
    ensures WasTaken(events + [last], x)
       <==> WasTaken(events, x) || (last.Flush? && IsWaiting(events, x) && Ts(x) <= last.cutoff)
  {
    var all := events + [last];
    if WasTaken(all, x) {
      var a, k :| Takes(all, a, k) && all[a].e == x;
      TakesMore(events, last, a, k);
      if !WasTaken(events, x) {
        assert forall m :: !Takes(events, a, m);
        assert Waits(events, a) && events[a].e == x;
      }
    }
    if WasTaken(events, x) {
      var a, k :| Takes(events, a, k) && events[a].e == x;
      TakesMore(events, last, a, k);
      assert all[a].e == x;
    }
    if last.Flush? && IsWaiting(events, x) && Ts(x) <= last.cutoff {
      var b :| Waits(events, b) && events[b].e == x;
      TakesMore(events, last, b, |events|);
      assert all[b].e == x;
    }
  }

  /** What is waiting at a flush is later than what earlier flushes took before its arrival was due. */
  lemma HeldBack(events: seq<Event>, a: int, k: int, b: int)
    requires Takes(events, a, k) && Waits(events, b) && b < k
    ensures Le(events[a].e, events[b].e)
  {
    assert !Takes(events, b, k);
  }

  lemma ArrivalNeverOvertakes(events: seq<Event>, last: Event, keep: Entry -> bool)
    requires last.Arrived?
    ensures NeverOvertaken(events + [last], keep) <==> NeverOvertaken(events, keep)
  {
    var all := events + [last];
    forall a, k
      ensures Takes(all, a, k) <==> Takes(events, a, k)
    {
      TakesMore(events, last, a, k);
    }
    assert forall a, k | Takes(events, a, k) :: all[a] == events[a];
  }

  lemma FlushFitsOne(events: seq<Event>, last: Event, keep: Entry -> bool, x: Entry, y: Entry)
    requires last.Flush? && NeverOvertaken(events + [last], keep)
    requires WasTaken(events, x) && IsWaiting(events, y) && keep(x) && keep(y) && Ts(y) <= last.cutoff
    ensures Le(x, y)
  {
    var all := events + [last];
    var a, k :| Takes(events, a, k) && events[a].e == x;
    var b :| Waits(events, b) && events[b].e == y;
    if b < k {
      HeldBack(events, a, k, b);
    } else {
      TakesMore(events, last, a, k);
      TakesMore(events, last, b, |events|);
      assert all[a] == events[a] && all[b] == events[b] && k != b;
    }
  }

  lemma StillInOrder(events: seq<Event>, last: Event, keep: Entry -> bool, a: int, k: int, b: int, m: int)
    requires last.Flush? && NeverOvertaken(events, keep) && FlushFits(events, last.cutoff, keep)
    requires var all := events + [last];
             Takes(all, a, k) && k < b && Takes(all, b, m) && keep(all[a].e) && keep(all[b].e)
    ensures Le((events + [last])[a].e, (events + [last])[b].e)
  {
    TakesMore(events, last, a, k);
    TakesMore(events, last, b, m);
    assert Takes(events, a, k);
    if m' :| Takes(events, b, m') {
      assert Le(events[a].e, events[b].e);
    } else {
      assert Waits(events, b);
      assert WasTaken(events, events[a].e) && IsWaiting(events, events[b].e);
    }
  }

  lemma FlushOvertakes(events: seq<Event>, last: Event, keep: Entry -> bool)
    requires last.Flush?
    ensures NeverOvertaken(events + [last], keep) <==> NeverOvertaken(events, keep) && FlushFits(events, last.cutoff, keep)
  {
    var all := events + [last];
    if NeverOvertaken(all, keep) {
      forall a, k, b, m | Takes(events, a, k) && k < b && Takes(events, b, m) && keep(events[a].e) && keep(events[b].e)
        ensures Le(events[a].e, events[b].e)
      {
        TakesMore(events, last, a, k);
        TakesMore(events, last, b, m);
        assert all[a] == events[a] && all[b] == events[b];
      }
      forall x, y | WasTaken(events, x) && IsWaiting(events, y) && keep(x) && keep(y) && Ts(y) <= last.cutoff
        ensures Le(x, y)
      {
        FlushFitsOne(events, last, keep, x, y);
      }
    }
    if NeverOvertaken(events, keep) && FlushFits(events, last.cutoff, keep) {
      forall a, k, b, m | Takes(all, a, k) && k < b && Takes(all, b, m) && keep(all[a].e) && keep(all[b].e)
        ensures Le(all[a].e, all[b].e)
      {
        StillInOrder(events, last, keep, a, k, b, m);
      }
    }
  }

  /** State of the loop after `events`: what left and what is held, and whether what was printed is in order. */
  ghost predicate Merged(events: seq<Event>, keep: Entry -> bool, out: seq<Entry>, held: multiset<Entry>) {
    && multiset(out) + held == Pushed(events)
    && (forall x :: x in out <==> WasTaken(events, x))
    && (forall y :: y in held <==> IsWaiting(events, y))
    && (Sorted(Kept(out, keep)) <==> NeverOvertaken(events, keep))
  }

  lemma MergeStart(keep: Entry -> bool)
    ensures Merged([], keep, [], multiset{}) && Kept([], keep) == []
  {
  }

  lemma PushedMore(events: seq<Event>, last: Event)
    ensures Pushed(events + [last]) == Pushed(events) + if last.Arrived? then multiset{last.e} else multiset{}
  {
    assert (events + [last])[..|events|] == events;
  }

  lemma MergeArrival(events: seq<Event>, keep: Entry -> bool, out: seq<Entry>, held: multiset<Entry>, last: Event)
    requires Merged(events, keep, out, held) && last.Arrived?
    ensures Merged(events + [last], keep, out, held + multiset{last.e})
  {
    hide WasTaken, IsWaiting, NeverOvertaken, Sorted, Kept, Pushed;
    PushedMore(events, last);
    ArrivalNeverOvertakes(events, last, keep);
    forall x
      ensures WasTaken(events + [last], x) <==> WasTaken(events, x)
      ensures IsWaiting(events + [last], x) <==> IsWaiting(events, x) || x == last.e
    {
      TakenMore(events, last, x);
      WaitingMore(events, last, x);
    }
  }

  lemma KeptMembers(es: seq<Entry>, keep: Entry -> bool)
    ensures forall e :: e in Kept(es, keep) <==> e in es && keep(e)
  {
    KeptCounts(es, keep);
    forall e
      ensures e in Kept(es, keep) <==> e in es && keep(e)
    {
      assert e in multiset(Kept(es, keep)) <==> e in multiset(es) && keep(e);
    }
  }

  lemma SortedConcat(a: seq<Entry>, b: seq<Entry>)
    ensures Sorted(a + b) <==> Sorted(a) && Sorted(b) && forall x, y | x in a && y in b :: Le(x, y)
  {
    var all := a + b;
    if Sorted(all) {
      assert forall i | 0 <= i < |a| :: all[i] == a[i];
      assert forall j | 0 <= j < |b| :: all[|a| + j] == b[j];
      forall x, y | x in a && y in b
        ensures Le(x, y)
      {
        var i :| 0 <= i < |a| && a[i] == x;
        var j :| 0 <= j < |b| && b[j] == y;
        assert Le(all[i], all[|a| + j]);
      }
    }
  }

  /** What is printed stays in order exactly if the flush fits. */
  lemma FlushPrints(events: seq<Event>, keep: Entry -> bool, out: seq<Entry>, popped: seq<Entry>, cutoff: int)
    requires Sorted(popped) && (forall x :: x in out <==> WasTaken(events, x))
    requires forall y :: y in popped <==> IsWaiting(events, y) && Ts(y) <= cutoff
    ensures Sorted(Kept(out + popped, keep)) <==> Sorted(Kept(out, keep)) && FlushFits(events, cutoff, keep)
  {
    hide WasTaken, IsWaiting, Le, Kept;
    var a, b := Kept(out, keep), Kept(popped, keep);
    KeptConcat(out, popped, keep);
    KeptSorted(popped, keep);
    KeptMembers(out, keep);
    KeptMembers(popped, keep);
    hide Sorted;
    SortedConcat(a, b);
    if forall x, y | x in a && y in b :: Le(x, y) {
      forall x, y | WasTaken(events, x) && IsWaiting(events, y) && keep(x) && keep(y) && Ts(y) <= cutoff
        ensures Le(x, y)
      {
        assert x in a && y in b;
      }
    }
    if FlushFits(events, cutoff, keep) {
      forall x, y | x in a && y in b
        ensures Le(x, y)
      {
        assert WasTaken(events, x) && IsWaiting(events, y);
      }
    }
  }

  lemma MergeFlush(events: seq<Event>, keep: Entry -> bool, out: seq<Entry>, held: multiset<Entry>, last: Event,
                   popped: seq<Entry>, left: multiset<Entry>)
    requires Merged(events, keep, out, held) && last.Flush? && held == left + multiset(popped) && Sorted(popped)
    requires forall i | 0 <= i < |popped| :: Ts(popped[i]) <= last.cutoff
    requires forall x | x in left :: Ts(x) > last.cutoff
    ensures Merged(events + [last], keep, out + popped, left)
  {
    hide WasTaken, IsWaiting, NeverOvertaken, Sorted, Kept, Pushed, FlushFits;
    PushedMore(events, last);
    assert multiset(out + popped) == multiset(out) + multiset(popped);
    forall x
      ensures x in popped <==> IsWaiting(events, x) && Ts(x) <= last.cutoff
      ensures x in left <==> IsWaiting(events, x) && Ts(x) > last.cutoff
    {
      assert x in popped <==> x in multiset(popped);
      assert x in held <==> x in left || x in multiset(popped);
    }
    FlushPrints(events, keep, out, popped, last.cutoff);
    FlushOvertakes(events, last, keep);
    forall x
      ensures WasTaken(events + [last], x) <==> WasTaken(events, x) || (IsWaiting(events, x) && Ts(x) <= last.cutoff)
      ensures IsWaiting(events + [last], x) <==> IsWaiting(events, x) && Ts(x) > last.cutoff
    {
      TakenMore(events, last, x);
      WaitingMore(events, last, x);
    }
  }

  /** For every run of arrivals and flushes: the entries that came out and those still held are exactly those that
      arrived, each once; and what is printed over all flushes is sorted if and only if no printed entry arrives after
      a flush has printed a greater one. */
  method FollowMerge(events: seq<Event>, keep: Entry -> bool)
    returns (printed: seq<Entry>, ghost out: seq<Entry>, left: multiset<Entry>)
    ensures multiset(out) + left == Pushed(events)
    ensures printed == Kept(out, keep)
    ensures forall e :: multiset(printed)[e] + (if keep(e) then left[e] else 0) == if keep(e) then Pushed(events)[e] else 0
    ensures Sorted(printed) <==> NeverOvertaken(events, keep)
  {
    hide Sorted, Kept, Pushed, Le, NeverOvertaken, WasTaken, IsWaiting;
    var heap := new EntryHeap();
    out, printed := [], [];
    MergeStart(keep);
    assert events[..0] == [];
    for i := 0 to |events|
      invariant fresh(heap)
      invariant printed == Kept(out, keep)
      invariant Merged(events[..i], keep, out, heap.held)
    {
      hide Merged;
      ghost var held := heap.held;
      assert events[..i + 1] == events[..i] + [events[i]];
      match events[i]
      case Arrived(e) =>
        heap.Push(e);
        MergeArrival(events[..i], keep, out, held, events[i]);
      case Flush(now) =>
        var popped := heap.Flush(now);
        MergeFlush(events[..i], keep, out, held, events[i], popped, heap.held);
        var more := Print(popped, keep);
        KeptConcat(out, popped, keep);
        printed, out := printed + more, out + popped;
    }
    assert events[..|events|] == events;
    left := heap.held;
    KeptCounts(out, keep);
  }

  /** A flush that came before is not beyond the last cutoff. */
  lemma {:induction false} CutoffsGrow(events: seq<Event>, k: nat)
    requires Timely(events) && k < |events| && events[k].Flush?
    ensures LastCutoff(events).Some? && events[k].cutoff <= LastCutoff(events).value
  {
    var n := |events| - 1;
    if k < n {
      CutoffsGrow(events[..n], k);
    }
  }

  lemma {:induction false} TimelyPrefix(events: seq<Event>, i: nat)
    requires Timely(events) && i <= |events|
    ensures Timely(events[..i])
    decreases |events|
  {
    if i == |events| {
      assert events[..i] == events;
    } else {
      TimelyPrefix(events[..|events| - 1], i);
      assert events[..|events| - 1][..i] == events[..i];
    }
  }

  /** A timely run is never overtaken, whatever is printed. */
  lemma TimelySuffices(events: seq<Event>, keep: Entry -> bool)
    requires Timely(events)
    ensures NeverOvertaken(events, keep)
  {
    forall a, k, b, m | Takes(events, a, k) && k < b && Takes(events, b, m)
      ensures Le(events[a].e, events[b].e)
    {
      TimelyPrefix(events, b + 1);
      var upTo := events[..b + 1];
      assert upTo[..b] == events[..b] && upTo[b] == events[b];
      CutoffsGrow(events[..b], k);
    }
  }

  /** With the delay at zero a flush takes everything up to the current second, so an entry of that second that is read
      after it, from another file with smaller numbers, comes out of order. */
  lemma SameSecondOvertaken(first: Entry, second: Entry, keep: Entry -> bool)
    requires Ts(first) == Ts(second) && first.seqNo > second.seqNo && keep(first) && keep(second)
    ensures !NeverOvertaken([Arrived(first), Flush(Ts(first)), Arrived(second), Flush(Ts(second))], keep)
  {
    var events := [Arrived(first), Flush(Ts(first)), Arrived(second), Flush(Ts(second))];
    assert Takes(events, 0, 1) && Takes(events, 2, 3);
    assert !Le(events[0].e, events[2].e);
  }
}
