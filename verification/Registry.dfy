/** The daemon's process registry: scaling a group of instances, and resolving what a user typed. */
module Registry {
  import opened Text
  import opened Decimal
  import opened Collections

  const MAX_TARGET := 1024

  /** A registered process: its name and namespace, and the rest of its specification. */
  datatype Proc = Proc(name: string, namespace: string, env: Option<map<string, string>>, settings: string)
  type Processes = map<string, Proc>

  /** A new instance made from `template`; where that has no environment, it gets an empty one. */
  function Copy(template: Proc, name: string, ns: string): Proc {
    template.(name := name, namespace := ns, env := Some(if template.env.Some? then template.env.value else map[]))
  }

  function Suffixed(base: string, n: nat): string {
    base + "-" + FormatNat(n)
  }

  /** Whether `name` is `base` followed by a dash and a 32-bit number. */
  predicate HasNumber(name: string, base: string) {
    var prefix := base + "-";
    |prefix| <= |name| && name[..|prefix|] == prefix && ParseInt(name[|prefix|..], 0, U32_MAX).Some?
  }

  /** An instance of the group `base` in namespace `ns`. */
  predicate IsInstance(p: Proc, ns: string, base: string) {
    p.namespace == ns && (p.name == base || HasNumber(p.name, base))
  }

  function Instances(procs: Processes, ns: string, base: string): (ids: set<string>) {
    set id | id in procs && IsInstance(procs[id], ns, base)
  }

  predicate IsU32(digits: string) {
    digits != "" && AllDigits(digits) && Value(digits) <= 4_294_967_295
  }

  function Numbered(base: string, plus: bool, digits: string): string {
    base + "-" + ((if plus then "+" else "") + digits)
  }

  lemma NumberedHasNumber(base: string, plus: bool, digits: string)
    requires IsU32(digits)
    ensures HasNumber(Numbered(base, plus, digits), base)
  {
    var prefix, text := base + "-", (if plus then "+" else "") + digits;
    var name := prefix + text;
    assert name[..|prefix|] == prefix && name[|prefix|..] == text;
    assert IsDigit(digits[0]) && (plus ==> text[1..] == digits) && (!plus ==> text == digits);
  }

  /** The names of numbered instances: the base, a dash and a number of 32 bits in digits, leading zeros and one plus sign
      allowed. */
  lemma NumberedExactly(name: string, base: string)
    ensures HasNumber(name, base) <==> exists plus, digits :: IsU32(digits) && name == Numbered(base, plus, digits)
  {
    if HasNumber(name, base) {
      var prefix := base + "-";
      var text := name[|prefix|..];
      var plus := text != "" && text[0] == '+';
      var digits := if plus then text[1..] else text;
      assert name == prefix + text && text == (if plus then "+" else "") + digits;
      assert IsU32(digits) && name == Numbered(base, plus, digits);
    }
    hide HasNumber, IsU32;
    forall plus, digits | IsU32(digits) && name == Numbered(base, plus, digits)
      ensures HasNumber(name, base)
    {
      NumberedHasNumber(base, plus, digits);
    }
  }

  lemma SuffixedIsInstance(base: string, n: nat)
    requires n <= U32_MAX
    ensures HasNumber(Suffixed(base, n), base) && Suffixed(base, n) != base
  {
    var name, prefix, digits := Suffixed(base, n), base + "-", FormatNat(n);
    assert name[..|prefix|] == prefix && name[|prefix|..] == digits;
    assert IsDigit(digits[0]);
    assert ParseInt(digits, 0, U32_MAX) == Some(n);
    assert |name| > |base|;
  }

  lemma SuffixedInjective(base: string, m: nat, n: nat)
    ensures Suffixed(base, m) == Suffixed(base, n) <==> m == n
  {
    var k := |base + "-"|;
    assert Suffixed(base, m)[k..] == FormatNat(m) && Suffixed(base, n)[k..] == FormatNat(n);
    assert Value(FormatNat(m)) == m && Value(FormatNat(n)) == n;
  }

  /** `order` visits every key of the registry once, as iterating over it would. */
  ghost predicate Visits(order: seq<string>, procs: Processes) {
    Distinct(order) && forall id :: id in order <==> id in procs
  }

  /** What a snapshot for scaling lists: every instance once, those without a number first. */
  ghost predicate Lists(ids: seq<string>, procs: Processes, ns: string, base: string) {
    && Distinct(ids)
    && (forall id :: id in ids <==> id in Instances(procs, ns, base))
    && (forall i, j | 0 <= i < j < |ids| && ids[i] in procs && ids[j] in procs ::
          procs[ids[j]].name == base ==> procs[ids[i]].name == base)
  }

  /** The numbers given to new instances: in order, each the smallest whose name was not taken. */
  ghost predicate Allocated(base: string, taken: set<string>, nums: seq<nat>, next: nat) {
    && next >= 1
    && (forall i | 0 <= i < |nums| :: 1 <= nums[i] < next && Suffixed(base, nums[i]) !in taken)
    && (forall i, j | 0 <= i < j < |nums| :: nums[i] < nums[j])
    && (forall n: nat | 1 <= n < next :: Suffixed(base, n) in taken || n in nums)
  }

  function Names(base: string, nums: seq<nat>): (names: seq<string>)
    ensures |names| == |nums| && forall i | 0 <= i < |nums| :: names[i] == Suffixed(base, nums[i])
  {
    seq(|nums|, i requires 0 <= i < |nums| => Suffixed(base, nums[i]))
  }

  function NamesOf(ids: seq<string>, procs: Processes): (names: seq<string>)
    requires forall i | 0 <= i < |ids| :: ids[i] in procs
    ensures |names| == |ids| && forall i | 0 <= i < |ids| :: names[i] == procs[ids[i]].name
  {
    seq(|ids|, i requires 0 <= i < |ids| => procs[ids[i]].name)
  }

  /** The names in use once those with numbers `nums` were added. */
  function TakenNow(base: string, names: set<string>, nums: seq<nat>): set<string> {
    names + Elems(Names(base, nums))
  }

  datatype ScaleResult =
    | Scaled(before: nat, after: nat, created: seq<string>, deleted: seq<string>)
    | TooMany
    | NoTemplate
    | StartFailed

  datatype StartResult = Running | Limits | AlreadyExists | SpawnFailed

  /** For the k-th new instance: the id drawn for it, and whether it can be saved and started. */
  datatype Starter = Starter(freshId: nat -> string, works: nat -> bool)

  /** Only instances are gone, nothing else changed, and one without a number is gone only if every one
      with a number is. */
  ghost predicate ShrunkTo(was: Processes, now: Processes, ns: string, base: string) {
    && (forall id | id in now :: id in was && was[id] == now[id])
    && (forall id | id in was && id !in now :: id in Instances(was, ns, base))
    && (forall a, b | a in Instances(was, ns, base) && b in Instances(was, ns, base) ::
          a !in now && was[a].name == base && was[b].name != base ==> b !in now)
  }

  /** `names` are the names of the processes that are gone, one for each. */
  ghost predicate NamesGone(was: Processes, now: Processes, names: seq<string>) {
    exists ids ::
      && Distinct(ids) && Elems(ids) == was.Keys - now.Keys && |names| == |ids|
      && forall i | 0 <= i < |ids| :: ids[i] in was && was[ids[i]].name == names[i]
  }

  lemma ShrinkNames(was: Processes, ids: seq<string>)
    requires Distinct(ids) && forall i | 0 <= i < |ids| :: ids[i] in was
    ensures NamesGone(was, was - Elems(ids), NamesOf(ids, was))
  {
    assert Elems(ids) == was.Keys - (was - Elems(ids)).Keys;
  }

  /** The names of the instances of a group. */
  function NamesInUse(procs: Processes, ns: string, base: string): set<string> {
    set id | id in Instances(procs, ns, base) :: procs[id].name
  }

  ghost predicate HasNew(was: Processes, now: Processes, name: string) {
    exists id :: id in now && id !in was && now[id].name == name
  }

  /** `now` is `was` and one new process for each of `nums`, named after it. */
  ghost predicate Started(was: Processes, now: Processes, ns: string, base: string, nums: seq<nat>, template: Proc) {
    && (forall id | id in was :: id in now && now[id] == was[id])
    && |now| == |was| + |nums|
    && (forall id | id in now && id !in was ::
          now[id].name in Names(base, nums) && now[id].namespace == ns && now[id].settings == template.settings
          && now[id].env.Some? && now[id].env.value == if template.env.Some? then template.env.value else map[])
    && (forall i | 0 <= i < |nums| :: HasNew(was, now, Suffixed(base, nums[i])))
  }

  /** Everything is as before, plus one copy of an old instance for each of `nums`, which are the smallest
      numbers whose names were not in use. */
  ghost predicate GrownFrom(was: Processes, now: Processes, ns: string, base: string, nums: seq<nat>) {
    && (exists next :: Allocated(base, NamesInUse(was, ns, base), nums, next))
    && (exists id :: id in Instances(was, ns, base) && Started(was, now, ns, base, nums, was[id]))
  }

  lemma {:induction false} ElemsSize(s: seq<string>)
    ensures |Elems(s)| <= |s|
    ensures Distinct(s) ==> |Elems(s)| == |s|
  {
    if s == [] {
    } else {
      var front, last := s[..|s| - 1], s[|s| - 1];
      ElemsSize(front);
      assert Elems(s) == Elems(front) + {last};
      if Distinct(s) {
        assert last !in front;
      }
    }
  }

  lemma ListsCount(ids: seq<string>, procs: Processes, ns: string, base: string)
    requires Lists(ids, procs, ns, base)
    ensures |ids| == |Instances(procs, ns, base)| && Elems(ids) == Instances(procs, ns, base)
    ensures forall i | 0 <= i < |ids| :: ids[i] in procs && ids[i] in Instances(procs, ns, base)
  {
    hide IsInstance;
    ElemsSize(ids);
    assert Elems(ids) == Instances(procs, ns, base);
    forall i | 0 <= i < |ids|
      ensures ids[i] in procs && ids[i] in Instances(procs, ns, base)
    {
      assert ids[i] in Elems(ids);
    }
  }

  lemma SplitElems(ids: seq<string>, k: nat)
    requires Distinct(ids) && k <= |ids|
    ensures Elems(ids) == Elems(ids[..k]) + Elems(ids[k..]) && Elems(ids[..k]) !! Elems(ids[k..])
    ensures |Elems(ids[..k])| == k
  {
    assert ids == ids[..k] + ids[k..];
    ElemsSize(ids[..k]);
    assert forall i, j | 0 <= i < k <= j < |ids| :: ids[i] != ids[j];
    assert forall j | 0 <= j < |ids| - k :: ids[k..][j] == ids[k + j];
  }

  lemma PlainFirst(ids: seq<string>, procs: Processes, ns: string, base: string, target: nat, a: string, b: string)
    requires Lists(ids, procs, ns, base) && target <= |ids|
    requires a in ids[target..] && b in ids && a in procs && b in procs
    requires procs[a].name == base && procs[b].name != base
    ensures b in ids[target..]
  {
    var i :| 0 <= i < |ids| - target && ids[target..][i] == a;
    var j :| 0 <= j < |ids| && ids[j] == b;
    assert ids[target + i] == a;
    assert j >= target;
    assert ids[target..][j - target] == b;
  }

  lemma ShrinkTo(ids: seq<string>, procs: Processes, ns: string, base: string, target: nat)
    requires Lists(ids, procs, ns, base) && target <= |ids|
    ensures var now := procs - Elems(ids[target..]);
            ShrunkTo(procs, now, ns, base) && |Instances(now, ns, base)| == target
  {
    hide HasNumber, IsInstance, Distinct;
    ListsCount(ids, procs, ns, base);
    SplitElems(ids, target);
    var gone, now := Elems(ids[target..]), procs - Elems(ids[target..]);
    assert Instances(now, ns, base) == Instances(procs, ns, base) - gone == Elems(ids[..target]);
    forall a, b | a in Instances(procs, ns, base) && b in Instances(procs, ns, base)
                  && a !in now && procs[a].name == base && procs[b].name != base
      ensures b !in now
    {
      PlainFirst(ids, procs, ns, base, target, a, b);
    }
  }

  lemma UsedNames(ids: seq<string>, procs: Processes, ns: string, base: string)
    requires Lists(ids, procs, ns, base) && forall i | 0 <= i < |ids| :: ids[i] in procs
    ensures Elems(NamesOf(ids, procs)) == NamesInUse(procs, ns, base) && |Elems(NamesOf(ids, procs))| <= |ids|
  {
    hide HasNumber, IsInstance;
    var list := NamesOf(ids, procs);
    ElemsSize(list);
    ListsCount(ids, procs, ns, base);
    forall name
      ensures name in Elems(list) <==> name in NamesInUse(procs, ns, base)
    {
      if name in NamesInUse(procs, ns, base) {
        var id :| id in Instances(procs, ns, base) && procs[id].name == name;
        assert id in Elems(ids);
        var i :| 0 <= i < |ids| && ids[i] == id;
        assert list[i] == name;
      }
      if name in Elems(list) {
        var i :| 0 <= i < |list| && list[i] == name;
        assert ids[i] in Instances(procs, ns, base);
      }
    }
  }

  lemma {:induction false} Pigeonhole(base: string, used: set<string>, m: nat)
    requires forall n: nat | 1 <= n <= m :: Suffixed(base, n) in used
    ensures m <= |used|
    decreases m
  {
    hide Suffixed;
    if m == 0 {
    } else {
      var name := Suffixed(base, m);
      forall n: nat | 1 <= n <= m - 1
        ensures Suffixed(base, n) in used - {name}
      {
        SuffixedInjective(base, n, m);
      }
      Pigeonhole(base, used - {name}, m - 1);
    }
  }

  lemma UnionSize(a: set<string>, b: set<string>)
    ensures |a + b| <= |a| + |b|
  {
    assert a + b == a + (b - a);
    assert |b| == |b - a| + |b * a| by { assert b == (b - a) + (b * a); }
  }

  /** All smaller numbers are in use, so the search ends. */
  lemma NextIsBounded(base: string, names: set<string>, nums: seq<nat>, next: nat)
    requires Allocated(base, names, nums, next)
    ensures next <= |names| + |nums| + 1
  {
    hide Suffixed;
    var used := TakenNow(base, names, nums);
    forall n: nat | 1 <= n < next
      ensures Suffixed(base, n) in used
    {
      if n in nums {
        var i :| 0 <= i < |nums| && nums[i] == n;
        assert Names(base, nums)[i] == Suffixed(base, n);
      }
    }
    Pigeonhole(base, used, next - 1);
    ElemsSize(Names(base, nums));
    UnionSize(names, Elems(Names(base, nums)));
  }

  lemma NewAreInstances(was: Processes, now: Processes, ns: string, base: string, names: set<string>, nums: seq<nat>,
                        next: nat, template: Proc)
    requires |names| <= MAX_TARGET && |nums| <= MAX_TARGET && Allocated(base, names, nums, next)
    requires Started(was, now, ns, base, nums, template)
    ensures forall id | id in now && id !in was :: IsInstance(now[id], ns, base)
  {
    hide HasNumber, Suffixed;
    NextIsBounded(base, names, nums, next);
    forall id | id in now && id !in was
      ensures IsInstance(now[id], ns, base)
    {
      assert now[id].name in Names(base, nums);
      var i :| 0 <= i < |nums| && Names(base, nums)[i] == now[id].name;
      SuffixedIsInstance(base, nums[i]);
    }
  }

  lemma GrownCount(was: Processes, now: Processes, ns: string, base: string, names: set<string>, nums: seq<nat>,
                   template: Proc, first: string)
    requires first in Instances(was, ns, base) && template == was[first]
    requires names == NamesInUse(was, ns, base) && |names| <= MAX_TARGET && |nums| <= MAX_TARGET
    requires exists next :: Allocated(base, names, nums, next)
    requires Started(was, now, ns, base, nums, template)
    ensures GrownFrom(was, now, ns, base, nums)
    ensures |Instances(now, ns, base)| == |Instances(was, ns, base)| + |nums|
  {
    hide HasNumber, Suffixed, NamesInUse, Allocated, IsInstance;
    var next :| Allocated(base, names, nums, next);
    NewAreInstances(was, now, ns, base, names, nums, next, template);
    var added := now.Keys - was.Keys;
    assert Instances(now, ns, base) == Instances(was, ns, base) + added;
    assert now.Keys == was.Keys + added && |now.Keys| == |now| && |was.Keys| == |was|;
  }

  /** A number whose name is taken, by an old instance or a new one, is passed over. */
  lemma SkipTaken(base: string, names: set<string>, nums: seq<nat>, next: nat)
    requires Allocated(base, names, nums, next)
    requires Suffixed(base, next) in TakenNow(base, names, nums)
    ensures Allocated(base, names, nums, next + 1)
  {
    hide Suffixed;
    if Suffixed(base, next) !in names {
      var i :| 0 <= i < |nums| && Names(base, nums)[i] == Suffixed(base, next);
      SuffixedInjective(base, nums[i], next);
    }
  }

  /** The search for the next name: the smallest number from `next` on whose name is not taken. */
  method NextFree(base: string, taken: set<string>, start: nat, ghost names: set<string>, ghost nums: seq<nat>)
    returns (next: nat)
    requires start >= 1 && Allocated(base, names, nums, start) && taken == TakenNow(base, names, nums)
    ensures next >= start && Suffixed(base, next) !in taken && next <= |names| + |nums| + 1
    ensures forall n: nat | start <= n < next :: Suffixed(base, n) in taken
    ensures Allocated(base, names, nums, next)
  {
    hide Allocated, Suffixed;
    next := start;
    var candidate := Suffixed(base, next);
    NextIsBounded(base, names, nums, next);
    while candidate in taken
      invariant start <= next <= |names| + |nums| + 1 && candidate == Suffixed(base, next)
      invariant Allocated(base, names, nums, next)
      invariant forall n: nat | start <= n < next :: Suffixed(base, n) in taken
      decreases |names| + |nums| + 1 - next
    {
      SkipTaken(base, names, nums, next);
      next := next + 1;
      NextIsBounded(base, names, nums, next);
      candidate := Suffixed(base, next);
    }
  }

  lemma StartNothing(procs: Processes, ns: string, base: string, names: set<string>, template: Proc)
    ensures Started(procs, procs, ns, base, [], template) && Allocated(base, names, [], 1)
    ensures Names(base, []) == [] && TakenNow(base, names, []) == names
  {
  }

  lemma TakeNumber(base: string, names: set<string>, nums: seq<nat>, next: nat)
    requires Allocated(base, names, nums, next) && Suffixed(base, next) !in names
    ensures Allocated(base, names, nums + [next], next + 1)
    ensures Names(base, nums + [next]) == Names(base, nums) + [Suffixed(base, next)]
    ensures TakenNow(base, names, nums + [next]) == TakenNow(base, names, nums) + {Suffixed(base, next)}
  {
    hide Suffixed;
    var name := Suffixed(base, next);
    assert Names(base, nums + [next]) == Names(base, nums) + [name];
    assert Elems(Names(base, nums) + [name]) == Elems(Names(base, nums)) + {name};
    forall n: nat | 1 <= n < next + 1
      ensures Suffixed(base, n) in names || n in nums + [next]
    {
    }
  }

  lemma NamesGrow(base: string, nums: seq<nat>, next: nat)
    ensures Names(base, nums + [next]) == Names(base, nums) + [Suffixed(base, next)]
  {
    hide Suffixed;
  }

  lemma StillNew(was: Processes, before: Processes, name: string, id: string, p: Proc)
    requires HasNew(was, before, name) && id !in before
    ensures HasNew(was, before[id := p], name)
  {
    var x :| x in before && x !in was && before[x].name == name;
    assert before[id := p][x] == before[x];
  }

  lemma NowNew(was: Processes, before: Processes, id: string, p: Proc)
    requires id !in was
    ensures HasNew(was, before[id := p], p.name)
  {
    assert before[id := p][id] == p;
  }

  lemma StartOne(was: Processes, before: Processes, ns: string, base: string, nums: seq<nat>, next: nat,
                 template: Proc, id: string)
    requires Started(was, before, ns, base, nums, template) && id !in before
    ensures Started(was, before[id := Copy(template, Suffixed(base, next), ns)], ns, base, nums + [next], template)
  {
    hide Suffixed, Names, HasNew;
    var p := Copy(template, Suffixed(base, next), ns);
    var now, all := before[id := p], nums + [next];
    NamesGrow(base, nums, next);
    forall i | 0 <= i < |all|
      ensures HasNew(was, now, Suffixed(base, all[i]))
    {
      if i < |nums| {
        StillNew(was, before, Suffixed(base, nums[i]), id, p);
      } else {
        NowNew(was, before, id, p);
      }
    }
  }

  class Manager {
    var processes: Processes
    var maxProcesses: nat
    /** Why the configured limit could not be read, if so. */
    var maxProcessesErr: Option<string>

    ghost predicate HasRoom()
      reads this
    {
      maxProcessesErr.None? && (maxProcesses > 0 ==> |processes| < maxProcesses)
    }

    /** Adds a process, unless the limit is unreadable or reached, its id is taken or it cannot be started; the
        first of these is reported. */
    method StartWithSpec(id: string, p: Proc, works: bool) returns (r: StartResult)
      modifies this`processes
      ensures r.Limits? <==> !old(HasRoom())
      ensures r.AlreadyExists? <==> old(HasRoom()) && id in old(processes)
      ensures r.SpawnFailed? <==> old(HasRoom()) && id !in old(processes) && !works
      ensures processes == if r.Running? then old(processes)[id := p] else old(processes)
    {
      if maxProcessesErr.Some? {
        return Limits;
      }
      if maxProcesses > 0 && |processes| >= maxProcesses {
        return Limits;
      }
      if id in processes {
        return AlreadyExists;
      }
      if !works {
        return SpawnFailed;
      }
      processes := processes[id := p];
      return Running;
    }

    method Delete(id: string) returns (ok: bool)
      modifies this`processes
      ensures ok <==> id in old(processes)
      ensures processes == old(processes) - {id}
    {
      if id !in processes {
        assert processes - {id} == processes;
        return false;
      }
      processes := processes - {id};
      return true;
    }

    /** The instances of a group in the order found, those without a number inserted at the front. */
    method ScaleSnapshot(ns: string, base: string, order: seq<string>) returns (ids: seq<string>)
      requires Visits(order, processes)
      ensures Lists(ids, processes, ns, base)
    {
      ids := [];
      ghost var plain := 0;
      for i := 0 to |order|
        invariant 0 <= plain <= |ids| && Distinct(ids)
        invariant forall id :: id in ids <==> id in order[..i] && id in processes && IsInstance(processes[id], ns, base)
        invariant forall k | 0 <= k < |ids| :: ids[k] in processes && (processes[ids[k]].name == base <==> k < plain)
      {
        var id := order[i];
        assert id in order && id in processes && id !in order[..i];
        assert order[..i + 1] == order[..i] + [id];
        var p := processes[id];
        if p.namespace != ns {
          continue;
        }
        if p.name == base {
          ids := [id] + ids;
          plain := plain + 1;
          continue;
        }
        if HasNumber(p.name, base) {
          ids := ids + [id];
        }
      }
      assert order[..|order|] == order;
    }

    /** Deletes the instances listed from position `target` on, the last first. */
    method Shrink(ids: seq<string>, target: nat)
      requires target <= |ids| && Distinct(ids) && forall i | 0 <= i < |ids| :: ids[i] in processes
      modifies this`processes
      ensures processes == old(processes) - Elems(ids[target..])
    {
      var i := |ids|;
      while i > target
        invariant target <= i <= |ids|
        invariant processes == old(processes) - Elems(ids[i..])
        invariant forall k | 0 <= k < i :: ids[k] in processes
      {
        i := i - 1;
        assert Elems(ids[i..]) == Elems(ids[i + 1..]) + {ids[i]};
        var ok := Delete(ids[i]);
      }
    }

    /** Starts `count` copies of `template` under the smallest numbers not taken, as far as it can. */
    method Grow(ns: string, base: string, names: set<string>, count: nat, template: Proc, starter: Starter)
      returns (ok: bool, created: seq<string>, ghost nums: seq<nat>)
      requires count <= MAX_TARGET && |names| <= MAX_TARGET
      modifies this`processes
      ensures created == Names(base, nums) && |nums| <= count && (ok <==> |nums| == count)
      ensures exists next :: Allocated(base, names, nums, next)
      ensures Started(old(processes), processes, ns, base, nums, template)
    {
      created, nums := [], [];
      var taken, next := names, 1;
      StartNothing(processes, ns, base, names, template);
      for k := 0 to count
        invariant |nums| == k && created == Names(base, nums) && taken == TakenNow(base, names, nums)
        invariant Allocated(base, names, nums, next)
        invariant Started(old(processes), processes, ns, base, nums, template)
      {
        hide Started, Allocated, Suffixed, Names, TakenNow;
        next := NextFree(base, taken, next, names, nums);
        var candidate := Suffixed(base, next);
        ghost var before := processes;
        var started := StartWithSpec(starter.freshId(k), Copy(template, candidate, ns), starter.works(k));
        if !started.Running? {
          return false, created, nums;
        }
        StartOne(old(processes), before, ns, base, nums, next, template, starter.freshId(k));
        TakeNumber(base, names, nums, next);
        taken, next, created, nums := taken + {candidate}, next + 1, created + [candidate], nums + [next];
      }
      ok := true;
    }

    /** Brings the number of instances of `base` to `target`; `order` is the order in which the
        registry happens to be iterated. */
    method Scale(namespace: string, base: string, target: nat, order: seq<string>, starter: Starter)
      returns (r: ScaleResult, ghost nums: seq<nat>)
      requires Visits(order, processes)
      modifies this`processes
      ensures r.TooMany? <==> target > MAX_TARGET
      ensures var ns, was := if namespace == "" then "default" else namespace, old(processes);
              var n := |Instances(was, ns, base)|;
              match r
              case TooMany => processes == was
              case NoTemplate => processes == was && n == 0 < target
              case StartFailed =>
                n < target && |nums| < target - n && GrownFrom(was, processes, ns, base, nums)
              case Scaled(before, after, created, deleted) =>
                && before == n && after == target && |Instances(processes, ns, base)| == target
                && (target == n ==> processes == was && created == [] && deleted == [])
                && (target < n ==> ShrunkTo(was, processes, ns, base) && created == [] && NamesGone(was, processes, deleted))
                && (target > n ==> GrownFrom(was, processes, ns, base, nums) && created == Names(base, nums) && deleted == [])
    {
      nums := [];
      if target > MAX_TARGET {
        return TooMany, [];
      }
      var ns := if namespace == "" then "default" else namespace;
      var ids := ScaleSnapshot(ns, base, order);
      ListsCount(ids, processes, ns, base);
      if target == |ids| {
        return Scaled(|ids|, target, [], []), [];
      }
      if target < |ids| {
        var deleted := NamesOf(ids[target..], processes);
        ShrinkNames(processes, ids[target..]);
        ShrinkTo(ids, processes, ns, base, target);
        Shrink(ids, target);
        return Scaled(|ids|, target, [], deleted), [];
      }
      if ids == [] {
        return NoTemplate, [];
      }
      var template := processes[ids[0]];
      var names := Elems(NamesOf(ids, processes));
      UsedNames(ids, processes, ns, base);
      var ok, created;
      ghost var was := processes;
      ok, created, nums := Grow(ns, base, names, target - |ids|, template, starter);
      GrownCount(was, processes, ns, base, names, nums, template, ids[0]);
      if !ok {
        return StartFailed, nums;
      }
      return Scaled(|ids|, target, created, []), nums;
    }
  }

  // ----- selectors

  datatype Resolution = Found(id: string) | NoSuchProcess | Ambiguous(ids: set<string>)

  lemma OnlyOne(s: set<string>)
    requires |s| == 1
    ensures forall x, y | x in s && y in s :: x == y
  {
    forall x, y | x in s && y in s
      ensures x == y
    {
      assert |s - {x}| == 0;
      assert y != x ==> y in s - {x};
    }
  }

  /** The element of a singleton set. */
  function Only(s: set<string>): (x: string)
    requires |s| == 1
    ensures s == {x}
  {
    OnlyOne(s);
    var x :| x in s;
    x
  }

  function FromCandidates(candidates: set<string>): Resolution {
    if candidates == {} then NoSuchProcess
    else if |candidates| == 1 then Found(Only(candidates))
    else Ambiguous(candidates)
  }

  predicate StartsWith(s: string, prefix: string) {
    |prefix| <= |s| && s[..|prefix|] == prefix
  }

  /** What a selector stands for: `namespace:name`, a whole id, the start of an id, or a name. */
  function Resolve(procs: Processes, selector: string): Resolution {
    match SplitOnce(selector, ':')
    case Some((ns, name)) => FromCandidates(set id | id in procs && procs[id].namespace == ns && procs[id].name == name)
    case None =>
      if selector in procs then Found(selector)
      else
        var byPrefix := set id | id in procs && StartsWith(id, selector);
        if byPrefix != {} then FromCandidates(byPrefix)
        else FromCandidates(set id | id in procs && procs[id].name == selector)
  }

  // ----- what a selector finds

  /** `r` is the only process that `means` picks, or tells that there is none or that there are several, and which. */
  ghost predicate Picks(procs: Processes, means: (string, Proc) -> bool, r: Resolution) {
    && (forall id :: r == Found(id) <==> id in procs && means(id, procs[id])
                                         && forall x | x in procs && means(x, procs[x]) :: x == id)
    && (r == NoSuchProcess <==> forall x | x in procs :: !means(x, procs[x]))
    && (r.Ambiguous? <==> exists x, y :: x in procs && y in procs && x != y && means(x, procs[x]) && means(y, procs[y]))
    && (r.Ambiguous? ==> forall x :: x in r.ids <==> x in procs && means(x, procs[x]))
  }

  lemma CandidatesPick(procs: Processes, means: (string, Proc) -> bool, candidates: set<string>)
    requires forall x :: x in candidates <==> x in procs && means(x, procs[x])
    ensures Picks(procs, means, FromCandidates(candidates))
  {
    if candidates == {} {
    } else if |candidates| == 1 {
      OnlyOne(candidates);
    } else {
      var x :| x in candidates;
      assert |{x}| == 1 && candidates != {x};
      var y :| y in candidates && y != x;
      assert x in procs && y in procs && x != y && means(x, procs[x]) && means(y, procs[y]);
    }
  }

  /** `namespace:name` picks the processes with that namespace and name; the name may hold further colons. */
  lemma QualifiedNamePicks(procs: Processes, ns: string, name: string)
    requires ':' !in ns
    ensures Picks(procs, (_, p: Proc) => p.namespace == ns && p.name == name, Resolve(procs, ns + ":" + name))
  {
    hide FromCandidates, Picks, SplitOnce;
    SplitOnceAt(ns, ':', name);
    assert ns + ":" + name == ns + [':'] + name;
    CandidatesPick(procs, (_, p: Proc) => p.namespace == ns && p.name == name,
                   set id | id in procs && procs[id].namespace == ns && procs[id].name == name);
  }

  /** Without a colon, a whole id finds its process, whatever else begins with it or is named so. */
  lemma WholeIdFound(procs: Processes, selector: string)
    requires ':' !in selector && selector in procs
    ensures Resolve(procs, selector) == Found(selector)
  {
    SplitOnceNone(selector, ':');
  }

  /** Otherwise the ids that begin with it are picked, if there are any. */
  lemma IdPrefixPicks(procs: Processes, selector: string)
    requires ':' !in selector && selector !in procs && exists x :: x in procs && selector <= x
    ensures Picks(procs, (id: string, _) => selector <= id, Resolve(procs, selector))
  {
    hide FromCandidates, Picks, SplitOnce;
    SplitOnceNone(selector, ':');
    var byPrefix := set id | id in procs && StartsWith(id, selector);
    var x :| x in procs && selector <= x;
    assert x in byPrefix;
    CandidatesPick(procs, (id: string, _) => selector <= id, byPrefix);
  }

  /** And if there are none, the processes of that name, in whatever namespace. */
  lemma NamePicks(procs: Processes, selector: string)
    requires ':' !in selector && forall x | x in procs :: !(selector <= x)
    ensures Picks(procs, (_, p: Proc) => p.name == selector, Resolve(procs, selector))
  {
    hide FromCandidates, Picks, SplitOnce;
    SplitOnceNone(selector, ':');
    var byPrefix := set id | id in procs && StartsWith(id, selector);
    assert byPrefix == {};
    CandidatesPick(procs, (_, p: Proc) => p.name == selector, set id | id in procs && procs[id].name == selector);
  }

  /** Collects what matches, in the order of iteration. */
  method Matching(procs: Processes, order: seq<string>, matches: (string, Proc) -> bool) returns (candidates: seq<string>)
    requires Visits(order, procs)
    ensures Distinct(candidates) && Elems(candidates) == set id | id in procs && matches(id, procs[id])
  {
    candidates := [];
    for i := 0 to |order|
      invariant Distinct(candidates)
      invariant forall id :: id in candidates <==> id in order[..i] && id in procs && matches(id, procs[id])
    {
      var id := order[i];
      assert id in order && id in procs && id !in order[..i];
      assert order[..i + 1] == order[..i] + [id];
      if matches(id, procs[id]) {
        candidates := candidates + [id];
      }
    }
    assert order[..|order|] == order;
  }

  method ResolveFromCandidates(candidates: seq<string>) returns (r: Resolution)
    requires Distinct(candidates)
    ensures r == FromCandidates(Elems(candidates))
  {
    ElemsSize(candidates);
    if |candidates| == 0 {
      return NoSuchProcess;
    }
    assert candidates[0] in Elems(candidates);
    if |candidates| == 1 {
      assert Elems(candidates) == {candidates[0]};
      return Found(candidates[0]);
    }
    return Ambiguous(Elems(candidates));
  }

  lemma InElems(s: seq<string>)
    requires s != []
    ensures Elems(s) != {}
  {
    assert s[0] in Elems(s);
  }

  lemma NoElems()
    ensures Elems<string>([]) == {}
  {
  }

  /** The daemon's resolution; the result is the same for every order of iteration. */
  method ResolveId(procs: Processes, order: seq<string>, selector: string) returns (r: Resolution)
    requires Visits(order, procs)
    ensures r == Resolve(procs, selector)
  {
    hide Distinct, Elems, FromCandidates, Visits;
    var parts := SplitOnce(selector, ':');
    var candidates;
    if parts.Some? {
      var (ns, name) := parts.value;
      candidates := Matching(procs, order, (id, p: Proc) => p.namespace == ns && p.name == name);
      assert Elems(candidates) == set id | id in procs && procs[id].namespace == ns && procs[id].name == name;
      r := ResolveFromCandidates(candidates);
      return;
    }
    if selector in procs {
      return Found(selector);
    }
    candidates := Matching(procs, order, (id, _: Proc) => StartsWith(id, selector));
    assert Elems(candidates) == set id | id in procs && StartsWith(id, selector);
    if candidates != [] {
      InElems(candidates);
      r := ResolveFromCandidates(candidates);
      return;
    }
    NoElems();
    candidates := Matching(procs, order, (_, p: Proc) => p.name == selector);
    assert Elems(candidates) == set id | id in procs && procs[id].name == selector;
    r := ResolveFromCandidates(candidates);
  }

  // ----- short ids

  const MIN_LEN := 8
  const ID_LEN := 36

  function Prefix(id: string, len: nat): string {
    if |id| > len then id[..len] else id
  }

  ghost predicate Separates(ids: seq<string>, len: nat) {
    forall i, j | 0 <= i < j < |ids| :: Prefix(ids[i], len) != Prefix(ids[j], len)
  }

  /** The shortest length from 8 on at which all ids differ; 36 if there is none up to there. */
  ghost predicate IsShortLen(ids: seq<string>, len: nat) {
    && MIN_LEN <= len <= ID_LEN
    && (forall l | MIN_LEN <= l < len :: !Separates(ids, l))
    && ((exists l :: MIN_LEN <= l <= ID_LEN && Separates(ids, l)) ==> Separates(ids, len))
  }

  method ShortIdLen(ids: seq<string>) returns (len: nat)
    ensures IsShortLen(ids, len)
  {
    if |ids| <= 1 {
      return MIN_LEN;
    }
    for l := MIN_LEN to ID_LEN + 1
      invariant forall k | MIN_LEN <= k < l :: !Separates(ids, k)
    {
      var seen: set<string> := {};
      var collide := false;
      var i := 0;
      while i < |ids|
        invariant 0 <= i <= |ids| && !collide
        invariant forall x :: x in seen <==> exists k | 0 <= k < i :: x == Prefix(ids[k], l)
        invariant forall a, b | 0 <= a < b < i :: Prefix(ids[a], l) != Prefix(ids[b], l)
      {
        var prefix := Prefix(ids[i], l);
        if prefix in seen {
          collide := true;
          break;
        }
        seen := seen + {prefix};
        i := i + 1;
      }
      if !collide {
        return l;
      }
    }
    return ID_LEN;
  }

  /** Ids as the daemon makes them. */
  predicate IsId(id: string) {
    |id| == ID_LEN && ':' !in id
  }

  /** In a registry of such ids, the first `len` characters of an id stand for its process exactly when no other
      id in the whole registry begins with them; otherwise they are ambiguous. */
  lemma PrefixResolves(procs: Processes, id: string, len: nat)
    requires id in procs && (forall x | x in procs :: IsId(x)) && len <= ID_LEN
    ensures Resolve(procs, Prefix(id, len)) == Found(id)
       <==> forall x | x in procs && x != id :: Prefix(x, len) != Prefix(id, len)
    ensures Resolve(procs, Prefix(id, len)) == Found(id) || Resolve(procs, Prefix(id, len)).Ambiguous?
  {
    hide Only;
    var p := Prefix(id, len);
    assert IsId(id);
    SplitOnceNone(p, ':');
    if len < ID_LEN {
      var byPrefix := set x | x in procs && StartsWith(x, p);
      assert p !in procs && id in byPrefix;
      assert forall x | x in procs :: StartsWith(x, p) <==> Prefix(x, len) == p;
      if x :| x in procs && x != id && Prefix(x, len) == p {
        assert {id, x} <= byPrefix;
        SubsetSize({id, x}, byPrefix);
      } else {
        assert byPrefix == {id};
      }
    }
  }

  lemma AllSeparated(procs: Processes, ids: seq<string>)
    requires (forall x | x in procs :: IsId(x)) && Distinct(ids) && forall x | x in ids :: x in procs
    ensures Separates(ids, ID_LEN)
  {
    forall i | 0 <= i < |ids|
      ensures Prefix(ids[i], ID_LEN) == ids[i]
    {
      assert ids[i] in ids && IsId(ids[i]);
    }
  }

  /** The length found for a list of processes of the registry separates them, and the short id of a listed process
      resolves to it exactly when no process that is not listed shares it; in particular, always when the whole
      registry is listed. */
  lemma ShortIdsResolve(procs: Processes, ids: seq<string>, len: nat, k: nat)
    requires (forall x | x in procs :: IsId(x)) && Distinct(ids) && (forall x | x in ids :: x in procs)
    requires IsShortLen(ids, len) && k < |ids|
    ensures Separates(ids, len)
    ensures Resolve(procs, Prefix(ids[k], len)) == Found(ids[k])
       <==> forall x | x in procs && x !in ids :: Prefix(x, len) != Prefix(ids[k], len)
    ensures Visits(ids, procs) ==> Resolve(procs, Prefix(ids[k], len)) == Found(ids[k])
  {
    hide Resolve, Prefix;
    AllSeparated(procs, ids);
    assert ids[k] in ids;
    PrefixResolves(procs, ids[k], len);
    forall x | x in ids && x != ids[k]
      ensures Prefix(x, len) != Prefix(ids[k], len)
    {
      var i :| 0 <= i < |ids| && ids[i] == x;
      assert if i < k then Prefix(ids[i], len) != Prefix(ids[k], len) else Prefix(ids[k], len) != Prefix(ids[i], len);
    }
  }

  /** A listing of one namespace can print a short id that is ambiguous: two ids that share their first eight
      characters, one of them listed. */
  lemma FilteredListAmbiguous(procs: Processes, a: string, b: string, len: nat)
    requires procs.Keys == {a, b} && a != b && IsId(a) && IsId(b) && a[..MIN_LEN] == b[..MIN_LEN]
    requires IsShortLen([a], len)
    ensures len == MIN_LEN && Resolve(procs, Prefix(a, len)).Ambiguous?
  {
    hide Resolve;
    assert Separates([a], MIN_LEN);
    PrefixResolves(procs, a, len);
    assert b in procs && Prefix(b, len) == Prefix(a, len);
  }
}
