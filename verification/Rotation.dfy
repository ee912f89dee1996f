/** Log rotation: a chain of archive slots shifted in place, with every file operation allowed to fail. */
module Rotation {
  import opened Text

  /** The live log, its plain copy `.1`, and the compressed archives `.i.gz` (held here uncompressed). */
  datatype Slot = Live | Plain | Gz(i: int)
  type Dir = map<Slot, string>

  datatype Config = Config(maxBytes: int, keep: int, maxAge: nat, delayCompress: bool, notifEmpty: bool)

  /** The steps of one rotation, and how each turns out; a copy that fails may leave anything behind. */
  datatype Task = RemoveOldest | Shift(i: int) | CompressPrevious | RemovePrevious | SaveLive | Truncate
  datatype Outcome = Done | Untouched | Partial(left: string)
  type Faults = Task -> Outcome

  function Removed(d: Dir, slot: Slot, o: Outcome): Dir {
    if o.Done? then d - {slot} else d
  }

  /** Renaming a missing file does nothing; renaming onto a file replaces it. */
  function Renamed(d: Dir, src: Slot, dst: Slot, o: Outcome): Dir {
    if o.Done? && src in d then (d - {src})[dst := d[src]] else d
  }

  /** Copying or compressing, and whether it succeeded. */
  function Copied(d: Dir, src: Slot, dst: Slot, o: Outcome): (Dir, bool) {
    if src !in d || o.Untouched? then (d, false)
    else if o.Partial? then (d[dst := o.left], false)
    else (d[dst := d[src]], true)
  }

  function Truncated(d: Dir, o: Outcome): Dir {
    if o.Done? && Live in d then d[Live := ""] else d
  }

  function Keep(cfg: Config): int {
    if cfg.keep > 1 then cfg.keep else 1
  }

  /** Slots `lo` to `hi` moved up by one, the highest first. */
  function Shifted(d: Dir, lo: int, hi: int, faults: Faults): Dir
    decreases hi - lo + 1
  {
    if hi < lo then d
    else Shifted(Renamed(d, Gz(hi), Gz(hi + 1), faults(Shift(hi))), lo, hi - 1, faults)
  }

  /** One rotation with the given outcomes. */
  function Rotated(d: Dir, cfg: Config, faults: Faults): Dir {
    var keep := Keep(cfg);
    var d1 := Removed(d, Gz(keep), faults(RemoveOldest));
    var d2 := Shifted(d1, if cfg.delayCompress then 2 else 1, keep - 1, faults);
    if cfg.delayCompress then
      var (d3, ok) := if Plain in d2 then Copied(d2, Plain, Gz(2), faults(CompressPrevious)) else (d2, true);
      if !ok then d3 else
      var d4 := if Plain in d2 then Removed(d3, Plain, faults(RemovePrevious)) else d3;
      var (d5, saved) := Copied(d4, Live, Plain, faults(SaveLive));
      if saved then Truncated(d5, faults(Truncate)) else d5
    else
      var (d5, saved) := Copied(d2, Live, Gz(1), faults(SaveLive));
      if saved then Truncated(d5, faults(Truncate)) else d5
  }

  predicate Triggered(d: Dir, cfg: Config, age: nat) {
    && Live in d
    && !(cfg.notifEmpty && d[Live] == "")
    && ((cfg.maxBytes > 0 && |d[Live]| >= cfg.maxBytes) || (cfg.maxAge > 0 && age >= cfg.maxAge))
  }

  class LogDir {
    var files: Dir

    method Remove(slot: Slot, o: Outcome)
      modifies this
      ensures files == Removed(old(files), slot, o)
    {
      if o.Done? {
        files := files - {slot};
      }
    }

    method Rename(src: Slot, dst: Slot, o: Outcome)
      modifies this
      ensures files == Renamed(old(files), src, dst, o)
    {
      if o.Done? && src in files {
        files := (files - {src})[dst := files[src]];
      }
    }

    method Copy(src: Slot, dst: Slot, o: Outcome) returns (ok: bool)
      modifies this
      ensures (files, ok) == Copied(old(files), src, dst, o)
    {
      if src !in files || o.Untouched? {
        return false;
      }
      if o.Partial? {
        files := files[dst := o.left];
        return false;
      }
      files := files[dst := files[src]];
      return true;
    }

    method RotateChain(cfg: Config, faults: Faults)
      modifies this
      ensures files == Rotated(old(files), cfg, faults)
    {
      var keep := if cfg.keep > 1 then cfg.keep else 1;
      Remove(Gz(keep), faults(RemoveOldest));
      ghost var d1 := files;
      var startIdx := if cfg.delayCompress then 2 else 1;
      var i := keep - 1;
      while i >= startIdx
        invariant Shifted(d1, startIdx, keep - 1, faults) == Shifted(files, startIdx, i, faults)
        decreases i
      {
        Rename(Gz(i), Gz(i + 1), faults(Shift(i)));
        i := i - 1;
      }
      var ok;
      if cfg.delayCompress {
        if Plain in files {
          ok := Copy(Plain, Gz(2), faults(CompressPrevious));
          if !ok {
            return;
          }
          Remove(Plain, faults(RemovePrevious));
        }
        ok := Copy(Live, Plain, faults(SaveLive));
      } else {
        ok := Copy(Live, Gz(1), faults(SaveLive));
      }
      if !ok {
        return;
      }
      if faults(Truncate).Done? && Live in files {
        files := files[Live := ""];
      }
    }

    /** Rotates when the log is large or old enough; `age` is the time since the last rotation. */
    method RotateNow(cfg: Config, age: nat, faults: Faults) returns (rotated: bool)
      modifies this
      ensures rotated == Triggered(old(files), cfg, age)
      ensures files == if rotated then Rotated(old(files), cfg, faults) else old(files)
    {
      if Live !in files {
        return false;
      }
      if cfg.notifEmpty && |files[Live]| == 0 {
        return false;
      }
      var bySize := cfg.maxBytes > 0 && |files[Live]| >= cfg.maxBytes;
      var byAge := cfg.maxAge > 0 && age >= cfg.maxAge;
      if !bySize && !byAge {
        return false;
      }
      RotateChain(cfg, faults);
      return true;
    }
  }

  // ----- a rotation without faults, slot by slot

  function Lookup(d: Dir, slot: Slot): Option<string> {
    if slot in d then Some(d[slot]) else None
  }

  function NoFaults(): Faults {
    _ => Done
  }

  /** What each slot holds after a rotation: the live log moves to the first archive slot and is emptied,
      archives below `keep` move up by one, and the one at `keep` is dropped. */
  function After(d: Dir, cfg: Config, slot: Slot): Option<string> {
    var keep := Keep(cfg);
    match slot
    case Live => Some("")
    case Plain => Lookup(d, if cfg.delayCompress then Live else Plain)
    case Gz(i) =>
      if !cfg.delayCompress then
        if i == 1 then Lookup(d, Live)
        else if 2 <= i <= keep then Lookup(d, Gz(i - 1))
        else Lookup(d, slot)
      else
        if i == 2 && Plain in d then Lookup(d, Plain)
        else if 3 <= i <= keep then Lookup(d, Gz(i - 1))
        else if i == keep || (i == 2 && keep > 2) then None
        else Lookup(d, slot)
  }

  lemma {:induction false} ShiftMovesUp(d: Dir, lo: int, hi: int, slot: Slot)
    requires lo - 1 <= hi && Gz(hi + 1) !in d
    ensures Lookup(Shifted(d, lo, hi, NoFaults()), slot)
         == if slot.Gz? && lo < slot.i <= hi + 1 then Lookup(d, Gz(slot.i - 1))
            else if slot == Gz(lo) then None
            else Lookup(d, slot)
    decreases hi - lo + 1
  {
    if lo <= hi {
      ShiftMovesUp(Renamed(d, Gz(hi), Gz(hi + 1), Done), lo, hi - 1, slot);
    }
  }

  lemma NothingShifted(d: Dir, lo: int, hi: int)
    requires hi < lo
    ensures Shifted(d, lo, hi, NoFaults()) == d
  {
  }

  /** From any directory, gaps included, a rotation is exactly this shift. */
  lemma RotationIsShift(d: Dir, cfg: Config, slot: Slot)
    requires Live in d
    ensures Lookup(Rotated(d, cfg, NoFaults()), slot) == After(d, cfg, slot)
  {
    hide Shifted;
    var keep, lo := Keep(cfg), if cfg.delayCompress then 2 else 1;
    var d1 := Removed(d, Gz(keep), Done);
    if lo - 1 <= keep - 1 {
      ShiftMovesUp(d1, lo, keep - 1, slot);
      ShiftMovesUp(d1, lo, keep - 1, Live);
      ShiftMovesUp(d1, lo, keep - 1, Plain);
    } else {
      NothingShifted(d1, lo, keep - 1);
    }
  }

  // ----- runs

  datatype Event = Append(data: string) | Tick(age: nat)

  function Happened(d: Dir, cfg: Config, ev: Event): Dir
    requires Live in d
  {
    match ev
    case Append(data) => d[Live := d[Live] + data]
    case Tick(age) => if Triggered(d, cfg, age) then Rotated(d, cfg, NoFaults()) else d
  }

  /** The generations rotated out so far, newest first, and the live log. */
  datatype History = History(gens: seq<string>, live: string)

  function Recorded(h: History, cfg: Config, ev: Event): History {
    match ev
    case Append(data) => h.(live := h.live + data)
    case Tick(age) =>
      if Triggered(map[Live := h.live], cfg, age) then History([h.live] + h.gens, "") else h
  }

  /** Number of generations kept. */
  function Retained(cfg: Config): int {
    var least := if cfg.delayCompress then 2 else 1;
    if cfg.keep > least then cfg.keep else least
  }

  /** What slot `slot` holds when the generations so far are those of `h`. */
  function Layout(h: History, cfg: Config, slot: Slot): Option<string> {
    var n := if |h.gens| < Retained(cfg) then |h.gens| else Retained(cfg);
    match slot
    case Live => Some(h.live)
    case Plain => if cfg.delayCompress && n >= 1 then Some(h.gens[0]) else None
    case Gz(i) => if (if cfg.delayCompress then 2 else 1) <= i <= n then Some(h.gens[i - 1]) else None
  }

  ghost predicate Holds(d: Dir, h: History, cfg: Config) {
    forall slot :: Lookup(d, slot) == Layout(h, cfg, slot)
  }

  lemma RotatedLayout(d: Dir, h: History, cfg: Config, slot: Slot)
    requires Holds(d, h, cfg)
    ensures After(d, cfg, slot) == Layout(History([h.live] + h.gens, ""), cfg, slot)
  {
    assert Lookup(d, Live) == Layout(h, cfg, Live) && Lookup(d, Plain) == Layout(h, cfg, Plain);
    assert Lookup(d, slot) == Layout(h, cfg, slot);
    if slot.Gz? {
      assert Lookup(d, Gz(slot.i - 1)) == Layout(h, cfg, Gz(slot.i - 1));
    }
  }

  lemma EventKeepsLayout(d: Dir, h: History, cfg: Config, ev: Event)
    requires Holds(d, h, cfg)
    ensures Live in d && Holds(Happened(d, cfg, ev), Recorded(h, cfg, ev), cfg)
  {
    assert Lookup(d, Live) == Some(h.live);
    match ev
    case Append(data) =>
      var d', h' := Happened(d, cfg, ev), Recorded(h, cfg, ev);
      forall slot
        ensures Lookup(d', slot) == Layout(h', cfg, slot)
      {
        assert Lookup(d, slot) == Layout(h, cfg, slot);
      }
    case Tick(age) =>
      if Triggered(d, cfg, age) {
        forall slot
          ensures Lookup(Rotated(d, cfg, NoFaults()), slot) == Layout(History([h.live] + h.gens, ""), cfg, slot)
        {
          RotationIsShift(d, cfg, slot);
          RotatedLayout(d, h, cfg, slot);
        }
      }
  }

  function Run(d: Dir, cfg: Config, events: seq<Event>): Option<Dir>
    decreases |events|
  {
    if events == [] then Some(d)
    else if Live !in d then None
    else Run(Happened(d, cfg, events[0]), cfg, events[1..])
  }

  function Told(h: History, cfg: Config, events: seq<Event>): History
    decreases |events|
  {
    if events == [] then h else Told(Recorded(h, cfg, events[0]), cfg, events[1..])
  }

  function Written(events: seq<Event>): string {
    if events == [] then ""
    else (if events[0].Append? then events[0].data else "") + Written(events[1..])
  }

  /** Generations from oldest to newest, then the live log. */
  function AllText(h: History): string
    decreases |h.gens|
  {
    if h.gens == [] then h.live else AllText(History(h.gens[1..], h.gens[0])) + h.live
  }

  lemma AppendText(h: History, data: string)
    ensures AllText(h.(live := h.live + data)) == AllText(h) + data
  {
    if h.gens != [] {
      var older := AllText(History(h.gens[1..], h.gens[0]));
      assert older + (h.live + data) == older + h.live + data;
    }
  }

  lemma {:induction false} NothingLost(h: History, cfg: Config, events: seq<Event>)
    ensures AllText(Told(h, cfg, events)) == AllText(h) + Written(events)
    decreases |events|
  {
    if events == [] {
      assert AllText(h) + "" == AllText(h);
    } else {
      var h' := Recorded(h, cfg, events[0]);
      NothingLost(h', cfg, events[1..]);
      match events[0] {
        case Append(data) =>
          AppendText(h, data);
          assert AllText(h) + data + Written(events[1..]) == AllText(h) + Written(events);
        case Tick(age) =>
          assert ([h.live] + h.gens)[1..] == h.gens;
          assert AllText(History([h.live] + h.gens, "")) == AllText(h) + "";
          assert AllText(h) + "" == AllText(h) && "" + Written(events[1..]) == Written(events[1..]);
      }
    }
  }

  lemma {:induction false} RunKeepsLayout(d: Dir, h: History, cfg: Config, events: seq<Event>)
    requires Holds(d, h, cfg)
    ensures var d' := Run(d, cfg, events); d'.Some? && Holds(d'.value, Told(h, cfg, events), cfg)
    decreases |events|
  {
    hide Holds, Happened, Recorded;
    if events == [] {
    } else {
      EventKeepsLayout(d, h, cfg, events[0]);
      RunKeepsLayout(Happened(d, cfg, events[0]), Recorded(h, cfg, events[0]), cfg, events[1..]);
    }
  }

  /** From an empty log and no archives, after any run of appends and rotation checks: the generations
      and the live log spell out everything written; the newest `Retained` generations are in their
      slots, in delay mode with exactly the newest one plain; and no other archive exists. */
  lemma EveryRunRetains(cfg: Config, events: seq<Event>)
    ensures var d := Run(map[Live := ""], cfg, events);
            var h := Told(History([], ""), cfg, events);
            d.Some? && AllText(h) == Written(events) && forall slot :: Lookup(d.value, slot) == Layout(h, cfg, slot)
  {
    var h := History([], "");
    RunKeepsLayout(map[Live := ""], h, cfg, events);
    NothingLost(h, cfg, events);
    assert AllText(h) + Written(events) == Written(events);
  }

  // ----- what survives failures

  lemma {:induction false} ShiftKeepsNewest(d: Dir, lo: int, hi: int, faults: Faults)
    ensures Lookup(Shifted(d, lo, hi, faults), Live) == Lookup(d, Live)
    ensures Lookup(Shifted(d, lo, hi, faults), Plain) == Lookup(d, Plain)
    decreases hi - lo + 1
  {
    if lo <= hi {
      ShiftKeepsNewest(Renamed(d, Gz(hi), Gz(hi + 1), faults(Shift(hi))), lo, hi - 1, faults);
    }
  }

  /** Whatever steps fail, and however copies break off, the live log keeps its contents unless they are
      completely in the newest archive; in delay mode the previous newest generation also survives. */
  lemma SurvivesFaults(d: Dir, cfg: Config, faults: Faults)
    requires Live in d
    ensures var d', first := Rotated(d, cfg, faults), if cfg.delayCompress then Plain else Gz(1);
            && (Lookup(d', Live) == Some(d[Live])
                || (Lookup(d', Live) == Some("") && Lookup(d', first) == Some(d[Live])))
            && (cfg.delayCompress && Plain in d ==>
                Lookup(d', Plain) == Some(d[Plain]) || Lookup(d', Gz(2)) == Some(d[Plain]))
  {
    var keep := Keep(cfg);
    var d1 := Removed(d, Gz(keep), faults(RemoveOldest));
    ShiftKeepsNewest(d1, if cfg.delayCompress then 2 else 1, keep - 1, faults);
  }

  // ----- when a log is rotated

  /** After every check a log with a size limit is below it, its contents saved as the newest generation if they were not. */
  lemma SizeLimitKept(d: Dir, cfg: Config, age: nat)
    requires Live in d && cfg.maxBytes > 0
    ensures var d' := Happened(d, cfg, Tick(age));
            Live in d' && |d'[Live]| < cfg.maxBytes
            && (|d[Live]| >= cfg.maxBytes ==> Lookup(d', if cfg.delayCompress then Plain else Gz(1)) == Some(d[Live]))
  {
    hide Rotated;
    RotationIsShift(d, cfg, Live);
    RotationIsShift(d, cfg, if cfg.delayCompress then Plain else Gz(1));
  }

  /** A log with an age limit is emptied by the first check from that age on, saved in the same way; an empty one is left
      alone if it is exempt. */
  lemma AgeLimitKept(d: Dir, cfg: Config, age: nat)
    requires Live in d && 0 < cfg.maxAge <= age && (d[Live] != "" || !cfg.notifEmpty)
    ensures var d' := Happened(d, cfg, Tick(age));
            Lookup(d', Live) == Some("") && Lookup(d', if cfg.delayCompress then Plain else Gz(1)) == Some(d[Live])
  {
    hide Rotated;
    RotationIsShift(d, cfg, Live);
    RotationIsShift(d, cfg, if cfg.delayCompress then Plain else Gz(1));
  }

  /** Otherwise nothing happens: a log below its size limit and age limit, or without limits, or empty and exempt. */
  lemma NotDueUntouched(d: Dir, cfg: Config, age: nat)
    requires Live in d && ((cfg.maxBytes > 0 ==> |d[Live]| < cfg.maxBytes) || (d[Live] == "" && cfg.notifEmpty))
    requires (cfg.maxAge > 0 ==> age < cfg.maxAge) || (d[Live] == "" && cfg.notifEmpty)
    ensures Happened(d, cfg, Tick(age)) == d
  {
  }
}
