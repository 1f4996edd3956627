/** The response cache: LRU eviction and a time to live, against the plain map of last puts
    that it speeds up. Every reading of the clock is passed in, since a call makes several. */
module ResponseCaches {
  import opened Basics

  datatype CachedEntry = CachedEntry(status: nat, headers: seq<(string, string)>, body: string)

  datatype Entry = Entry(resp: CachedEntry, created: int, lastUsed: int, ttl: int, stale: bool)

  type Entries = map<string, Entry>

  predicate IsFresh(e: Entry, now: int) {
    !e.stale && now - e.created < e.ttl
  }

  function TransitionIfStale(e: Entry, now: int): Entry {
    if !e.stale && now - e.created >= e.ttl then e.(stale := true) else e
  }

  // ---------------------------------------------------------------- specification

  /** A lookup reads the clock for the transition, for the check and for the time of use. */
  function Looked(es: Entries, key: string, start: int, checked: int, now: int): Entries {
    if key !in es then es
    else if IsFresh(es[key], start) && IsFresh(es[key], checked) then es[key := es[key].(lastUsed := now)]
    else es - {key}
  }

  function Answer(es: Entries, key: string, start: int, checked: int): Option<CachedEntry> {
    if key in es && IsFresh(es[key], start) && IsFresh(es[key], checked) then Some(es[key].resp) else None
  }

  /** The entries that are not stale, each by a reading of the clock of its own. */
  function FreshOnes(es: Entries, clock: string -> int): Entries {
    map k | k in es && IsFresh(es[k], clock(k)) :: es[k]
  }

  /** A least recently used entry. */
  ghost predicate Oldest(es: Entries, victim: string) {
    victim in es && forall k :: k in es ==> es[victim].lastUsed <= es[k].lastUsed
  }

  /** `room` is what is left of `es` when a slot for `key` is needed. */
  ghost predicate MadeRoom(max: nat, es: Entries, key: string, clock: string -> int, room: Entries) {
    if |es| < max || key in es then room == es
    else if |FreshOnes(es, clock)| < max then room == FreshOnes(es, clock)
    else exists victim :: Oldest(FreshOnes(es, clock), victim) && room == FreshOnes(es, clock) - {victim}
  }

  ghost predicate Stored(max: nat, es: Entries, key: string, resp: CachedEntry, ttl: int, clock: string -> int, now: int, es': Entries) {
    if max == 0 then es' == es
    else exists room :: MadeRoom(max, es, key, clock, room) && es' == room[key := Entry(resp, now, now, ttl, false)]
  }

  /** The keys of the entries within their time. */
  function Live(es: Entries, clock: string -> int): set<string> {
    set k | k in es && !es[k].stale && clock(k) - es[k].created < es[k].ttl
  }

  /** Which keys are held after a put: all, if there was room; otherwise those of the entries
      within their time, less a least recently used one if they fill the cache by themselves. */
  ghost predicate KeysAfter(max: nat, es: Entries, key: string, clock: string -> int, keys: set<string>) {
    var live := Live(es, clock);
    if |es| < max || key in es then keys == es.Keys + {key}
    else if |live| < max then keys == live + {key}
    else exists victim :: LeastUsed(es, live, victim) && keys == live - {victim} + {key}
  }

  ghost predicate LeastUsed(es: Entries, keys: set<string>, victim: string)
    requires keys <= es.Keys
  {
    victim in keys && forall k :: k in keys ==> es[victim].lastUsed <= es[k].lastUsed
  }

  /** After a put the new entry is held, the others that are held are unchanged, and `KeysAfter`
      says which those are. */
  ghost predicate Holds(max: nat, es: Entries, key: string, e: Entry, clock: string -> int, es': Entries) {
    && key in es' && es'[key] == e
    && (forall k :: k in es' && k != key ==> k in es && es'[k] == es[k])
    && KeysAfter(max, es, key, clock, es'.Keys)
  }

  lemma {:induction false} RoomHolds(max: nat, es: Entries, key: string, e: Entry, clock: string -> int, room: Entries)
    requires KeysAfter(max, es, key, clock, room.Keys + {key})
    requires forall k :: k in room ==> k in es && room[k] == es[k]
    ensures Holds(max, es, key, e, clock, room[key := e])
  {
    KeysOfPut(room, key, e);
  }

  lemma {:induction false} KeysOfPut(room: Entries, key: string, e: Entry)
    ensures room[key := e].Keys == room.Keys + {key}
  {}

  lemma {:induction false} RoomUnchanged(max: nat, es: Entries, key: string, clock: string -> int, room: Entries)
    requires MadeRoom(max, es, key, clock, room)
    ensures forall k :: k in room ==> k in es && room[k] == es[k]
  {}

  lemma {:induction false} FreshKeys(es: Entries, clock: string -> int)
    ensures FreshOnes(es, clock).Keys == Live(es, clock) && |FreshOnes(es, clock)| == |Live(es, clock)|
  {
    assert FreshOnes(es, clock).Keys == Live(es, clock);
  }

  lemma {:induction false} KeysInRoom(max: nat, es: Entries, key: string, clock: string -> int, room: Entries)
    requires MadeRoom(max, es, key, clock, room)
    ensures KeysAfter(max, es, key, clock, room.Keys + {key})
  {
    var live, f := Live(es, clock), FreshOnes(es, clock);
    FreshKeys(es, clock);
    if !(|es| < max || key in es) {
      if |f| >= max {
        var victim :| Oldest(f, victim) && room == f - {victim};
        assert room.Keys == live - {victim} && LeastUsed(es, live, victim);
      }
    }
  }

  // ------------------------------------------------------------------- the cache

  class ResponseCache {
    const maxEntries: nat
    var entries: Entries

    constructor (maxEntries: nat)
      ensures this.maxEntries == maxEntries && entries == map[]
    {
      this.maxEntries, entries := maxEntries, map[];
    }

    method Get(key: string, start: int, checked: int, now: int) returns (r: Option<CachedEntry>)
      modifies this
      ensures r == Answer(old(entries), key, start, checked)
      ensures entries == Looked(old(entries), key, start, checked, now)
      ensures key !in old(entries) ==> r.None? && entries == old(entries)
      ensures key in old(entries) ==>
                var e := old(entries)[key];
                if !e.stale && start - e.created < e.ttl && checked - e.created < e.ttl then
                  r == Some(e.resp) && entries == old(entries)[key := Entry(e.resp, e.created, now, e.ttl, false)]
                else
                  r.None? && entries == old(entries) - {key}
    {
      if key in entries {
        var entry := TransitionIfStale(entries[key], start);
        entries := entries[key := entry];
        if IsFresh(entry, checked) {
          entries := entries[key := entry.(lastUsed := now)];
          return Some(entry.resp);
        }
        entries := entries - {key};
      }
      return None;
    }

    /** Drop every stale entry. */
    method RemoveStale(clock: string -> int)
      modifies this
      ensures entries == FreshOnes(old(entries), clock)
      ensures forall k :: k in entries <==>
                k in old(entries) && !old(entries)[k].stale && clock(k) - old(entries)[k].created < old(entries)[k].ttl
      ensures forall k :: k in entries ==> entries[k] == old(entries)[k]
    {
      var todo, stale := entries.Keys, {};
      while todo != {}
        invariant todo <= old(entries).Keys && entries.Keys == old(entries).Keys
        invariant forall k :: k in entries ==>
                    entries[k] == if k in todo then old(entries)[k] else TransitionIfStale(old(entries)[k], clock(k))
        invariant forall k :: k in stale <==> k in entries && k !in todo && entries[k].stale
        decreases todo
      {
        var k :| k in todo;
        entries := entries[k := TransitionIfStale(entries[k], clock(k))];
        if entries[k].stale {
          stale := stale + {k};
        }
        todo := todo - {k};
      }
      entries := entries - stale;
      assert entries == FreshOnes(old(entries), clock);
    }

    /** Any key with the smallest time of last use. */
    method LeastRecentlyUsed() returns (victim: string)
      requires entries != map[]
      ensures Oldest(entries, victim)
    {
      victim :| victim in entries;
      var todo := entries.Keys - {victim};
      while todo != {}
        invariant todo <= entries.Keys && victim in entries
        invariant forall k :: k in entries && k !in todo ==> entries[victim].lastUsed <= entries[k].lastUsed
        decreases todo
      {
        var k :| k in todo;
        if entries[k].lastUsed < entries[victim].lastUsed {
          victim := k;
        }
        todo := todo - {k};
      }
    }

    method Put(key: string, resp: CachedEntry, ttl: int, clock: string -> int, now: int)
      modifies this
      ensures Stored(maxEntries, old(entries), key, resp, ttl, clock, now, entries)
      ensures maxEntries == 0 ==> entries == old(entries)
      ensures maxEntries > 0 ==> Holds(maxEntries, old(entries), key, Entry(resp, now, now, ttl, false), clock, entries)
    {
      if maxEntries == 0 {
        return;
      }
      if |entries| >= maxEntries && key !in entries {
        RemoveStale(clock);
        if |entries| >= maxEntries {
          var oldest := LeastRecentlyUsed();
          entries := entries - {oldest};
        }
      }
      assert MadeRoom(maxEntries, old(entries), key, clock, entries);
      KeysInRoom(maxEntries, old(entries), key, clock, entries);
      RoomUnchanged(maxEntries, old(entries), key, clock, entries);
      RoomHolds(maxEntries, old(entries), key, Entry(resp, now, now, ttl, false), clock, entries);
      entries := entries[key := Entry(resp, now, now, ttl, false)];
    }
  }

  // ----------------------------------------------------------------- one eviction

  lemma {:induction false} FreshSubset(es: Entries, clock: string -> int)
    ensures |FreshOnes(es, clock)| <= |es|
    ensures (exists k :: k in es && !IsFresh(es[k], clock(k))) ==> |FreshOnes(es, clock)| < |es|
  {
    var f := FreshOnes(es, clock);
    assert f.Keys <= es.Keys;
    SubsetSize(f.Keys, es.Keys);
    if k :| k in es && !IsFresh(es[k], clock(k)) {
      assert k !in f.Keys;
      SubsetSize(f.Keys, es.Keys - {k});
    }
  }

  lemma {:induction false} SubsetSize<T>(a: set<T>, b: set<T>)
    requires a <= b
    ensures |a| <= |b|
  {
    if a != {} {
      var x :| x in a;
      SubsetSize(a - {x}, b - {x});
    }
  }

  ghost predicate AllFresh(es: Entries, clock: string -> int) {
    forall l :: l in es ==> IsFresh(es[l], clock(l))
  }

  /** A fresh entry that is held no longer. */
  ghost predicate Loses(es: Entries, clock: string -> int, k: string, es': Entries) {
    k in es && IsFresh(es[k], clock(k)) && k !in es'
  }

  /** Making room leaves a slot; it costs a fresh entry only when all are fresh, and then
      just one. */
  lemma {:induction false} RoomEvicts(max: nat, es: Entries, key: string, clock: string -> int, room: Entries)
    requires |es| <= max && max > 0 && MadeRoom(max, es, key, clock, room)
    ensures room.Keys <= es.Keys && (key in es || |room| < max)
    ensures forall k :: Loses(es, clock, k, room) ==> key !in es && AllFresh(es, clock) && room.Keys == es.Keys - {k}
  {
    var f := FreshOnes(es, clock);
    FreshSubset(es, clock);
    if !(|es| < max || key in es) && |f| >= max {
      var victim :| Oldest(f, victim) && room == f - {victim};
      assert f.Keys == es.Keys;
      assert room.Keys == es.Keys - {victim};
    }
  }

  /** The cache never outgrows its capacity; a put evicts a fresh entry only when it holds
      no stale one, and then evicts just that one. */
  lemma {:induction false} PutEvicts(max: nat, es: Entries, key: string, resp: CachedEntry, ttl: int, clock: string -> int, now: int, es': Entries)
    requires |es| <= max && Stored(max, es, key, resp, ttl, clock, now, es')
    ensures |es'| <= max
    ensures forall k :: Loses(es, clock, k, es') ==> AllFresh(es, clock) && es'.Keys == es.Keys - {k} + {key}
  {
    if max > 0 {
      var room :| MadeRoom(max, es, key, clock, room) && es' == room[key := Entry(resp, now, now, ttl, false)];
      RoomEvicts(max, es, key, clock, room);
      PutInRoom(max, es, room, key, clock, Entry(resp, now, now, ttl, false));
    }
  }

  /** Putting an entry where there is room for it. */
  lemma {:induction false} PutInRoom(max: nat, es: Entries, room: Entries, key: string, clock: string -> int, e: Entry)
    requires |es| <= max && room.Keys <= es.Keys && (key in es || |room| < max)
    requires forall k :: Loses(es, clock, k, room) ==> key !in es && AllFresh(es, clock) && room.Keys == es.Keys - {k}
    ensures |room[key := e]| <= max
    ensures forall k :: Loses(es, clock, k, room[key := e]) ==>
              AllFresh(es, clock) && room[key := e].Keys == es.Keys - {k} + {key}
  {
    var es' := room[key := e];
    assert es'.Keys == room.Keys + {key};
    if key in es { SubsetSize(es'.Keys, es.Keys); }
    forall k | Loses(es, clock, k, es') ensures AllFresh(es, clock) && es'.Keys == es.Keys - {k} + {key} {
      assert Loses(es, clock, k, room);
    }
  }

  // ------------------------------------------------------------------------ runs

  /** A call with the readings of the clock it makes, from `start` on; `now` is the last. */
  datatype Op =
    | GetOp(key: string, start: int, checked: int, now: int)
    | PutOp(key: string, resp: CachedEntry, ttl: int, start: int, clock: string -> int, now: int)

  ghost predicate InCall(op: Op) {
    match op
    case GetOp(_, start, checked, now) => start <= checked <= now
    case PutOp(_, _, _, start, clock, now) => start <= now && forall k :: start <= clock(k) <= now
  }

  ghost predicate CallAt(ops: seq<Op>, i: nat)
    requires i < |ops|
  {
    InCall(ops[i])
  }

  ghost predicate Step(max: nat, es: Entries, op: Op, es': Entries) {
    match op
    case GetOp(key, start, checked, now) => es' == Looked(es, key, start, checked, now)
    case PutOp(key, resp, ttl, _, clock, now) => Stored(max, es, key, resp, ttl, clock, now, es')
  }

  ghost predicate StepAt(max: nat, ops: seq<Op>, states: seq<Entries>, i: nat)
    requires |states| == |ops| + 1 && i < |ops|
  {
    Step(max, states[i], ops[i], states[i + 1])
  }

  ghost predicate NotAfter(ops: seq<Op>, i: nat, j: nat)
    requires i < |ops| && j < |ops|
  {
    ops[i].now <= ops[j].start
  }

  ghost predicate Before(ops: seq<Op>, i: nat, j: nat)
    requires i < |ops| && j < |ops|
  {
    ops[i].now < ops[j].start
  }

  /** The clock does not go back, within a call and from one to the next. */
  ghost predicate Monotone(ops: seq<Op>) {
    && (forall i :: 0 <= i < |ops| ==> CallAt(ops, i))
    && (forall i, j :: 0 <= i < j < |ops| ==> NotAfter(ops, i, j))
  }

  /** The clock advances between any two calls. */
  ghost predicate Advancing(ops: seq<Op>) {
    forall i, j :: 0 <= i < j < |ops| ==> Before(ops, i, j)
  }

  /** The states of a run from the empty cache. */
  ghost predicate Run(max: nat, ops: seq<Op>, states: seq<Entries>) {
    && |states| == |ops| + 1 && states[0] == map[]
    && (forall i :: 0 <= i < |ops| ==> StepAt(max, ops, states, i))
    && Monotone(ops)
  }

  /** Operation `j` is the latest put of `k` before operation `i`. */
  ghost predicate LastPut(ops: seq<Op>, i: nat, k: string, j: nat)
    requires i <= |ops|
  {
    j < i && ops[j].PutOp? && ops[j].key == k
    && forall l :: j < l < i && ops[l].PutOp? ==> ops[l].key != k
  }

  /** An entry is the image of the put it came from, and is marked stale only when it has
      outlived its time. */
  ghost predicate Mirrors(ops: seq<Op>, i: nat, e: Entry, j: nat)
    requires i <= |ops| && j < i && ops[j].PutOp?
  {
    && e.resp == ops[j].resp && e.ttl == ops[j].ttl && e.created == ops[j].now
    && e.lastUsed <= ops[i - 1].now
    && !e.stale
  }

  ghost predicate Backed(ops: seq<Op>, i: nat, k: string, e: Entry)
    requires i <= |ops|
  {
    exists j :: LastPut(ops, i, k, j) && Mirrors(ops, i, e, j)
  }

  ghost predicate Agrees(max: nat, ops: seq<Op>, i: nat, es: Entries)
    requires i <= |ops|
  {
    |es| <= max && forall k {:trigger Backed(ops, i, k, es[k])} :: k in es ==> Backed(ops, i, k, es[k])
  }

  lemma {:induction false} BackedOn(ops: seq<Op>, i: nat, k: string, e: Entry, e': Entry)
    requires i < |ops| && Backed(ops, i, k, e)
    requires ops[i].PutOp? ==> ops[i].key != k
    requires Monotone(ops)
    requires e' == e || e' == e.(lastUsed := ops[i].now)
    ensures Backed(ops, i + 1, k, e')
  {
    var j :| LastPut(ops, i, k, j) && Mirrors(ops, i, e, j);
    assert NotAfter(ops, i - 1, i) && CallAt(ops, i);
    assert LastPut(ops, i + 1, k, j) && Mirrors(ops, i + 1, e', j);
  }

  lemma {:induction false} StepAgrees(max: nat, ops: seq<Op>, i: nat, es: Entries, es': Entries)
    requires i < |ops| && Agrees(max, ops, i, es) && Step(max, es, ops[i], es')
    requires Monotone(ops)
    ensures Agrees(max, ops, i + 1, es')
  {
    match ops[i]
    case GetOp(_, _, _, _) =>
      assert es'.Keys <= es.Keys;
      SubsetSize(es'.Keys, es.Keys);
      forall k | k in es' ensures Backed(ops, i + 1, k, es'[k]) {
        assert Backed(ops, i, k, es[k]);
        BackedOn(ops, i, k, es[k], es'[k]);
      }
    case PutOp(key, resp, ttl, _, clock, now) =>
      PutEvicts(max, es, key, resp, ttl, clock, now, es');
      forall k | k in es' ensures Backed(ops, i + 1, k, es'[k]) { PutBacked(max, ops, i, es, es', k); }
  }

  lemma {:induction false} PutBacked(max: nat, ops: seq<Op>, i: nat, es: Entries, es': Entries, k: string)
    requires i < |ops| && ops[i].PutOp? && Agrees(max, ops, i, es) && Step(max, es, ops[i], es')
    requires Monotone(ops) && k in es'
    ensures Backed(ops, i + 1, k, es'[k])
  {
    var op := ops[i];
    assert max > 0 || es == map[];
    var room :| MadeRoom(max, es, op.key, op.clock, room)
                && es' == room[op.key := Entry(op.resp, op.now, op.now, op.ttl, false)];
    if k == op.key {
      assert LastPut(ops, i + 1, k, i) && Mirrors(ops, i + 1, es'[k], i);
    } else {
      assert k in room && k in es && es'[k] == es[k] && Backed(ops, i, k, es[k]);
      BackedOn(ops, i, k, es[k], es'[k]);
    }
  }

  lemma {:induction false} RunAgrees(max: nat, ops: seq<Op>, states: seq<Entries>, i: nat)
    requires Run(max, ops, states) && i <= |ops|
    ensures Agrees(max, ops, i, states[i])
  {
    if i > 0 {
      RunAgrees(max, ops, states, i - 1);
      RunAgreesOn(max, ops, states, i - 1);
    }
  }

  lemma {:induction false} RunAgreesOn(max: nat, ops: seq<Op>, states: seq<Entries>, i: nat)
    requires Run(max, ops, states) && i < |ops| && Agrees(max, ops, i, states[i])
    ensures Agrees(max, ops, i + 1, states[i + 1])
  {
    assert StepAt(max, ops, states, i);
    StepAgrees(max, ops, i, states[i], states[i + 1]);
  }

  /** Over every run: a hit is the latest put of that key, at an age below its time to live
      (counted from the put: hits do not extend it); hence an expired response is never
      served again before the next put. The size stays within the capacity. */
  lemma {:induction false} HitIsLastPut(max: nat, ops: seq<Op>, states: seq<Entries>, i: nat)
    requires Run(max, ops, states) && i < |ops| && ops[i].GetOp?
    ensures |states[i]| <= max
    ensures match Answer(states[i], ops[i].key, ops[i].start, ops[i].checked)
            case None => true
            case Some(r) => exists j: nat :: LastPut(ops, i, ops[i].key, j) && ops[j].resp == r
                                        && ops[i].checked - ops[j].now < ops[j].ttl
  {
    RunAgrees(max, ops, states, i);
    var k := ops[i].key;
    if Answer(states[i], k, ops[i].start, ops[i].checked).Some? {
      assert Backed(ops, i, k, states[i][k]);
      var j :| LastPut(ops, i, k, j) && Mirrors(ops, i, states[i][k], j);
    }
  }

  // ---------------------------------------------------------------- LRU survival

  /** The key an operation uses: puts and hits do. */
  ghost function UsedBy(es: Entries, op: Op): set<string> {
    if op.PutOp? || Answer(es, op.key, op.start, op.checked).Some? then {op.key} else {}
  }

  /** The keys other than `k` used by the operations after `u` and before `i`. */
  ghost function Touched(ops: seq<Op>, states: seq<Entries>, u: nat, i: nat, k: string): set<string>
    requires |states| == |ops| + 1 && i <= |ops|
  {
    if i <= u + 1 then {} else Touched(ops, states, u, i - 1, k) + (UsedBy(states[i - 1], ops[i - 1]) - {k})
  }

  lemma {:induction false} TouchedGrows(ops: seq<Op>, states: seq<Entries>, u: nat, i: nat, j: nat, k: string)
    requires |states| == |ops| + 1 && i <= j <= |ops|
    ensures Touched(ops, states, u, i, k) <= Touched(ops, states, u, j, k)
    decreases j
  {
    if i < j { TouchedGrows(ops, states, u, i, j - 1, k); }
  }

  /** The entry was used before `since`, or after it and is then counted. */
  ghost predicate Counted(x: Entry, since: int, counted: bool) {
    x.lastUsed != since && (x.lastUsed > since ==> counted)
  }

  /** The entry is still the one stored, and has been used at `since` or later. */
  ghost predicate Kept(x: Entry, e: Entry, since: int) {
    !x.stale && x.resp == e.resp && x.created == e.created && x.ttl == e.ttl && x.lastUsed >= since
  }

  /** `k` is still held as it was stored, and whoever was used since its last use is known
      to have been touched. */
  ghost predicate Holding(es: Entries, k: string, e: Entry, since: int, touched: set<string>) {
    && k in es && Kept(es[k], e, since)
    && forall l {:trigger Counted(es[l], since, l in touched)} ::
         l in es && l != k ==> Counted(es[l], since, l in touched)
  }

  /** With `k` the oldest, all others and the newcomer have been touched. */
  lemma {:induction false} EvictionNeedsTouches(max: nat, es: Entries, k: string, e: Entry, since: int, touched: set<string>, key: string)
    requires Holding(es, k, e, since, touched) && Oldest(es, k) && |es| >= max && key !in es
    ensures |touched + {key}| >= max
  {
    forall l | l in es.Keys - {k} ensures l in touched {
      assert es[k].lastUsed <= es[l].lastUsed && Counted(es[l], since, l in touched);
    }
    assert es.Keys - {k} + {key} <= touched + {key};
    SubsetSize(es.Keys - {k} + {key}, touched + {key});
  }

  /** Fewer entries, unchanged, are held as before. */
  lemma {:induction false} HoldingFewer(es: Entries, fewer: Entries, k: string, e: Entry, since: int, touched: set<string>)
    requires Holding(es, k, e, since, touched) && k in fewer
    requires forall l :: l in fewer ==> l in es && fewer[l] == es[l]
    ensures Holding(fewer, k, e, since, touched)
  {
    forall l | l in fewer && l != k ensures Counted(fewer[l], since, l in touched) {
      assert Counted(es[l], since, l in touched);
    }
  }

  /** Making room does not cost `k` its place. */
  lemma {:induction false} RoomKeeps(max: nat, es: Entries, op: Op, room: Entries, k: string, e: Entry, since: int, touched: set<string>)
    requires op.PutOp? && InCall(op) && op.now - e.created < e.ttl
    requires Holding(es, k, e, since, touched) && MadeRoom(max, es, op.key, op.clock, room)
    requires |touched + {op.key}| < max
    ensures Holding(room, k, e, since, touched)
  {
    var f := FreshOnes(es, op.clock);
    if !(|es| < max || op.key in es) {
      assert k in f;
      HoldingFewer(es, f, k, e, since, touched);
      if |f| >= max {
        var victim :| Oldest(f, victim) && room == f - {victim};
        if victim == k {
          EvictionNeedsTouches(max, f, k, e, since, touched, op.key);
        } else {
          HoldingFewer(f, room, k, e, since, touched);
        }
      }
    }
  }

  lemma {:induction false} PutHolds(max: nat, es: Entries, op: Op, es': Entries, k: string, e: Entry, since: int, touched: set<string>)
    requires op.PutOp? && InCall(op) && op.key != k && op.start > since && op.now - e.created < e.ttl
    requires Holding(es, k, e, since, touched) && Stored(max, es, op.key, op.resp, op.ttl, op.clock, op.now, es')
    requires |touched + {op.key}| < max
    ensures Holding(es', k, e, since, touched + {op.key})
  {
    var room :| MadeRoom(max, es, op.key, op.clock, room)
                && es' == room[op.key := Entry(op.resp, op.now, op.now, op.ttl, false)];
    RoomKeeps(max, es, op, room, k, e, since, touched);
    forall l | l in es' && l != k ensures Counted(es'[l], since, l in touched + {op.key}) {
      if l != op.key { assert Counted(room[l], since, l in touched); }
    }
  }

  lemma {:induction false} GetHolds(es: Entries, op: Op, k: string, e: Entry, since: int, touched: set<string>)
    requires op.GetOp? && InCall(op) && op.start > since && op.now - e.created < e.ttl
    requires Holding(es, k, e, since, touched)
    ensures Holding(Looked(es, op.key, op.start, op.checked, op.now), k, e, since, touched + (UsedBy(es, op) - {k}))
  {
    var es' := Looked(es, op.key, op.start, op.checked, op.now);
    forall l | l in es' && l != k ensures Counted(es'[l], since, l in touched + (UsedBy(es, op) - {k})) {
      assert Counted(es[l], since, l in touched);
    }
  }

  lemma {:induction false} StepHolds(max: nat, es: Entries, op: Op, es': Entries, k: string, e: Entry, since: int, touched: set<string>)
    requires Step(max, es, op, es') && (op.PutOp? ==> op.key != k)
    requires InCall(op) && op.start > since && op.now - e.created < e.ttl
    requires Holding(es, k, e, since, touched)
    requires |touched + (UsedBy(es, op) - {k})| < max
    ensures Holding(es', k, e, since, touched + (UsedBy(es, op) - {k}))
  {
    if op.PutOp? {
      assert UsedBy(es, op) - {k} == {op.key};
      PutHolds(max, es, op, es', k, e, since, touched);
    } else {
      GetHolds(es, op, k, e, since, touched);
    }
  }

  /** The entry of `k` outlives its use at `u` up to operation `i`. */
  ghost predicate Survives(max: nat, ops: seq<Op>, states: seq<Entries>, u: nat, i: nat, k: string)
    requires |states| == |ops| + 1 && u < i <= |ops|
  {
    && k in states[u + 1]
    && (forall l :: u < l < i && ops[l].PutOp? ==> ops[l].key != k)
    && (i > u + 1 ==> ops[i - 1].now - states[u + 1][k].created < states[u + 1][k].ttl)
    && |Touched(ops, states, u, i, k)| < max
  }

  lemma {:induction false} SurvivesEarlier(max: nat, ops: seq<Op>, states: seq<Entries>, u: nat, i: nat, k: string)
    requires |states| == |ops| + 1 && u + 1 < i <= |ops| && Monotone(ops)
    requires Survives(max, ops, states, u, i, k)
    ensures Survives(max, ops, states, u, i - 1, k)
  {
    assert CallAt(ops, i - 1) && NotAfter(ops, i - 2, i - 1);
    TouchedGrows(ops, states, u, i - 1, i, k);
    SubsetSize(Touched(ops, states, u, i - 1, k), Touched(ops, states, u, i, k));
  }

  lemma {:induction false} HeldThroughout(max: nat, ops: seq<Op>, states: seq<Entries>, u: nat, i: nat, k: string)
    requires Run(max, ops, states) && u < i <= |ops|
    requires Advancing(ops)
    requires ops[u].key == k && k in UsedBy(states[u], ops[u]) && max > 0
    requires Survives(max, ops, states, u, i, k)
    ensures Holding(states[i], k, states[u + 1][k], ops[u].now, Touched(ops, states, u, i, k))
    decreases i
  {
    if i == u + 1 {
      JustUsed(max, ops, states, u, k);
    } else {
      SurvivesEarlier(max, ops, states, u, i, k);
      HeldThroughout(max, ops, states, u, i - 1, k);
      HeldOneMore(max, ops, states, u, i, k);
    }
  }

  lemma {:induction false} HeldOneMore(max: nat, ops: seq<Op>, states: seq<Entries>, u: nat, i: nat, k: string)
    requires Run(max, ops, states) && Advancing(ops) && u + 1 < i <= |ops| && Survives(max, ops, states, u, i, k)
    requires Holding(states[i - 1], k, states[u + 1][k], ops[u].now, Touched(ops, states, u, i - 1, k))
    ensures Holding(states[i], k, states[u + 1][k], ops[u].now, Touched(ops, states, u, i, k))
  {
    assert StepAt(max, ops, states, i - 1) && CallAt(ops, i - 1) && Before(ops, u, i - 1);
    StepHolds(max, states[i - 1], ops[i - 1], states[i], k, states[u + 1][k], ops[u].now, Touched(ops, states, u, i - 1, k));
  }

  /** Before operation `u` everything held was used earlier. */
  lemma {:induction false} UsedEarlier(max: nat, ops: seq<Op>, states: seq<Entries>, u: nat, l: string)
    requires Run(max, ops, states) && Advancing(ops) && u < |ops| && l in states[u]
    ensures states[u][l].lastUsed < ops[u].now && !states[u][l].stale
  {
    RunAgrees(max, ops, states, u);
    assert Backed(ops, u, l, states[u][l]);
    var j :| LastPut(ops, u, l, j) && Mirrors(ops, u, states[u][l], j);
    assert Before(ops, u - 1, u) && CallAt(ops, u);
  }

  /** After its use at `u` the key is held, and used later than all others. */
  lemma {:induction false} JustUsed(max: nat, ops: seq<Op>, states: seq<Entries>, u: nat, k: string)
    requires Run(max, ops, states) && u < |ops| && max > 0
    requires Advancing(ops)
    requires ops[u].key == k && k in UsedBy(states[u], ops[u])
    ensures k in states[u + 1]
    ensures Holding(states[u + 1], k, states[u + 1][k], ops[u].now, Touched(ops, states, u, u + 1, k))
  {
    var es, op, es' := states[u], ops[u], states[u + 1];
    assert StepAt(max, ops, states, u);
    if op.PutOp? {
      var room :| MadeRoom(max, es, op.key, op.clock, room)
                  && es' == room[op.key := Entry(op.resp, op.now, op.now, op.ttl, false)];
      assert forall l :: l in room ==> l in es && room[l] == es[l];
    }
    forall l | l in es' && l != k ensures Counted(es'[l], op.now, false) {
      UsedEarlier(max, ops, states, u, l);
    }
    if op.GetOp? { UsedEarlier(max, ops, states, u, k); }
  }

  /** The entry held after operation `u` is that of the last put before `i`, if that was not
      later than `u`. */
  lemma {:induction false} HeldIsLastPut(max: nat, ops: seq<Op>, states: seq<Entries>, p: nat, u: nat, i: nat, k: string)
    requires Run(max, ops, states) && u < i <= |ops| && k in states[u + 1]
    requires LastPut(ops, i, k, p) && p <= u
    ensures var e := states[u + 1][k]; e.resp == ops[p].resp && e.ttl == ops[p].ttl && e.created == ops[p].now
  {
    RunAgrees(max, ops, states, u + 1);
    assert Backed(ops, u + 1, k, states[u + 1][k]);
    var j :| LastPut(ops, u + 1, k, j) && Mirrors(ops, u + 1, states[u + 1][k], j);
    assert j == p;
  }

  /** LRU survival: under a strictly increasing clock, a key put or hit at `u` is still a hit
      at `i`, with the response of its last put `p`, if that has not expired, it was not put
      again and fewer than `max` other keys were put or hit in between. */
  lemma {:induction false} LruSurvival(max: nat, ops: seq<Op>, states: seq<Entries>, p: nat, u: nat, i: nat, k: string)
    requires Run(max, ops, states) && u < i < |ops|
    requires Advancing(ops)
    requires ops[u].key == k && k in UsedBy(states[u], ops[u])
    requires LastPut(ops, i, k, p) && p <= u
    requires ops[i].GetOp? && ops[i].key == k && ops[i].checked - ops[p].now < ops[p].ttl
    requires |Touched(ops, states, u, i, k)| < max
    ensures Answer(states[i], k, ops[i].start, ops[i].checked) == Some(ops[p].resp)
  {
    JustUsed(max, ops, states, u, k);
    HeldIsLastPut(max, ops, states, p, u, i, k);
    assert NotAfter(ops, i - 1, i) && CallAt(ops, i);
    assert Survives(max, ops, states, u, i, k);
    HeldThroughout(max, ops, states, u, i, k);
    assert Kept(states[i][k], states[u + 1][k], ops[u].now);
  }
}
