/** The routing table served to requests: static routes under the routes of the dynamic
    config sources, rewritten by watcher pushes and by reloads. */
module HotRouting {

  type Table<Info> = map<string, Info>

  datatype Route<Info> = Route(host: string, info: Info)

  /** The table a batch of routes stands for: hosts folded to lower case, the last route of
      a host wins. */
  function TableOf<Info>(lower: string -> string, routes: seq<Route<Info>>): Table<Info> {
    if routes == [] then map[]
    else
      var r := routes[|routes| - 1];
      TableOf(lower, routes[..|routes| - 1])[lower(r.host) := r.info]
  }

  /** The `i`th route is the last of its host. */
  ghost predicate LastOfHost<Info>(lower: string -> string, routes: seq<Route<Info>>, i: nat)
    requires i < |routes|
  {
    forall j :: i < j < |routes| ==> lower(routes[j].host) != lower(routes[i].host)
  }

  /** `table` is `before` with, for every route that is the last of its host, the host in lower
      case mapped to the route. */
  ghost predicate Takes<Info>(lower: string -> string, routes: seq<Route<Info>>, before: Table<Info>, table: Table<Info>) {
    && (forall i :: 0 <= i < |routes| && LastOfHost(lower, routes, i) ==>
         lower(routes[i].host) in table && table[lower(routes[i].host)] == routes[i].info)
    && (forall h :: (forall i :: 0 <= i < |routes| ==> lower(routes[i].host) != h) ==>
         (h in table <==> h in before) && (h in before ==> table[h] == before[h]))
  }

  lemma {:induction false} TableTakes<Info>(lower: string -> string, routes: seq<Route<Info>>, before: Table<Info>)
    ensures Takes(lower, routes, before, before + TableOf(lower, routes))
  {
    var t := TableOf(lower, routes);
    forall h ensures h in t <==> exists i :: 0 <= i < |routes| && lower(routes[i].host) == h {
      TableHosts(lower, routes, h);
    }
    forall i | 0 <= i < |routes| && LastOfHost(lower, routes, i)
      ensures lower(routes[i].host) in t && t[lower(routes[i].host)] == routes[i].info
    {
      TableLast(lower, routes, i);
    }
  }

  lemma {:induction false} TableHosts<Info>(lower: string -> string, routes: seq<Route<Info>>, h: string)
    ensures h in TableOf(lower, routes) <==> exists i :: 0 <= i < |routes| && lower(routes[i].host) == h
  {
    if routes != [] {
      var n := |routes| - 1;
      TableHosts(lower, routes[..n], h);
      if i :| 0 <= i < |routes| && lower(routes[i].host) == h && i < n { assert routes[..n][i] == routes[i]; }
      if i :| 0 <= i < n && lower(routes[..n][i].host) == h { assert routes[i] == routes[..n][i]; }
    }
  }

  lemma {:induction false} TableLast<Info>(lower: string -> string, routes: seq<Route<Info>>, i: nat)
    requires i < |routes| && LastOfHost(lower, routes, i)
    ensures lower(routes[i].host) in TableOf(lower, routes)
    ensures TableOf(lower, routes)[lower(routes[i].host)] == routes[i].info
  {
    var n := |routes| - 1;
    if i < n {
      assert forall j :: 0 <= j < n ==> routes[..n][j] == routes[j];
      TableLast(lower, routes[..n], i);
      assert lower(routes[n].host) != lower(routes[i].host);
    }
  }

  /** Insert every entry of `top` into `bottom`, in any order. */
  method InsertAll<Info>(bottom: Table<Info>, top: Table<Info>) returns (r: Table<Info>)
    ensures r == bottom + top
  {
    r := bottom;
    var todo := top.Keys;
    while todo != {}
      invariant todo <= top.Keys
      invariant forall h :: h in r <==> h in bottom || (h in top && h !in todo)
      invariant forall h :: h in r ==> r[h] == if h in top && h !in todo then top[h] else bottom[h]
      decreases todo
    {
      var h :| h in todo;
      r := r[h := top[h]];
      todo := todo - {h};
    }
  }

  /** The shared state: the snapshot of dynamic routes and the table in force. `startup` is
      the static table captured when the watchers were spawned. */
  class Gateway<Info> {
    const lower: string -> string
    const startup: Table<Info>
    var dynamic: Table<Info>
    var hot: Table<Info>

    constructor (lower: string -> string, startup: Table<Info>)
      ensures this.lower == lower && this.startup == startup && dynamic == map[] && hot == startup
    {
      this.lower, this.startup, dynamic, hot := lower, startup, map[], startup;
    }

    /** The merge task, for one batch received from a source. */
    method Push(routes: seq<Route<Info>>)
      modifies this
      ensures dynamic == old(dynamic) + TableOf(lower, routes)
      ensures hot == startup + dynamic
      ensures Takes(lower, routes, old(dynamic), dynamic)
      ensures forall i :: 0 <= i < |routes| && LastOfHost(lower, routes, i) ==>
                lower(routes[i].host) in hot && hot[lower(routes[i].host)] == routes[i].info
    {
      var mine: Table<Info> := map[];
      var i := 0;
      while i < |routes|
        invariant 0 <= i <= |routes| && mine == TableOf(lower, routes[..i])
        invariant dynamic == old(dynamic)
      {
        assert routes[..i + 1][..i] == routes[..i];
        mine := mine[lower(routes[i].host) := routes[i].info];
        i := i + 1;
      }
      assert routes[..i] == routes;
      TableTakes(lower, routes, dynamic);
      var all := InsertAll(dynamic, mine);
      dynamic := all;
      var merged := InsertAll(startup, all);
      hot := merged;
    }

    /** `rebuild_hot_with_dynamic`, after a reload, patch or clear. */
    method Rebuild(table: Table<Info>)
      modifies this`hot
      ensures hot == table + dynamic
      ensures forall h :: h in hot <==> h in table || h in dynamic
      ensures forall h :: h in hot ==> hot[h] == if h in dynamic then dynamic[h] else table[h]
    {
      var merged := InsertAll(table, dynamic);
      hot := merged;
    }
  }

  // ------------------------------------------------------------- serialised runs

  datatype Op<Info> = Pushed(batch: Table<Info>) | Rebuilt(table: Table<Info>)

  datatype State<Info> = State(dynamic: Table<Info>, hot: Table<Info>)

  function Next<Info>(startup: Table<Info>, s: State<Info>, op: Op<Info>): State<Info> {
    match op
    case Pushed(batch) => State(s.dynamic + batch, startup + (s.dynamic + batch))
    case Rebuilt(table) => State(s.dynamic, table + s.dynamic)
  }

  function Exec<Info>(startup: Table<Info>, ops: seq<Op<Info>>): State<Info> {
    if ops == [] then State(map[], startup)
    else Next(startup, Exec(startup, ops[..|ops| - 1]), ops[|ops| - 1])
  }

  /** The static part in force: the last rebuilt table right after a rebuild, the table of
      the start-up after a push. */
  function StaticInForce<Info>(startup: Table<Info>, ops: seq<Op<Info>>): Table<Info> {
    if ops != [] && ops[|ops| - 1].Rebuilt? then ops[|ops| - 1].table else startup
  }

  /** The most recent static configuration. */
  function LatestStatic<Info>(startup: Table<Info>, ops: seq<Op<Info>>): Table<Info> {
    if ops == [] then startup
    else if ops[|ops| - 1].Rebuilt? then ops[|ops| - 1].table
    else LatestStatic(startup, ops[..|ops| - 1])
  }

  /** The most recently pushed route of a host. */
  ghost predicate LastPush<Info>(ops: seq<Op<Info>>, host: string, info: Info) {
    exists i :: 0 <= i < |ops| && ops[i].Pushed? && host in ops[i].batch && ops[i].batch[host] == info
      && forall j :: i < j < |ops| && ops[j].Pushed? ==> host !in ops[j].batch
  }

  ghost predicate EverPushed<Info>(ops: seq<Op<Info>>, host: string) {
    exists i :: 0 <= i < |ops| && ops[i].Pushed? && host in ops[i].batch
  }

  /** Over every run: the table in force is the static part overridden by the snapshot; a
      host is in the snapshot exactly when it was ever pushed, with its latest route; so no
      rebuild ever drops a dynamic route. */
  lemma {:induction false} RoutingInvariant<Info>(startup: Table<Info>, ops: seq<Op<Info>>)
    ensures var s := Exec(startup, ops);
            && s.hot == StaticInForce(startup, ops) + s.dynamic
            && (forall h :: h in s.dynamic <==> EverPushed(ops, h))
            && (forall h :: h in s.dynamic ==> LastPush(ops, h, s.dynamic[h]))
  {
    if ops != [] {
      var n := |ops| - 1;
      var init := ops[..n];
      RoutingInvariant(startup, init);
      var d, d' := Exec(startup, init).dynamic, Exec(startup, ops).dynamic;
      forall h ensures h in d' <==> EverPushed(ops, h)
               ensures h in d' ==> LastPush(ops, h, d'[h])
      {
        SnapshotStep(ops, h, d, d');
      }
    }
  }

  lemma {:induction false} SnapshotStep<Info>(ops: seq<Op<Info>>, h: string, d: Table<Info>, d': Table<Info>)
    requires ops != []
    requires var op := ops[|ops| - 1]; d' == if op.Pushed? then d + op.batch else d
    requires h in d <==> EverPushed(ops[..|ops| - 1], h)
    requires h in d ==> LastPush(ops[..|ops| - 1], h, d[h])
    ensures h in d' <==> EverPushed(ops, h)
    ensures h in d' ==> LastPush(ops, h, d'[h])
  {
    var n := |ops| - 1;
    var init := ops[..n];
    if ops[n].Pushed? && h in ops[n].batch {
      assert LastPush(ops, h, ops[n].batch[h]);
    } else {
      if h in d {
        var i :| 0 <= i < |init| && init[i].Pushed? && h in init[i].batch && init[i].batch[h] == d[h]
                 && forall j :: i < j < |init| && init[j].Pushed? ==> h !in init[j].batch;
        assert ops[i] == init[i];
        forall j | i < j < |ops| && ops[j].Pushed? ensures h !in ops[j].batch {
          if j < n { assert init[j] == ops[j]; }
        }
      }
      if EverPushed(ops, h) {
        var i :| 0 <= i < |ops| && ops[i].Pushed? && h in ops[i].batch;
        assert init[i] == ops[i];
      }
    }
  }

  /** A push puts the static table of the start-up back. The table in force is the latest
      configuration under the snapshot exactly when the two static tables agree on every
      host the snapshot does not override. */
  lemma {:induction false} StaticAfterPush<Info>(startup: Table<Info>, ops: seq<Op<Info>>, batch: Table<Info>)
    ensures var s, latest := Exec(startup, ops + [Pushed(batch)]), LatestStatic(startup, ops);
            s.hot == latest + s.dynamic <==>
            forall h :: h !in s.dynamic ==>
              (h in startup <==> h in latest) && (h in startup && h in latest ==> startup[h] == latest[h])
  {
    var all := ops + [Pushed(batch)];
    assert all[..|ops|] == ops;
    var s, latest := Exec(startup, all), LatestStatic(startup, ops);
    assert s.hot == startup + s.dynamic;
    if s.hot == latest + s.dynamic {
      forall h | h !in s.dynamic
        ensures (h in startup <==> h in latest) && (h in startup && h in latest ==> startup[h] == latest[h])
      {
        assert h in s.hot <==> h in startup;
        assert h in latest + s.dynamic <==> h in latest;
      }
    }
  }

  /** A reload that moves a host is undone by the next push, even an empty one. */
  lemma {:induction false} PushUndoesReload<Info>(host: string, before: Info, reloaded: Info)
    requires before != reloaded
    ensures var startup := map[host := before];
            var ops := [Rebuilt(map[host := reloaded]), Pushed(map[])];
            Exec(startup, ops).hot == startup != LatestStatic(startup, ops) + Exec(startup, ops).dynamic
  {
    var startup: Table<Info> := map[host := before];
    var r, p := Rebuilt(map[host := reloaded]), Pushed(map[]);
    assert [r, p][..1] == [r] && [r][..0] == [];
    assert Exec(startup, [r]).dynamic == map[];
    assert Exec(startup, [r, p]) == Next(startup, Exec(startup, [r]), p);
    assert LatestStatic(startup, [r, p]) == map[host := reloaded];
    assert startup[host] != (map[host := reloaded] + Exec(startup, [r, p]).dynamic)[host];
  }

  // -------------------------------------------------------- interleaved small steps

  /** The merge task of the single source between its load and its two stores. */
  datatype Task<Info> = Waiting | Loaded(all: Table<Info>) | Stored(all: Table<Info>)

  /** A rebuild that has loaded the snapshot and not yet stored the table. */
  datatype Pending<Info> = Pending(table: Table<Info>, snapshot: Table<Info>)

  /** `base` and `seen` say what `hot` was last computed from; `batches` is the history. */
  datatype Fine<Info> = Fine(
    dynamic: Table<Info>, hot: Table<Info>, task: Task<Info>, rebuilds: seq<Pending<Info>>,
    batches: seq<Table<Info>>, base: Table<Info>, seen: Table<Info>)

  datatype Small<Info> =
    | LoadAndMerge(batch: Table<Info>)
    | StoreSnapshot
    | StoreMerged
    | BeginRebuild(table: Table<Info>)
    | EndRebuild(i: nat)

  function SmallStep<Info>(startup: Table<Info>, s: Fine<Info>, step: Small<Info>): Fine<Info> {
    match step
    case LoadAndMerge(batch) =>
      if s.task.Waiting? then s.(task := Loaded(s.dynamic + batch), batches := s.batches + [batch]) else s
    case StoreSnapshot =>
      if s.task.Loaded? then s.(dynamic := s.task.all, task := Stored(s.task.all)) else s
    case StoreMerged =>
      if s.task.Stored? then
        s.(hot := startup + s.task.all, base := startup, seen := s.task.all, task := Waiting)
      else s
    case BeginRebuild(table) => s.(rebuilds := s.rebuilds + [Pending(table, s.dynamic)])
    case EndRebuild(i) =>
      if i < |s.rebuilds| then
        var p := s.rebuilds[i];
        s.(hot := p.table + p.snapshot, base := p.table, seen := p.snapshot,
           rebuilds := s.rebuilds[..i] + s.rebuilds[i + 1..])
      else s
  }

  function SmallExec<Info>(startup: Table<Info>, steps: seq<Small<Info>>): Fine<Info> {
    if steps == [] then Fine(map[], startup, Waiting, [], [], startup, map[])
    else SmallStep(startup, SmallExec(startup, steps[..|steps| - 1]), steps[|steps| - 1])
  }

  function Union<Info>(batches: seq<Table<Info>>): Table<Info> {
    if batches == [] then map[] else Union(batches[..|batches| - 1]) + batches[|batches| - 1]
  }

  /** No batch is lost from the snapshot (one that is being merged is about to be stored);
      the table in force is always a static table under some snapshot of the past, none of
      whose hosts has disappeared since. */
  ghost predicate Sane<Info>(s: Fine<Info>) {
    && (s.task.Loaded? ==>
         s.batches != [] && s.dynamic == Union(s.batches[..|s.batches| - 1])
         && s.task.all == Union(s.batches))
    && (!s.task.Loaded? ==> s.dynamic == Union(s.batches))
    && (s.task.Stored? ==> s.task.all == s.dynamic)
    && s.hot == s.base + s.seen
    && s.seen.Keys <= s.dynamic.Keys
    && (forall i :: 0 <= i < |s.rebuilds| ==> s.rebuilds[i].snapshot.Keys <= s.dynamic.Keys)
  }

  lemma {:induction false} SmallStepKeeps<Info>(startup: Table<Info>, s: Fine<Info>, step: Small<Info>)
    requires Sane(s)
    ensures Sane(SmallStep(startup, s, step))
    ensures s.dynamic.Keys <= SmallStep(startup, s, step).dynamic.Keys
  {
    match step
    case LoadAndMerge(batch) => LoadKeeps(startup, s, batch);
    case StoreSnapshot => StoreKeeps(startup, s);
    case EndRebuild(i) => EndRebuildKeeps(startup, s, i);
    case _ =>
  }

  lemma {:induction false} LoadKeeps<Info>(startup: Table<Info>, s: Fine<Info>, batch: Table<Info>)
    requires Sane(s)
    ensures Sane(SmallStep(startup, s, LoadAndMerge(batch)))
    ensures SmallStep(startup, s, LoadAndMerge(batch)).dynamic == s.dynamic
  {
    assert (s.batches + [batch])[..|s.batches|] == s.batches;
  }

  lemma {:induction false} StoreKeeps<Info>(startup: Table<Info>, s: Fine<Info>)
    requires Sane(s)
    ensures Sane(SmallStep(startup, s, StoreSnapshot))
    ensures s.dynamic.Keys <= SmallStep(startup, s, StoreSnapshot).dynamic.Keys
  {
    if s.task.Loaded? { UnionGrows(s.batches); }
  }

  lemma {:induction false} EndRebuildKeeps<Info>(startup: Table<Info>, s: Fine<Info>, i: nat)
    requires Sane(s)
    ensures Sane(SmallStep(startup, s, EndRebuild(i)))
    ensures SmallStep(startup, s, EndRebuild(i)).dynamic == s.dynamic
  {}

  lemma {:induction false} UnionGrows<Info>(batches: seq<Table<Info>>)
    requires batches != []
    ensures Union(batches[..|batches| - 1]).Keys <= Union(batches).Keys
  {}

  lemma {:induction false} SnapshotLosesNothing<Info>(startup: Table<Info>, steps: seq<Small<Info>>)
    ensures Sane(SmallExec(startup, steps))
  {
    if steps != [] {
      SnapshotLosesNothing(startup, steps[..|steps| - 1]);
      SmallStepKeeps(startup, SmallExec(startup, steps[..|steps| - 1]), steps[|steps| - 1]);
    }
  }

  /** The table was the dynamic snapshot at some moment of the run. */
  ghost predicate PastSnapshot<Info>(startup: Table<Info>, steps: seq<Small<Info>>, t: Table<Info>) {
    exists j :: 0 <= j <= |steps| && SmallExec(startup, steps[..j]).dynamic == t
  }

  /** The table is the static one of the start-up or of a rebuild of the run. */
  ghost predicate Configured<Info>(startup: Table<Info>, steps: seq<Small<Info>>, t: Table<Info>) {
    t == startup || exists j :: 0 <= j < |steps| && steps[j] == BeginRebuild(t)
  }

  ghost predicate PendingSound<Info>(startup: Table<Info>, steps: seq<Small<Info>>, p: Pending<Info>) {
    Configured(startup, steps, p.table) && PastSnapshot(startup, steps, p.snapshot)
  }

  lemma {:induction false} PastOn<Info>(startup: Table<Info>, steps: seq<Small<Info>>, t: Table<Info>)
    requires steps != [] && PastSnapshot(startup, steps[..|steps| - 1], t)
    ensures PastSnapshot(startup, steps, t)
  {
    var init := steps[..|steps| - 1];
    var j :| 0 <= j <= |init| && SmallExec(startup, init[..j]).dynamic == t;
    assert init[..j] == steps[..j];
  }

  lemma {:induction false} ConfiguredOn<Info>(startup: Table<Info>, steps: seq<Small<Info>>, t: Table<Info>)
    requires steps != [] && Configured(startup, steps[..|steps| - 1], t)
    ensures Configured(startup, steps, t)
  {
    var init := steps[..|steps| - 1];
    if t != startup {
      var j :| 0 <= j < |init| && init[j] == BeginRebuild(t);
      assert steps[j] == BeginRebuild(t);
    }
  }

  lemma {:induction false} PresentIsPast<Info>(startup: Table<Info>, steps: seq<Small<Info>>)
    ensures PastSnapshot(startup, steps, SmallExec(startup, steps).dynamic)
    ensures steps != [] ==> PastSnapshot(startup, steps, SmallExec(startup, steps[..|steps| - 1]).dynamic)
  {
    assert steps[..|steps|] == steps;
  }

  /** Over every interleaving with one source: the table in force is a static table that was
      configured, under a snapshot that was current at some moment; so are the tables that
      pending rebuilds are about to store. */
  lemma {:induction false} InForceIsSound<Info>(startup: Table<Info>, steps: seq<Small<Info>>)
    ensures var s := SmallExec(startup, steps);
            && s.hot == s.base + s.seen
            && Configured(startup, steps, s.base) && PastSnapshot(startup, steps, s.seen)
            && forall i :: 0 <= i < |s.rebuilds| ==> PendingSound(startup, steps, s.rebuilds[i])
  {
    SnapshotLosesNothing(startup, steps);
    PresentIsPast(startup, steps);
    if steps != [] {
      var init, step := steps[..|steps| - 1], steps[|steps| - 1];
      var s, s' := SmallExec(startup, init), SmallExec(startup, steps);
      InForceIsSound(startup, init);
      SnapshotLosesNothing(startup, init);
      PastOn(startup, steps, s.seen);
      ConfiguredOn(startup, steps, s.base);
      forall i | 0 <= i < |s.rebuilds| ensures PendingSound(startup, steps, s.rebuilds[i]) {
        assert PendingSound(startup, init, s.rebuilds[i]);
        PastOn(startup, steps, s.rebuilds[i].snapshot);
        ConfiguredOn(startup, steps, s.rebuilds[i].table);
      }
      StepIsSound(startup, steps, s, step);
    }
  }

  lemma {:induction false} StepIsSound<Info>(startup: Table<Info>, steps: seq<Small<Info>>, s: Fine<Info>, step: Small<Info>)
    requires Sane(s) && steps != [] && step == steps[|steps| - 1]
    requires PastSnapshot(startup, steps, s.dynamic)
    requires Configured(startup, steps, s.base) && PastSnapshot(startup, steps, s.seen)
    requires forall i :: 0 <= i < |s.rebuilds| ==> PendingSound(startup, steps, s.rebuilds[i])
    ensures var s' := SmallStep(startup, s, step);
            && Configured(startup, steps, s'.base) && PastSnapshot(startup, steps, s'.seen)
            && forall i :: 0 <= i < |s'.rebuilds| ==> PendingSound(startup, steps, s'.rebuilds[i])
  {
    if step.EndRebuild? && step.i < |s.rebuilds| {
      assert PendingSound(startup, steps, s.rebuilds[step.i]);
    }
  }

  /** The batches whose snapshot has been stored. */
  function StoredBatches<Info>(s: Fine<Info>): seq<Table<Info>> {
    if s.task.Loaded? && s.batches != [] then s.batches[..|s.batches| - 1] else s.batches
  }

  lemma {:induction false} UnionConcat<Info>(a: seq<Table<Info>>, b: seq<Table<Info>>)
    ensures Union(a + b) == Union(a) + Union(b)
  {
    if b == [] {
      assert a + b == a;
    } else {
      var n := |b| - 1;
      assert (a + b)[..|a + b| - 1] == a + b[..n];
      UnionConcat(a, b[..n]);
    }
  }

  /** The stored batches only grow. */
  lemma {:induction false} StoredGrow<Info>(startup: Table<Info>, pre: seq<Small<Info>>, more: seq<Small<Info>>)
    ensures StoredBatches(SmallExec(startup, pre)) <= StoredBatches(SmallExec(startup, pre + more))
  {
    if more == [] {
      assert pre + more == pre;
    } else {
      var n := |more| - 1;
      var all := pre + more;
      assert all[..|all| - 1] == pre + more[..n] && all[|all| - 1] == more[n];
      var s := SmallExec(startup, pre + more[..n]);
      assert SmallExec(startup, all) == SmallStep(startup, s, more[n]);
      StoredGrow(startup, pre, more[..n]);
      SnapshotLosesNothing(startup, pre + more[..n]);
      StoredStep(startup, s, more[n]);
      PrefixTransitive(StoredBatches(SmallExec(startup, pre)), StoredBatches(s), StoredBatches(SmallExec(startup, all)));
    }
  }

  lemma {:induction false} PrefixTransitive<T>(a: seq<T>, b: seq<T>, c: seq<T>)
    requires a <= b <= c
    ensures a <= c
  {}

  lemma {:induction false} StoredStep<Info>(startup: Table<Info>, s: Fine<Info>, step: Small<Info>)
    requires Sane(s)
    ensures StoredBatches(s) <= StoredBatches(SmallStep(startup, s, step))
  {
    if step.LoadAndMerge? && s.task.Waiting? {
      assert (s.batches + [step.batch])[..|s.batches|] == s.batches;
    }
  }

  /** The batches stored in the course of `more`. */
  ghost function StoredDuring<Info>(startup: Table<Info>, pre: seq<Small<Info>>, more: seq<Small<Info>>): seq<Table<Info>> {
    StoredGrow(startup, pre, more);
    StoredBatches(SmallExec(startup, pre + more))[|StoredBatches(SmallExec(startup, pre))|..]
  }

  lemma {:induction false} SnapshotAfter<Info>(startup: Table<Info>, pre: seq<Small<Info>>, more: seq<Small<Info>>)
    ensures SmallExec(startup, pre + more).dynamic
            == SmallExec(startup, pre).dynamic + Union(StoredDuring(startup, pre, more))
  {
    var s, s' := StoredBatches(SmallExec(startup, pre)), StoredBatches(SmallExec(startup, pre + more));
    StoredGrow(startup, pre, more);
    SnapshotLosesNothing(startup, pre);
    SnapshotLosesNothing(startup, pre + more);
    assert s' == s + s'[|s|..];
    UnionConcat(s, s'[|s|..]);
  }

  /** Over everything that happens between the begin and the end of a rebuild: the table it
      leaves in force is its static table under the current snapshot exactly when the batches
      stored in between bring no host a route that the table under the snapshot of the begin
      does not serve already. */
  lemma {:induction false} RebuildIsCurrent<Info>(startup: Table<Info>, pre: seq<Small<Info>>, mid: seq<Small<Info>>, table: Table<Info>, i: nat)
    requires var begun := SmallExec(startup, pre + ([BeginRebuild(table)] + mid));
             i < |begun.rebuilds| && begun.rebuilds[i] == Pending(table, SmallExec(startup, pre).dynamic)
    ensures var begun := SmallExec(startup, pre + ([BeginRebuild(table)] + mid));
            var ended := SmallExec(startup, pre + ([BeginRebuild(table)] + mid) + [EndRebuild(i)]);
            var news := Union(StoredDuring(startup, pre, [BeginRebuild(table)] + mid));
            var served := table + SmallExec(startup, pre).dynamic;
            && ended.hot == served && ended.dynamic == begun.dynamic
            && (ended.hot == table + ended.dynamic <==>
                forall h :: h in news ==> h in served && served[h] == news[h])
  {
    var more := [BeginRebuild(table)] + mid;
    var all := pre + more + [EndRebuild(i)];
    assert all[..|all| - 1] == pre + more;
    SnapshotAfter(startup, pre, more);
    var was, news := SmallExec(startup, pre).dynamic, Union(StoredDuring(startup, pre, more));
    NewsServed(table, was, news);
  }

  lemma {:induction false} NewsServed<Info>(table: Table<Info>, was: Table<Info>, news: Table<Info>)
    ensures table + was == table + (was + news) <==>
            forall h :: h in news ==> h in table + was && (table + was)[h] == news[h]
  {
    if table + was == table + (was + news) {
      forall h | h in news ensures h in table + was && (table + was)[h] == news[h] {
        assert h in table + (was + news) && (table + (was + news))[h] == news[h];
      }
    }
  }

  /** The table in force can miss a stored batch: a rebuild that loaded the snapshot before
      the batch was stored may finish after it. */
  lemma {:induction false} OvertakenRebuild<Info>(startup: Table<Info>, host: string, info: Info)
    requires host !in startup
    ensures var steps := [BeginRebuild(startup), LoadAndMerge(map[host := info]), StoreSnapshot,
                          StoreMerged, EndRebuild(0)];
            var s := SmallExec(startup, steps);
            host in s.dynamic && host !in s.hot
  {
    var s0, s1, s2, s3, s4 := BeginRebuild(startup), LoadAndMerge(map[host := info]),
                              StoreSnapshot, StoreMerged, EndRebuild(0);
    var e := SmallExec<Info>(startup, []);
    assert [s0][..0] == [] && [s0, s1][..1] == [s0] && [s0, s1, s2][..2] == [s0, s1];
    assert [s0, s1, s2, s3][..3] == [s0, s1, s2] && [s0, s1, s2, s3, s4][..4] == [s0, s1, s2, s3];
    var f0 := SmallExec(startup, [s0]);
    assert f0 == SmallStep(startup, e, s0);
    var f1 := SmallExec(startup, [s0, s1]);
    assert f1 == SmallStep(startup, f0, s1);
    var f2 := SmallExec(startup, [s0, s1, s2]);
    assert f2 == SmallStep(startup, f1, s2);
    var f3 := SmallExec(startup, [s0, s1, s2, s3]);
    assert f3 == SmallStep(startup, f2, s3);
    assert f3.rebuilds[0] == Pending(startup, map[]);
  }
}
