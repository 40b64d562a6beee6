/** `BaseLoader#store!` of lib/configruous.rb: the calls it makes on the parameter
    store for each state ssmclient_iterator yields, and what those calls do to a store
    modelled as a map from parameter name to value. */
module Reconciler {
  import opened Results
  import opened Text
  import opened Values
  import opened Assoc
  import opened Flatten
  import opened Differ

  /** A call store! makes: put_parameter (with or without `overwrite: true`) or
      delete_parameter. */
  datatype Op =
    | PutParameter(name: string, value: string, overwrite: bool)
    | DeleteParameter(name: string)

  /** ParameterAlreadyExists (a put without overwrite on a stored name) and
      ParameterNotFound (a delete of a name that is not stored). */
  datatype StoreError = AlreadyExists(name: string) | NotFound(name: string)

  /** The remote parameter store: name to value. */
  type Store = map<string, string>

  function Names(s: seq<Param>): (ns: seq<string>)
    ensures |ns| == |s|
    ensures forall i :: 0 <= i < |s| ==> ns[i] == s[i].name
  {
    seq(|s|, i requires 0 <= i < |s| => s[i].name)
  }

  /** `snap` is a complete answer of get_parameters_by_path(path:, recursive: true): every
      stored parameter whose name starts with `path`, each listed once with its value. */
  predicate Enumerates(snap: seq<Param>, store: Store, path: string) {
    && (forall i :: 0 <= i < |snap| ==>
          snap[i].name in store && store[snap[i].name] == snap[i].value && path <= snap[i].name)
    && (forall n :: n in store && path <= n ==> n in Names(snap))
    && (forall i, j :: 0 <= i < j < |snap| ==> snap[i].name != snap[j].name)
  }

  /** The block of store!: `:changed` overwrites, `:missing` creates, `:ssm_only`
      deletes, `:unchanged` does nothing. Values are written as their `to_s`. */
  function OpsFor(ev: Event): (ops: seq<Op>)
    ensures |ops| <= 1
    ensures forall op :: op in ops ==> op.name == ev.key
  {
    match ev
    case Changed(k, _, v) => [PutParameter(k, ToS(v), true)]
    case Missing(k, v) => [PutParameter(k, ToS(v), false)]
    case SsmOnly(k, _) => [DeleteParameter(k)]
    case Unchanged(_, _, _) => []
  }

  /** The calls store! makes, in the order the states are yielded. */
  function Plan(events: seq<Event>): seq<Op> {
    if |events| == 0 then [] else OpsFor(events[0]) + Plan(events[1..])
  }

  /** One call against the store. */
  function ApplyOp(store: Store, op: Op): (r: Result<Store, StoreError>)
    ensures r.Err? <==> match op
                        case PutParameter(n, _, overwrite) => !overwrite && n in store
                        case DeleteParameter(n) => n !in store
  {
    match op
    case PutParameter(n, v, overwrite) =>
      if !overwrite && n in store then Err(AlreadyExists(n)) else Ok(store[n := v])
    case DeleteParameter(n) =>
      if n !in store then Err(NotFound(n)) else Ok(store - {n})
  }

  /** The calls in order; the first exception ends store!. */
  function ApplyAll(store: Store, ops: seq<Op>): Result<Store, StoreError>
    decreases |ops|
  {
    if |ops| == 0 then Ok(store)
    else
      var next :- ApplyOp(store, ops[0]);
      ApplyAll(next, ops[1..])
  }

  /** store! for a file's parameters against a snapshot of the store. */
  function StoreAll(local: seq<(string, Scalar)>, snap: seq<Param>, store: Store): Result<Store, StoreError> {
    ApplyAll(store, Plan(Classify(local, snap)))
  }

  // ---------------------------------------------------------------------------
  // What a run of calls does, when no name is touched twice

  /** What a call leaves behind, whether or not it would raise. */
  function Step(store: Store, op: Op): Store {
    match op
    case PutParameter(n, v, _) => store[n := v]
    case DeleteParameter(n) => store - {n}
  }

  function Effect(store: Store, ops: seq<Op>): Store
    decreases |ops|
  {
    if |ops| == 0 then store else Effect(Step(store, ops[0]), ops[1..])
  }

  predicate DistinctNames(ops: seq<Op>) {
    forall i, j :: 0 <= i < j < |ops| ==> ops[i].name != ops[j].name
  }

  /** The call cannot raise on `store`. */
  predicate Ready(store: Store, op: Op) {
    match op
    case PutParameter(n, _, overwrite) => overwrite || n !in store
    case DeleteParameter(n) => n in store
  }

  lemma {:induction false} EffectUntouched(store: Store, ops: seq<Op>, n: string)
    requires forall op :: op in ops ==> op.name != n
    ensures n in Effect(store, ops) <==> n in store
    ensures n in store ==> Effect(store, ops)[n] == store[n]
    decreases |ops|
  {
    if |ops| > 0 {
      assert ops[0] in ops;
      EffectUntouched(Step(store, ops[0]), ops[1..], n);
    }
  }

  lemma {:induction false} EffectOf(store: Store, ops: seq<Op>, op: Op)
    requires DistinctNames(ops) && op in ops
    ensures op.PutParameter? ==> op.name in Effect(store, ops) && Effect(store, ops)[op.name] == op.value
    ensures op.DeleteParameter? ==> op.name !in Effect(store, ops)
    decreases |ops|
  {
    var rest := ops[1..];
    if ops[0] == op {
      forall o | o in rest
        ensures o.name != op.name
      {
        var j :| 0 <= j < |rest| && rest[j] == o;
        assert ops[j + 1] == o;
      }
      EffectUntouched(Step(store, op), rest, op.name);
    } else {
      assert op in rest;
      assert DistinctNames(rest) by {
        forall i, j | 0 <= i < j < |rest|
          ensures rest[i].name != rest[j].name
        {
          assert rest[i] == ops[i + 1] && rest[j] == ops[j + 1];
        }
      }
      EffectOf(Step(store, ops[0]), rest, op);
    }
  }

  /** Calls on distinct names, each allowed on the starting store, all succeed. */
  lemma {:induction false} ApplyDistinct(store: Store, ops: seq<Op>)
    requires DistinctNames(ops)
    requires forall op :: op in ops ==> Ready(store, op)
    ensures ApplyAll(store, ops) == Ok(Effect(store, ops))
    decreases |ops|
  {
    if |ops| > 0 {
      var rest := ops[1..];
      assert ops[0] in ops;
      var next := Step(store, ops[0]);
      assert ApplyOp(store, ops[0]) == Ok(next);
      assert DistinctNames(rest) by {
        forall i, j | 0 <= i < j < |rest|
          ensures rest[i].name != rest[j].name
        {
          assert rest[i] == ops[i + 1] && rest[j] == ops[j + 1];
        }
      }
      forall o | o in rest
        ensures Ready(next, o)
      {
        var j :| 0 <= j < |rest| && rest[j] == o;
        assert ops[j + 1] == o;
        assert o in ops && o.name != ops[0].name;
      }
      ApplyDistinct(next, rest);
    }
  }

  // ---------------------------------------------------------------------------
  // The calls of store!

  lemma {:induction false} PlanAppend(a: seq<Event>, b: seq<Event>)
    ensures Plan(a + b) == Plan(a) + Plan(b)
    decreases |a|
  {
    if |a| == 0 {
      assert a + b == b;
    } else {
      assert (a + b)[1..] == a[1..] + b;
      PlanAppend(a[1..], b);
    }
  }

  /** Every call comes from one state. */
  lemma {:induction false} PlanFrom(events: seq<Event>, op: Op)
    requires op in Plan(events)
    ensures exists j :: 0 <= j < |events| && op in OpsFor(events[j])
    decreases |events|
  {
    if op !in OpsFor(events[0]) {
      PlanFrom(events[1..], op);
      var j :| 0 <= j < |events[1..]| && op in OpsFor(events[1..][j]);
      assert events[j + 1] == events[1..][j];
    }
  }

  /** Every state's calls are made. */
  lemma {:induction false} PlanHas(events: seq<Event>, i: nat, op: Op)
    requires i < |events| && op in OpsFor(events[i])
    ensures op in Plan(events)
    decreases i
  {
    if i > 0 {
      PlanHas(events[1..], i - 1, op);
    }
  }

  predicate DistinctEventKeys(events: seq<Event>) {
    forall i, j :: 0 <= i < j < |events| ==> events[i].key != events[j].key
  }

  lemma {:induction false} PlanDistinct(events: seq<Event>)
    requires DistinctEventKeys(events)
    ensures DistinctNames(Plan(events))
    decreases |events|
  {
    if |events| > 0 {
      var rest := events[1..];
      assert DistinctEventKeys(rest) by {
        forall i, j | 0 <= i < j < |rest|
          ensures rest[i].key != rest[j].key
        {
          assert rest[i] == events[i + 1] && rest[j] == events[j + 1];
        }
      }
      PlanDistinct(rest);
      var head, tail := OpsFor(events[0]), Plan(rest);
      var ops: seq<Op> := head + tail;
      forall i, j | 0 <= i < j < |ops|
        ensures ops[i].name != ops[j].name
      {
        if i < |head| {
          var o := tail[j - |head|];
          assert o in tail;
          PlanFrom(rest, o);
          var m :| 0 <= m < |rest| && o in OpsFor(rest[m]);
          assert rest[m] == events[m + 1];
        }
      }
    }
  }

  /** A state whose call cannot raise: the name of a `:missing` state is not stored and
      the name of an `:ssm_only` state is. */
  predicate EventReady(store: Store, ev: Event) {
    && (ev.Missing? ==> ev.key !in store)
    && (ev.SsmOnly? ==> ev.key in store)
  }

  lemma {:induction false} PlanReady(events: seq<Event>, store: Store)
    requires forall i :: 0 <= i < |events| ==> EventReady(store, events[i])
    ensures forall op :: op in Plan(events) ==> Ready(store, op)
  {
    forall op | op in Plan(events)
      ensures Ready(store, op)
    {
      PlanFrom(events, op);
    }
  }

  // ---------------------------------------------------------------------------
  // store! against a complete snapshot

  lemma {:induction false} FirstNamedListed(s: seq<Param>, k: string)
    ensures FirstNamed(s, k).None? <==> k !in Names(s)
    ensures FirstNamed(s, k).Some? ==> Param(k, FirstNamed(s, k).value) in s
    decreases |s|
  {
    if |s| > 0 {
      FirstNamedListed(s[1..], k);
      assert Names(s) == [s[0].name] + Names(s[1..]);
    }
  }

  /** A remote name's stored value is what FirstNamed reads from a complete snapshot. */
  lemma {:induction false} FirstNamedStored(snap: seq<Param>, store: Store, path: string, k: string)
    requires Enumerates(snap, store, path)
    requires path <= k
    ensures FirstNamed(snap, k).None? <==> k !in store
    ensures FirstNamed(snap, k).Some? ==> FirstNamed(snap, k) == Some(store[k])
  {
    FirstNamedListed(snap, k);
    if FirstNamed(snap, k).Some? {
      var j :| 0 <= j < |snap| && snap[j] == Param(k, FirstNamed(snap, k).value);
    }
    if k in store {
      assert k in Names(snap);
    }
  }

  lemma {:induction false} OrphansFacts(s: seq<Param>, keys: seq<string>)
    ensures forall i :: 0 <= i < |Orphans(s, keys)| ==>
              && Orphans(s, keys)[i].SsmOnly?
              && Orphans(s, keys)[i].key !in keys
              && Param(Orphans(s, keys)[i].key, Orphans(s, keys)[i].existing) in s
    decreases |s|
  {
    if |s| > 0 {
      OrphansFacts(s[1..], keys);
      var head := if s[0].name !in keys then [SsmOnly(s[0].name, s[0].value)] else [];
      assert Orphans(s, keys) == head + Orphans(s[1..], keys);
    }
  }

  lemma {:induction false} OrphansDistinct(s: seq<Param>, keys: seq<string>)
    requires forall i, j :: 0 <= i < j < |s| ==> s[i].name != s[j].name
    ensures DistinctEventKeys(Orphans(s, keys))
    decreases |s|
  {
    if |s| > 0 {
      var rest := s[1..];
      OrphansDistinct(rest, keys);
      OrphansFacts(rest, keys);
      var head := if s[0].name !in keys then [SsmOnly(s[0].name, s[0].value)] else [];
      var o := Orphans(rest, keys);
      var all: seq<Event> := head + o;
      assert Orphans(s, keys) == all;
      forall i, j | 0 <= i < j < |all|
        ensures all[i].key != all[j].key
      {
        if i < |head| {
          var e := o[j - |head|];
          assert Param(e.key, e.existing) in rest;
          var m :| 0 <= m < |rest| && rest[m] == Param(e.key, e.existing);
          assert s[m + 1] == rest[m];
        }
      }
    }
  }

  /** The local states of a sync: one per local key, under the path, callable. */
  lemma {:induction false} SyncLocalEvents(local: seq<(string, Scalar)>, store: Store, snap: seq<Param>, path: string)
    requires Enumerates(snap, store, path)
    requires forall i :: 0 <= i < |local| ==> path <= local[i].0
    ensures forall i :: 0 <= i < |local| ==>
              && ClassifyAll(local, snap)[i].key == Keys(local)[i]
              && path <= ClassifyAll(local, snap)[i].key
              && EventReady(store, ClassifyAll(local, snap)[i])
  {
    forall i | 0 <= i < |local|
      ensures EventReady(store, ClassifyAll(local, snap)[i])
    {
      FirstNamedStored(snap, store, path, local[i].0);
    }
  }

  /** The remote states of a sync: names under the path that are stored but not local. */
  lemma {:induction false} SyncOrphanEvents(local: seq<(string, Scalar)>, store: Store, snap: seq<Param>, path: string)
    requires Enumerates(snap, store, path)
    ensures DistinctEventKeys(Orphans(snap, Keys(local)))
    ensures forall i :: 0 <= i < |Orphans(snap, Keys(local))| ==>
              var e := Orphans(snap, Keys(local))[i];
              e.SsmOnly? && e.key !in Keys(local) && path <= e.key && e.key in store
  {
    var o := Orphans(snap, Keys(local));
    OrphansFacts(snap, Keys(local));
    OrphansDistinct(snap, Keys(local));
    forall i | 0 <= i < |o|
      ensures path <= o[i].key && o[i].key in store
    {
      var m :| 0 <= m < |snap| && snap[m] == Param(o[i].key, o[i].existing);
    }
  }

  /** Facts about the states of a sync that make its calls safe and local to the path. */
  predicate EventsFit(events: seq<Event>, local: seq<(string, Scalar)>, store: Store, path: string) {
    forall i :: 0 <= i < |events| ==>
      && EventReady(store, events[i])
      && path <= events[i].key
      && (events[i].key in Keys(local) || (events[i].SsmOnly? && events[i].key in store))
  }

  lemma {:induction false} FitAppend(a: seq<Event>, b: seq<Event>, local: seq<(string, Scalar)>, store: Store, path: string)
    requires EventsFit(a, local, store, path) && EventsFit(b, local, store, path)
    ensures EventsFit(a + b, local, store, path)
  {
    forall i | 0 <= i < |a + b|
      ensures var e := (a + b)[i]; EventReady(store, e) && path <= e.key && (e.key in Keys(local) || (e.SsmOnly? && e.key in store))
    {
      if i >= |a| {
        assert (a + b)[i] == b[i - |a|];
      }
    }
  }

  lemma {:induction false} DistinctAppend(a: seq<Event>, b: seq<Event>)
    requires DistinctEventKeys(a) && DistinctEventKeys(b)
    requires forall i, j :: 0 <= i < |a| && 0 <= j < |b| ==> a[i].key != b[j].key
    ensures DistinctEventKeys(a + b)
  {
    var ab := a + b;
    forall i, j | 0 <= i < j < |ab|
      ensures ab[i].key != ab[j].key
    {
      if j >= |a| && i >= |a| {
        assert ab[i] == b[i - |a|] && ab[j] == b[j - |a|];
      } else if j >= |a| {
        assert ab[j] == b[j - |a|];
      }
    }
  }

  /** Where the states of a sync come from: one per local key, one per remote name under
      the path that is not a local key; the calls for them never raise. */
  lemma {:induction false} SyncEvents(local: seq<(string, Scalar)>, store: Store, snap: seq<Param>, path: string)
    requires UniqueKeys(local)
    requires Enumerates(snap, store, path)
    requires forall i :: 0 <= i < |local| ==> path <= local[i].0
    ensures DistinctEventKeys(Classify(local, snap))
    ensures EventsFit(Classify(local, snap), local, store, path)
  {
    ClassifySpec(local, snap);
    var a, o := ClassifyAll(local, snap), Orphans(snap, Keys(local));
    SyncLocalEvents(local, store, snap, path);
    SyncOrphanEvents(local, store, snap, path);
    assert DistinctEventKeys(a) by {
      forall i, j | 0 <= i < j < |a|
        ensures a[i].key != a[j].key
      {
        assert a[i].key == local[i].0 && a[j].key == local[j].0;
      }
    }
    assert EventsFit(a, local, store, path);
    assert EventsFit(o, local, store, path);
    DistinctAppend(a, o);
    FitAppend(a, o, local, store, path);
  }

  /** No call names `n` when no state that makes a call has key `n`. */
  lemma {:induction false} NoCallOn(events: seq<Event>, n: string)
    requires forall j :: 0 <= j < |events| && events[j].key == n ==> events[j].Unchanged?
    ensures forall op :: op in Plan(events) ==> op.name != n
  {
    forall op | op in Plan(events)
      ensures op.name != n
    {
      PlanFrom(events, op);
    }
  }

  lemma {:induction false} OrphanOf(s: seq<Param>, keys: seq<string>, m: nat)
    requires m < |s| && s[m].name !in keys
    ensures SsmOnly(s[m].name, s[m].value) in Orphans(s, keys)
    decreases m
  {
    if m > 0 {
      OrphanOf(s[1..], keys, m - 1);
    }
  }

  /** A local key ends up holding its value's `to_s`. */
  lemma {:induction false} SyncLocalKey(local: seq<(string, Scalar)>, store: Store, snap: seq<Param>, path: string, i: nat)
    requires UniqueKeys(local)
    requires Enumerates(snap, store, path)
    requires forall i :: 0 <= i < |local| ==> path <= local[i].0
    requires i < |local|
    ensures var r := Effect(store, Plan(Classify(local, snap)));
            local[i].0 in r && r[local[i].0] == ToS(local[i].1)
  {
    var events := Classify(local, snap);
    var (k, v) := local[i];
    ClassifySpec(local, snap);
    SyncEvents(local, store, snap, path);
    PlanDistinct(events);
    assert events[i] == ClassifyOne(k, v, snap);
    FirstNamedStored(snap, store, path, k);
    if events[i].Unchanged? {
      forall j | 0 <= j < |events| && events[j].key == k
        ensures events[j].Unchanged?
      {
        assert j == i;
      }
      NoCallOn(events, k);
      EffectUntouched(store, Plan(events), k);
    } else {
      var op := OpsFor(events[i])[0];
      assert op in OpsFor(events[i]);
      PlanHas(events, i, op);
      EffectOf(store, Plan(events), op);
    }
  }

  /** A name that is not a local key is deleted when the snapshot lists it, and left as
      it was otherwise. */
  lemma {:induction false} SyncOtherName(local: seq<(string, Scalar)>, store: Store, snap: seq<Param>, path: string, n: string)
    requires UniqueKeys(local)
    requires Enumerates(snap, store, path)
    requires forall i :: 0 <= i < |local| ==> path <= local[i].0
    requires n !in Keys(local)
    ensures var r := Effect(store, Plan(Classify(local, snap)));
            (n in r <==> n in store && !(path <= n)) && (n in r ==> r[n] == store[n])
  {
    if n in store && path <= n {
      SyncDeletesListed(local, store, snap, path, n);
    } else {
      var events := Classify(local, snap);
      SyncEvents(local, store, snap, path);
      NoCallOn(events, n);
      EffectUntouched(store, Plan(events), n);
    }
  }

  /** A listed name that is not a local key is deleted. */
  lemma {:induction false} SyncDeletesListed(local: seq<(string, Scalar)>, store: Store, snap: seq<Param>, path: string, n: string)
    requires UniqueKeys(local)
    requires Enumerates(snap, store, path)
    requires forall i :: 0 <= i < |local| ==> path <= local[i].0
    requires n !in Keys(local) && n in store && path <= n
    ensures n !in Effect(store, Plan(Classify(local, snap)))
  {
    var events := Classify(local, snap);
    SyncEvents(local, store, snap, path);
    PlanDistinct(events);
    assert n in Names(snap);
    ListedOrphanDeleted(local, snap, n);
    EffectOf(store, Plan(events), DeleteParameter(n));
  }

  /** store! deletes every listed name that is not a local key. */
  lemma {:induction false} ListedOrphanDeleted(local: seq<(string, Scalar)>, snap: seq<Param>, n: string)
    requires UniqueKeys(local)
    requires n !in Keys(local) && n in Names(snap)
    ensures DeleteParameter(n) in Plan(Classify(local, snap))
  {
    var events := Classify(local, snap);
    var m :| 0 <= m < |snap| && Names(snap)[m] == n;
    OrphanOf(snap, Keys(local), m);
    ClassifySpec(local, snap);
    var e := SsmOnly(n, snap[m].value);
    assert e in events;
    var j :| 0 <= j < |events| && events[j] == e;
    assert DeleteParameter(n) in OpsFor(e);
    PlanHas(events, j, DeleteParameter(n));
  }

  /** store! against a complete listing of its request path: no call raises, every local
      key ends up holding its value's `to_s`, every other name under the path is deleted,
      and nothing outside the path changes. */
  lemma {:induction false} SyncConverges(local: seq<(string, Scalar)>, store: Store, snap: seq<Param>, path: string)
    requires UniqueKeys(local)
    requires Enumerates(snap, store, path)
    requires forall i :: 0 <= i < |local| ==> path <= local[i].0
    ensures StoreAll(local, snap, store).Ok?
    ensures var r := StoreAll(local, snap, store).value;
            forall i :: 0 <= i < |local| ==> local[i].0 in r && r[local[i].0] == ToS(local[i].1)
    ensures var r := StoreAll(local, snap, store).value;
            forall n :: n in r <==> n in Keys(local) || (n in store && !(path <= n))
    ensures var r := StoreAll(local, snap, store).value;
            forall n :: n in store && !(path <= n) ==> r[n] == store[n]
  {
    var events := Classify(local, snap);
    SyncEvents(local, store, snap, path);
    PlanDistinct(events);
    PlanReady(events, store);
    ApplyDistinct(store, Plan(events));
    var r := Effect(store, Plan(events));
    forall i | 0 <= i < |local|
      ensures local[i].0 in r && r[local[i].0] == ToS(local[i].1)
    {
      SyncLocalKey(local, store, snap, path, i);
    }
    forall n
      ensures n in r <==> n in Keys(local) || (n in store && !(path <= n))
      ensures n in store && !(path <= n) ==> r[n] == store[n]
    {
      if n in Keys(local) {
        var i :| 0 <= i < |local| && Keys(local)[i] == n;
        SyncLocalKey(local, store, snap, path, i);
        assert path <= n;
      } else {
        SyncOtherName(local, store, snap, path, n);
      }
    }
  }

  // ---------------------------------------------------------------------------
  // A store that already matches

  lemma {:induction false} OrphansNone(s: seq<Param>, keys: seq<string>)
    requires forall i :: 0 <= i < |s| ==> s[i].name in keys
    ensures Orphans(s, keys) == []
    decreases |s|
  {
    if |s| > 0 {
      OrphansNone(s[1..], keys);
    }
  }

  lemma {:induction false} PlanOfUnchanged(events: seq<Event>)
    requires forall i :: 0 <= i < |events| ==> events[i].Unchanged?
    ensures Plan(events) == []
    decreases |events|
  {
    if |events| > 0 {
      PlanOfUnchanged(events[1..]);
    }
  }

  /** Against a store that already holds every local key with its value's `to_s` and
      nothing else under the path, every state is `:unchanged`. */
  lemma {:induction false} InSyncEvents(local: seq<(string, Scalar)>, store: Store, snap: seq<Param>, path: string)
    requires UniqueKeys(local)
    requires Enumerates(snap, store, path)
    requires forall i :: 0 <= i < |local| ==> path <= local[i].0
    requires forall i :: 0 <= i < |local| ==> local[i].0 in store && store[local[i].0] == ToS(local[i].1)
    requires forall n :: n in store && path <= n ==> n in Keys(local)
    ensures |Classify(local, snap)| == |local|
    ensures forall i :: 0 <= i < |Classify(local, snap)| ==> Classify(local, snap)[i].Unchanged?
  {
    ClassifySpec(local, snap);
    OrphansNone(snap, Keys(local));
    assert Classify(local, snap) == ClassifyAll(local, snap);
    forall i | 0 <= i < |local|
      ensures ClassifyAll(local, snap)[i].Unchanged?
    {
      FirstNamedStored(snap, store, path, local[i].0);
    }
  }

  /** Such a store needs no call from store!, and its diff has no section but `:unchanged`. */
  lemma {:induction false} InSync(local: seq<(string, Scalar)>, store: Store, snap: seq<Param>, path: string)
    requires UniqueKeys(local)
    requires Enumerates(snap, store, path)
    requires forall i :: 0 <= i < |local| ==> path <= local[i].0
    requires forall i :: 0 <= i < |local| ==> local[i].0 in store && store[local[i].0] == ToS(local[i].1)
    requires forall n :: n in store && path <= n ==> n in Keys(local)
    ensures Plan(Classify(local, snap)) == []
    ensures forall sec :: sec in DiffOf(Classify(local, snap)).sections <==> sec == UnchangedSection && |local| > 0
  {
    var events := Classify(local, snap);
    InSyncEvents(local, store, snap, path);
    PlanOfUnchanged(events);
    DiffSections(events);
    if |local| > 0 {
      assert SectionsOf(events)[0] == UnchangedSection;
    }
  }

  /** Running the comparison again after store! finds nothing to do. */
  lemma {:induction false} ResyncIsUnchanged(local: seq<(string, Scalar)>, store: Store, snap: seq<Param>, path: string,
                          after: Store, snap2: seq<Param>)
    requires UniqueKeys(local)
    requires Enumerates(snap, store, path)
    requires forall i :: 0 <= i < |local| ==> path <= local[i].0
    requires StoreAll(local, snap, store) == Ok(after)
    requires Enumerates(snap2, after, path)
    ensures forall i :: 0 <= i < |Classify(local, snap2)| ==> Classify(local, snap2)[i].Unchanged?
    ensures Plan(Classify(local, snap2)) == []
    ensures StoreAll(local, snap2, after) == Ok(after)
    ensures forall sec :: sec in DiffOf(Classify(local, snap2)).sections <==> sec == UnchangedSection && |local| > 0
  {
    SyncConverges(local, store, snap, path);
    forall n | n in after && path <= n
      ensures n in Keys(local)
    {
    }
    InSyncEvents(local, after, snap2, path);
    InSync(local, after, snap2, path);
  }

  // ---------------------------------------------------------------------------
  // The request path

  /** The path ssmclient_iterator asks the store for, as written: it uses the loader's
      filename as given, directories included. */
  function RequestPathAsWritten(l: Loader, prefix: string): string {
    "/" + prefix + "/" + Environment(l) + "/" + l.filename + "/"
  }

  /** The path the parameters of to_params live under: the loader's basename. */
  function RequestPath(l: Loader, prefix: string): string {
    "/" + prefix + "/" + Environment(l) + "/" + l.basename + "/"
  }

  lemma {:induction false} ToParamsUnder(prefix: string, entries: seq<Entry>, path: string)
    requires forall i :: 0 <= i < |entries| ==> path <= FullPath(prefix, entries[i])
    ensures forall i :: 0 <= i < |ToParams(prefix, entries)| ==> path <= ToParams(prefix, entries)[i].0
    decreases |entries|
  {
    if |entries| > 0 {
      var init, last := entries[..|entries| - 1], entries[|entries| - 1];
      ToParamsUnder(prefix, init, path);
      var m := ToParams(prefix, init);
      PutKeys(m, FullPath(prefix, last), last.value);
      var r := ToParams(prefix, entries);
      forall i | 0 <= i < |r|
        ensures path <= r[i].0
      {
        assert Keys(r)[i] == r[i].0;
        if i < |m| {
          assert Keys(m)[i] == m[i].0;
        }
      }
    }
  }

  /** Every parameter a loader produces lies under RequestPath. */
  lemma {:induction false} LoadedUnderRequestPath(l: Loader, dta: seq<Member>, prefix: string, entries: seq<Entry>)
    requires LoadData(l, dta) == Ok(entries)
    ensures forall i :: 0 <= i < |ToParams(prefix, entries)| ==> RequestPath(l, prefix) <= ToParams(prefix, entries)[i].0
  {
    var path := RequestPath(l, prefix);
    forall i | 0 <= i < |entries|
      ensures path <= FullPath(prefix, entries[i])
    {
      assert FullPath(prefix, entries[i]) == path + entries[i].key;
    }
    ToParamsUnder(prefix, entries, path);
  }

  /** store! of a loaded file, fetching under RequestPath: no call raises, and afterwards
      the store holds exactly the file's parameters under that path. */
  lemma {:induction false} StoreConverges(l: Loader, dta: seq<Member>, prefix: string, entries: seq<Entry>,
                       store: Store, snap: seq<Param>)
    requires LoadData(l, dta) == Ok(entries)
    requires Enumerates(snap, store, RequestPath(l, prefix))
    ensures var local := ToParams(prefix, entries);
            StoreAll(local, snap, store).Ok?
    ensures var local := ToParams(prefix, entries);
            var r := StoreAll(local, snap, store).value;
            forall p :: Get(local, p).Some? ==> p in r && r[p] == ToS(Get(local, p).value)
    ensures var local := ToParams(prefix, entries);
            var r := StoreAll(local, snap, store).value;
            forall n :: n in r <==> n in Keys(local) || (n in store && !(RequestPath(l, prefix) <= n))
  {
    var local := ToParams(prefix, entries);
    ToParamsSpec(prefix, entries);
    LoadedUnderRequestPath(l, dta, prefix, entries);
    SyncConverges(local, store, snap, RequestPath(l, prefix));
    forall p | Get(local, p).Some?
      ensures var r := StoreAll(local, snap, store).value; p in r && r[p] == ToS(Get(local, p).value)
    {
      var i :| 0 <= i < |local| && local[i] == (p, Get(local, p).value);
    }
  }

  lemma {:induction false} LoadOneLeaf(l: Loader)
    requires l.environmentOption == None
    ensures LoadData(l, [Member("a", Leaf(Str("1")))]) == Ok([Entry(l.basename, "prod", "a", Str("1"))])
  {
    var dta := [Member("a", Leaf(Str("1")))];
    assert ValidKey("a") by {
      assert KeyChar("a"[0]);
    }
    var first := [("a", Str("1"))];
    assert FlattenValue("a", Leaf(Str("1"))) == Ok(first);
    assert dta[1..] == [];
    assert FlattenTop([]) == Ok([]);
    assert first + [] == first;
    assert FlattenTop(dta) == Ok(first);
    var entries := seq(1, i requires 0 <= i < 1 => Entry(l.basename, Environment(l), first[i].0, first[i].1));
    assert entries == [Entry(l.basename, "prod", "a", Str("1"))];
  }

  /** The one parameter of the example below, and its full path. */
  lemma {:induction false} OneParam()
    ensures ToParams("cfg", [Entry("app.yaml", "prod", "a", Str("1"))]) == [("/cfg/prod/app.yaml/a", Str("1"))]
  {
    var e := Entry("app.yaml", "prod", "a", Str("1"));
    assert [e][..0] == [];
    assert FullPath("cfg", e) == "/cfg/prod/app.yaml/a";
  }

  /** With a filename that has a directory part, the request path as written misses the
      stored parameter, so store! tries to create a parameter that already exists. */
  lemma {:induction false} RequestPathAsWrittenMissesStored()
    ensures var l := Loader("conf/app.yaml", "app.yaml", None);
            var store := map["/cfg/prod/app.yaml/a" := "1"];
            && LoadData(l, [Member("a", Leaf(Str("1")))]) == Ok([Entry("app.yaml", "prod", "a", Str("1"))])
            && Enumerates([], store, RequestPathAsWritten(l, "cfg"))
            && StoreAll(ToParams("cfg", [Entry("app.yaml", "prod", "a", Str("1"))]), [], store)
               == Err(AlreadyExists("/cfg/prod/app.yaml/a"))
  {
    var l := Loader("conf/app.yaml", "app.yaml", None);
    LoadOneLeaf(l);
    OneParam();
    var k := "/cfg/prod/app.yaml/a";
    var local := [(k, Str("1"))];
    assert !(RequestPathAsWritten(l, "cfg") <= k) by {
      assert RequestPathAsWritten(l, "cfg")[10] == 'c' != k[10];
    }
    assert Classify(local, []) == [Missing(k, Str("1"))] by {
      assert local[1..] == [];
    }
    assert Plan([Missing(k, Str("1"))]) == [PutParameter(k, "1", false)];
  }

  /** On the same store, the basename path lists the parameter and store! has nothing to do. */
  lemma {:induction false} RequestPathListsStored()
    ensures var l := Loader("conf/app.yaml", "app.yaml", None);
            var store := map["/cfg/prod/app.yaml/a" := "1"];
            && Enumerates([Param("/cfg/prod/app.yaml/a", "1")], store, RequestPath(l, "cfg"))
            && StoreAll(ToParams("cfg", [Entry("app.yaml", "prod", "a", Str("1"))]),
                        [Param("/cfg/prod/app.yaml/a", "1")], store) == Ok(store)
  {
    var l := Loader("conf/app.yaml", "app.yaml", None);
    OneParam();
    var k := "/cfg/prod/app.yaml/a";
    var local := [(k, Str("1"))];
    var snap := [Param(k, "1")];
    assert RequestPath(l, "cfg") <= k;
    assert Names(snap) == [k];
    assert Classify(local, snap) == [Unchanged(k, "1", Str("1"))] by {
      assert local[1..] == [];
      assert Matching(snap, k) == snap;
      assert Without(snap, k) == [];
    }
    assert Plan([Unchanged(k, "1", Str("1"))]) == [];
  }
}
