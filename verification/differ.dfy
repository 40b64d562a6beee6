/** The comparison side of lib/configruous.rb: `BaseLoader#ssmclient_iterator`, which
    walks the local parameters against a finished snapshot of the remote store and
    yields one state per parameter, and `BaseLoader#diff`, which collects those states
    into a Hash of sections. */
module Differ {
  import opened Results
  import opened Text
  import opened Values
  import opened Assoc
  import opened Flatten

  /** A parameter as the remote store lists it: its full name and its string value. */
  datatype Param = Param(name: string, value: string)

  /** The states ssmclient_iterator hands to its block, with the block's arguments. */
  datatype Event =
    | Changed(key: string, existing: string, proposed: Scalar)
    | Unchanged(key: string, existing: string, proposed: Scalar)
    | Missing(key: string, proposed: Scalar)
    | SsmOnly(key: string, existing: string)

  /** `existing.select { |record| record[:name] == key }`. */
  function Matching(s: seq<Param>, key: string): (r: seq<Param>)
    ensures forall i :: 0 <= i < |r| ==> r[i].name == key
  {
    if |s| == 0 then []
    else (if s[0].name == key then [s[0]] else []) + Matching(s[1..], key)
  }

  /** `existing.delete_if { |record| record[:name] == key }`. */
  function Without(s: seq<Param>, key: string): (r: seq<Param>)
    ensures forall i :: 0 <= i < |r| ==> r[i].name != key
  {
    if |s| == 0 then []
    else (if s[0].name != key then [s[0]] else []) + Without(s[1..], key)
  }

  /** The value of the first snapshot record named `key`. */
  function FirstNamed(s: seq<Param>, key: string): Option<string> {
    if |s| == 0 then None
    else if s[0].name == key then Some(s[0].value)
    else FirstNamed(s[1..], key)
  }

  /** The `:ssm_only` states for whatever is left of the snapshot. */
  function Leftover(s: seq<Param>): seq<Event> {
    seq(|s|, i requires 0 <= i < |s| => SsmOnly(s[i].name, s[i].value))
  }

  /** ssmclient_iterator: one state per local parameter in local order, comparing by
      `to_s` with the first remote record of the same name and removing every record of
      that name; then one `:ssm_only` state per record left over. */
  function Classify(local: seq<(string, Scalar)>, existing: seq<Param>): seq<Event>
    decreases |local|
  {
    if |local| == 0 then Leftover(existing)
    else
      var key := local[0].0;
      var value := local[0].1;
      var found := Matching(existing, key);
      if |found| == 0 then [Missing(key, value)] + Classify(local[1..], existing)
      else
        var ev := if found[0].value != ToS(value) then Changed(key, found[0].value, value)
                  else Unchanged(key, found[0].value, value);
        [ev] + Classify(local[1..], Without(existing, key))
  }

  // ---------------------------------------------------------------------------
  // Reference classification against the whole snapshot

  /** How one local parameter compares with the remote snapshot. */
  function ClassifyOne(key: string, value: Scalar, s: seq<Param>): Event {
    match FirstNamed(s, key)
    case None => Missing(key, value)
    case Some(prev) => if prev == ToS(value) then Unchanged(key, prev, value) else Changed(key, prev, value)
  }

  /** The records whose name is not one of `keys`, as `:ssm_only` states, in snapshot order. */
  function Orphans(s: seq<Param>, keys: seq<string>): seq<Event> {
    if |s| == 0 then []
    else (if s[0].name !in keys then [SsmOnly(s[0].name, s[0].value)] else []) + Orphans(s[1..], keys)
  }

  lemma {:induction false} MatchingFirst(s: seq<Param>, key: string)
    ensures |Matching(s, key)| == 0 <==> FirstNamed(s, key).None?
    ensures |Matching(s, key)| > 0 ==> Matching(s, key)[0].value == FirstNamed(s, key).value
  {
    if |s| > 0 {
      MatchingFirst(s[1..], key);
    }
  }

  lemma {:induction false} FirstNamedWithout(s: seq<Param>, gone: string, key: string)
    requires key != gone
    ensures FirstNamed(Without(s, gone), key) == FirstNamed(s, key)
  {
    if |s| > 0 {
      FirstNamedWithout(s[1..], gone, key);
      var w := Without(s[1..], gone);
      if s[0].name != gone {
        assert Without(s, gone) == [s[0]] + w;
        assert ([s[0]] + w)[1..] == w;
      } else {
        assert Without(s, gone) == w;
      }
    }
  }

  lemma {:induction false} OrphansWithout(s: seq<Param>, gone: string, keys: seq<string>)
    ensures Orphans(Without(s, gone), keys) == Orphans(s, [gone] + keys)
  {
    if |s| > 0 {
      OrphansWithout(s[1..], gone, keys);
      var w := Without(s[1..], gone);
      if s[0].name != gone {
        assert Without(s, gone) == [s[0]] + w;
        assert ([s[0]] + w)[0] == s[0] && ([s[0]] + w)[1..] == w;
        assert (s[0].name !in [gone] + keys) == (s[0].name !in keys);
      } else {
        assert Without(s, gone) == w;
      }
    }
  }

  lemma {:induction false} OrphansAbsent(s: seq<Param>, gone: string, keys: seq<string>)
    requires FirstNamed(s, gone).None?
    ensures Orphans(s, keys) == Orphans(s, [gone] + keys)
  {
    if |s| > 0 {
      OrphansAbsent(s[1..], gone, keys);
    }
  }

  lemma {:induction false} LeftoverIsOrphans(s: seq<Param>)
    ensures Leftover(s) == Orphans(s, [])
  {
    if |s| > 0 {
      LeftoverIsOrphans(s[1..]);
      assert Leftover(s) == [SsmOnly(s[0].name, s[0].value)] + Leftover(s[1..]);
    }
  }

  /** The states of all local parameters, each compared with the whole snapshot. */
  function ClassifyAll(local: seq<(string, Scalar)>, s: seq<Param>): (r: seq<Event>)
    ensures |r| == |local|
    ensures forall i :: 0 <= i < |local| ==> r[i] == ClassifyOne(local[i].0, local[i].1, s)
  {
    seq(|local|, i requires 0 <= i < |local| => ClassifyOne(local[i].0, local[i].1, s))
  }

  /** With the distinct keys to_params guarantees, removing matched records never changes
      a later parameter's state: each local parameter is classified against the whole
      snapshot, and the `:ssm_only` states are exactly the records whose name is no
      local key. */
  lemma {:induction false} ClassifySpec(local: seq<(string, Scalar)>, s: seq<Param>)
    requires UniqueKeys(local)
    ensures Classify(local, s) == ClassifyAll(local, s) + Orphans(s, Keys(local))
    decreases |local|
  {
    if |local| == 0 {
      LeftoverIsOrphans(s);
      assert Keys(local) == [];
    } else {
      var key := local[0].0;
      var rest := local[1..];
      UniqueKeysTail(local);
      MatchingFirst(s, key);
      if |Matching(s, key)| == 0 {
        ClassifySpec(rest, s);
        OrphansAbsent(s, key, Keys(rest));
        ClassifyStep(local, s, s);
      } else {
        var w := Without(s, key);
        ClassifySpec(rest, w);
        OrphansWithout(s, key, Keys(rest));
        ClassifyAllWithout(local, s);
        ClassifyStep(local, s, w);
      }
    }
  }

  lemma {:induction false} UniqueKeysTail(local: seq<(string, Scalar)>)
    requires UniqueKeys(local) && |local| > 0
    ensures UniqueKeys(local[1..])
    ensures Keys(local) == [local[0].0] + Keys(local[1..])
  {
    var rest := local[1..];
    forall i, j | 0 <= i < j < |rest|
      ensures rest[i].0 != rest[j].0
    {
      assert rest[i] == local[i + 1] && rest[j] == local[j + 1];
    }
  }

  /** One step of ClassifySpec: the head's state and the already-established tail. */
  lemma {:induction false} ClassifyStep(local: seq<(string, Scalar)>, s: seq<Param>, w: seq<Param>)
    requires |local| > 0
    requires FirstNamed(s, local[0].0).None? ==> w == s && |Matching(s, local[0].0)| == 0
    requires FirstNamed(s, local[0].0).Some? ==> w == Without(s, local[0].0) && |Matching(s, local[0].0)| > 0
                                                 && Matching(s, local[0].0)[0].value == FirstNamed(s, local[0].0).value
    requires Classify(local[1..], w) == ClassifyAll(local[1..], s) + Orphans(s, Keys(local))
    ensures Classify(local, s) == ClassifyAll(local, s) + Orphans(s, Keys(local))
  {
    var head, rest, orphans := ClassifyOne(local[0].0, local[0].1, s), local[1..], Orphans(s, Keys(local));
    ClassifyHead(local, s, w);
    ClassifyAllCons(local, s);
    ConsAppend(Classify(local, s), head, Classify(rest, w), ClassifyAll(local, s), ClassifyAll(rest, s), orphans);
  }

  lemma {:induction false} ConsAppend<T>(x: seq<T>, h: T, y: seq<T>, z: seq<T>, a: seq<T>, o: seq<T>)
    requires x == [h] + y && y == a + o && z == [h] + a
    ensures x == z + o
  {
    assert [h] + (a + o) == ([h] + a) + o;
  }

  /** Classify's first state is the head's state against the whole snapshot. */
  lemma {:induction false} ClassifyHead(local: seq<(string, Scalar)>, s: seq<Param>, w: seq<Param>)
    requires |local| > 0
    requires FirstNamed(s, local[0].0).None? ==> w == s && |Matching(s, local[0].0)| == 0
    requires FirstNamed(s, local[0].0).Some? ==> w == Without(s, local[0].0) && |Matching(s, local[0].0)| > 0
                                                 && Matching(s, local[0].0)[0].value == FirstNamed(s, local[0].0).value
    ensures Classify(local, s) == [ClassifyOne(local[0].0, local[0].1, s)] + Classify(local[1..], w)
  {
  }

  lemma {:induction false} ClassifyAllCons(local: seq<(string, Scalar)>, s: seq<Param>)
    requires |local| > 0
    ensures ClassifyAll(local, s) == [ClassifyOne(local[0].0, local[0].1, s)] + ClassifyAll(local[1..], s)
  {
    var a, b, rest := ClassifyAll(local, s), [ClassifyOne(local[0].0, local[0].1, s)] + ClassifyAll(local[1..], s), local[1..];
    forall i | 0 <= i < |a|
      ensures a[i] == b[i]
    {
      if i > 0 {
        assert rest[i - 1] == local[i];
      }
    }
  }

  lemma {:induction false} ClassifyAllWithout(local: seq<(string, Scalar)>, s: seq<Param>)
    requires UniqueKeys(local) && |local| > 0
    ensures ClassifyAll(local[1..], Without(s, local[0].0)) == ClassifyAll(local[1..], s)
  {
    var rest := local[1..];
    forall i | 0 <= i < |rest|
      ensures ClassifyOne(rest[i].0, rest[i].1, Without(s, local[0].0)) == ClassifyOne(rest[i].0, rest[i].1, s)
    {
      assert rest[i] == local[i + 1];
      FirstNamedWithout(s, local[0].0, rest[i].0);
    }
  }

  // ---------------------------------------------------------------------------
  // BaseLoader#diff

  /** The four keys of the Hash `diff` returns. */
  datatype Section = UpdateSection | UnchangedSection | AddSection | SsmOnlySection

  /** The Hash `diff` returns: the sections in the order they were first created, and
      each section's own Hash from full name to value(s); `same` is the `:unchanged` section. */
  datatype Diff = Diff(
    sections: seq<Section>,
    update: seq<(string, (string, Scalar))>,
    same: seq<(string, Scalar)>,
    add: seq<(string, Scalar)>,
    ssmOnly: seq<(string, string)>)

  function SectionOf(ev: Event): Section {
    match ev
    case Changed(_, _, _) => UpdateSection
    case Unchanged(_, _, _) => UnchangedSection
    case Missing(_, _) => AddSection
    case SsmOnly(_, _) => SsmOnlySection
  }

  function SectionSize(d: Diff, s: Section): nat {
    match s
    case UpdateSection => |d.update|
    case UnchangedSection => |d.same|
    case AddSection => |d.add|
    case SsmOnlySection => |d.ssmOnly|
  }

  /** The block `diff` passes to ssmclient_iterator: create the section if it is not
      there yet, then store the state's value(s) under the key. */
  function Record(d: Diff, ev: Event): Diff {
    var s := SectionOf(ev);
    var d' := if s in d.sections then d else d.(sections := d.sections + [s]);
    match ev
    case Changed(k, prev, v) => d'.(update := Put(d'.update, k, (prev, v)))
    case Unchanged(k, _, v) => d'.(same := Put(d'.same, k, v))
    case Missing(k, v) => d'.(add := Put(d'.add, k, v))
    case SsmOnly(k, prev) => d'.(ssmOnly := Put(d'.ssmOnly, k, prev))
  }

  /** The Hash built from a stream of states, in order. */
  function DiffOf(events: seq<Event>): Diff
    decreases |events|
  {
    if |events| == 0 then Diff([], [], [], [], [])
    else Record(DiffOf(events[..|events| - 1]), events[|events| - 1])
  }

  /** BaseLoader#diff for a loaded file against a finished remote snapshot. */
  function LoaderDiff(l: Loader, dta: seq<Member>, prefix: string, snapshot: seq<Param>): Result<Diff, LoadError> {
    var entries :- LoadData(l, dta);
    Ok(DiffOf(Classify(ToParams(prefix, entries), snapshot)))
  }

  /** The diff of a loaded file: a load error, or a well-formed diff whose sections are those
      of the classified events. */
  lemma {:induction false} LoaderDiffSections(l: Loader, dta: seq<Member>, prefix: string, snapshot: seq<Param>)
    ensures LoaderDiff(l, dta, prefix, snapshot).Err? <==> LoadData(l, dta).Err?
    ensures LoaderDiff(l, dta, prefix, snapshot).Err? ==> LoaderDiff(l, dta, prefix, snapshot).error == LoadData(l, dta).error
    ensures LoaderDiff(l, dta, prefix, snapshot).Ok? ==>
              var events := Classify(ToParams(prefix, LoadData(l, dta).value), snapshot);
              && WellFormed(LoaderDiff(l, dta, prefix, snapshot).value)
              && forall s :: s in LoaderDiff(l, dta, prefix, snapshot).value.sections <==> s in SectionsOf(events)
  {
    if LoadData(l, dta).Ok? {
      DiffSections(Classify(ToParams(prefix, LoadData(l, dta).value), snapshot));
    }
  }

  /** No section is listed twice, and a section is listed exactly when it is non-empty. */
  predicate WellFormed(d: Diff) {
    && (forall i, j :: 0 <= i < j < |d.sections| ==> d.sections[i] != d.sections[j])
    && (forall s :: s in d.sections <==> SectionSize(d, s) > 0)
  }

  lemma {:induction false} RecordKeepsWellFormed(d: Diff, ev: Event)
    requires WellFormed(d)
    ensures WellFormed(Record(d, ev))
    ensures forall s :: s in Record(d, ev).sections <==> s in d.sections || s == SectionOf(ev)
    ensures Record(d, ev).sections
            == if SectionOf(ev) in d.sections then d.sections else d.sections + [SectionOf(ev)]
  {
    RecordSectionList(d, ev);
    RecordSizes(d, ev);
    AppendNewDistinct(d.sections, SectionOf(ev));
  }

  /** Recording a state lists its section once, at the end when it is new. */
  lemma {:induction false} RecordSectionList(d: Diff, ev: Event)
    ensures var s := SectionOf(ev);
            Record(d, ev).sections == if s in d.sections then d.sections else d.sections + [s]
  {
  }

  /** Recording a state makes its section non-empty and leaves the other sections' sizes. */
  lemma {:induction false} RecordSizes(d: Diff, ev: Event)
    ensures SectionSize(Record(d, ev), SectionOf(ev)) > 0
    ensures forall t :: t != SectionOf(ev) ==> SectionSize(Record(d, ev), t) == SectionSize(d, t)
  {
    var r := Record(d, ev);
    match ev
    case Changed(k, prev, v) =>
      assert r.update == Put(d.update, k, (prev, v)) && r.same == d.same && r.add == d.add && r.ssmOnly == d.ssmOnly;
      PutNonEmpty(d.update, k, (prev, v));
    case Unchanged(k, _, v) =>
      assert r.update == d.update && r.same == Put(d.same, k, v) && r.add == d.add && r.ssmOnly == d.ssmOnly;
      PutNonEmpty(d.same, k, v);
    case Missing(k, v) =>
      assert r.update == d.update && r.same == d.same && r.add == Put(d.add, k, v) && r.ssmOnly == d.ssmOnly;
      PutNonEmpty(d.add, k, v);
    case SsmOnly(k, prev) =>
      assert r.update == d.update && r.same == d.same && r.add == d.add && r.ssmOnly == Put(d.ssmOnly, k, prev);
      PutNonEmpty(d.ssmOnly, k, prev);
  }

  /** Appending a section not yet listed keeps the list free of repeats. */
  lemma {:induction false} AppendNewDistinct(secs: seq<Section>, s: Section)
    requires forall i, j :: 0 <= i < j < |secs| ==> secs[i] != secs[j]
    ensures s !in secs ==> forall i, j :: 0 <= i < j < |secs + [s]| ==> (secs + [s])[i] != (secs + [s])[j]
  {
    if s !in secs {
      var r := secs + [s];
      forall i, j | 0 <= i < j < |r|
        ensures r[i] != r[j]
      {
        assert r[i] == secs[i];
      }
    }
  }

  /** The section of every state, in order. */
  function SectionsOf(events: seq<Event>): (r: seq<Section>)
    ensures |r| == |events|
    ensures forall i :: 0 <= i < |events| ==> r[i] == SectionOf(events[i])
  {
    seq(|events|, i requires 0 <= i < |events| => SectionOf(events[i]))
  }

  /** A section appears in the result exactly when some state belongs to it, and never
      twice; a section that appears is never empty. */
  lemma {:induction false} DiffSections(events: seq<Event>)
    ensures WellFormed(DiffOf(events))
    ensures forall s :: s in DiffOf(events).sections <==> s in SectionsOf(events)
    decreases |events|
  {
    if |events| > 0 {
      var init := events[..|events| - 1];
      var ev := events[|events| - 1];
      DiffSections(init);
      RecordKeepsWellFormed(DiffOf(init), ev);
      assert SectionsOf(events) == SectionsOf(init) + [SectionOf(ev)];
    }
  }
}

module DiffContents {
  import opened Results
  import opened Values
  import opened Assoc
  import opened Differ

  /** The last state of section `sec` about key `k`. */
  function LastIn(events: seq<Event>, sec: Section, k: string): (r: Option<Event>)
    ensures r.Some? ==> SectionOf(r.value) == sec && r.value.key == k
    decreases |events|
  {
    if |events| == 0 then None
    else
      var e := events[|events| - 1];
      if SectionOf(e) == sec && e.key == k then Some(e) else LastIn(events[..|events| - 1], sec, k)
  }

  /** The value of the last snapshot record named `n`. */
  function LastNamed(s: seq<Param>, n: string): Option<string> {
    if |s| == 0 then None
    else if LastNamed(s[1..], n).Some? then LastNamed(s[1..], n)
    else if s[0].name == n then Some(s[0].value)
    else None
  }

  /** Recording a state touches only the section of that state. */
  lemma {:induction false} RecordSections(d: Diff, ev: Event)
    ensures Record(d, ev).add == if ev.Missing? then Put(d.add, ev.key, ev.proposed) else d.add
    ensures Record(d, ev).same == if ev.Unchanged? then Put(d.same, ev.key, ev.proposed) else d.same
    ensures Record(d, ev).update == if ev.Changed? then Put(d.update, ev.key, (ev.existing, ev.proposed)) else d.update
    ensures Record(d, ev).ssmOnly == if ev.SsmOnly? then Put(d.ssmOnly, ev.key, ev.existing) else d.ssmOnly
  {
  }

  /** The `:add` section maps a key to the value of the last Missing state about it. */
  lemma {:induction false} DiffOfAdd(events: seq<Event>, k: string)
    ensures var e := LastIn(events, AddSection, k);
            Get(DiffOf(events).add, k) == if e.Some? then Some(e.value.proposed) else None
    decreases |events|
  {
    if |events| > 0 {
      var init, ev := events[..|events| - 1], events[|events| - 1];
      DiffOfAdd(init, k);
      RecordSections(DiffOf(init), ev);
    }
  }

  /** The `:unchanged` section maps a key to the value of the last Unchanged state about it. */
  lemma {:induction false} DiffOfSame(events: seq<Event>, k: string)
    ensures var e := LastIn(events, UnchangedSection, k);
            Get(DiffOf(events).same, k) == if e.Some? then Some(e.value.proposed) else None
    decreases |events|
  {
    if |events| > 0 {
      var init, ev := events[..|events| - 1], events[|events| - 1];
      DiffOfSame(init, k);
      RecordSections(DiffOf(init), ev);
    }
  }

  /** The `:update` section maps a key to `[remote, new]` of the last Changed state about it. */
  lemma {:induction false} DiffOfUpdate(events: seq<Event>, k: string)
    ensures var e := LastIn(events, UpdateSection, k);
            Get(DiffOf(events).update, k) == if e.Some? then Some((e.value.existing, e.value.proposed)) else None
    decreases |events|
  {
    if |events| > 0 {
      var init, ev := events[..|events| - 1], events[|events| - 1];
      DiffOfUpdate(init, k);
      RecordSections(DiffOf(init), ev);
    }
  }

  /** The `:ssm_only` section maps a name to the remote value of the last SsmOnly state about it. */
  lemma {:induction false} DiffOfSsmOnly(events: seq<Event>, k: string)
    ensures var e := LastIn(events, SsmOnlySection, k);
            Get(DiffOf(events).ssmOnly, k) == if e.Some? then Some(e.value.existing) else None
    decreases |events|
  {
    if |events| > 0 {
      var init, ev := events[..|events| - 1], events[|events| - 1];
      DiffOfSsmOnly(init, k);
      RecordSections(DiffOf(init), ev);
    }
  }

  lemma {:induction false} LastInAppend(a: seq<Event>, b: seq<Event>, sec: Section, k: string)
    ensures LastIn(a + b, sec, k) == if LastIn(b, sec, k).Some? then LastIn(b, sec, k) else LastIn(a, sec, k)
    decreases |b|
  {
    if |b| == 0 {
      assert a + b == a;
    } else {
      assert (a + b)[..|a + b| - 1] == a + b[..|b| - 1];
      LastInAppend(a, b[..|b| - 1], sec, k);
    }
  }

  lemma {:induction false} LastInSingle(e: Event, sec: Section, k: string)
    ensures LastIn([e], sec, k) == if SectionOf(e) == sec && e.key == k then Some(e) else None
  {
    assert [e][..0] == [];
  }

  /** Each local key has exactly one state, the one ClassifyOne gives it. */
  lemma {:induction false} LastInClassifyAll(local: seq<(string, Scalar)>, s: seq<Param>, sec: Section, k: string)
    requires UniqueKeys(local)
    ensures LastIn(ClassifyAll(local, s), sec, k) ==
              match Get(local, k)
              case None => None
              case Some(v) => if SectionOf(ClassifyOne(k, v, s)) == sec then Some(ClassifyOne(k, v, s)) else None
    decreases |local|
  {
    if |local| > 0 {
      var rest := local[1..];
      var e0 := ClassifyOne(local[0].0, local[0].1, s);
      UniqueKeysTail(local);
      assert ClassifyAll(local, s) == [e0] + ClassifyAll(rest, s);
      LastInAppend([e0], ClassifyAll(rest, s), sec, k);
      LastInSingle(e0, sec, k);
      LastInClassifyAll(rest, s, sec, k);
      if local[0].0 == k {
        HeadKeyNotInTail(local);
      }
    }
  }

  lemma {:induction false} HeadKeyNotInTail(local: seq<(string, Scalar)>)
    requires UniqueKeys(local) && |local| > 0
    ensures local[0].0 !in Keys(local[1..])
  {
    var rest := local[1..];
    forall i | 0 <= i < |rest|
      ensures Keys(rest)[i] != local[0].0
    {
      assert rest[i] == local[i + 1];
    }
  }

  /** The `:ssm_only` states name exactly the records outside `keys`. */
  lemma {:induction false} LastInOrphans(s: seq<Param>, keys: seq<string>, sec: Section, n: string)
    ensures LastIn(Orphans(s, keys), sec, n) ==
              if sec == SsmOnlySection && n !in keys && LastNamed(s, n).Some? then Some(SsmOnly(n, LastNamed(s, n).value))
              else None
    decreases |s|
  {
    if |s| > 0 {
      var head := if s[0].name !in keys then [SsmOnly(s[0].name, s[0].value)] else [];
      LastInOrphans(s[1..], keys, sec, n);
      LastInAppend(head, Orphans(s[1..], keys), sec, n);
      if s[0].name !in keys {
        LastInSingle(SsmOnly(s[0].name, s[0].value), sec, n);
      }
    }
  }

  /** The states of a diff: one per local key, then the orphans, so the local
      sections are decided by the local part alone and `:ssm_only` by the orphans. */
  lemma {:induction false} ClassifySplit(local: seq<(string, Scalar)>, s: seq<Param>, sec: Section, k: string)
    requires UniqueKeys(local)
    ensures sec != SsmOnlySection ==> LastIn(Classify(local, s), sec, k) == LastIn(ClassifyAll(local, s), sec, k)
    ensures sec == SsmOnlySection ==> LastIn(Classify(local, s), sec, k) == LastIn(Orphans(s, Keys(local)), sec, k)
  {
    ClassifySpec(local, s);
    var a, o := ClassifyAll(local, s), Orphans(s, Keys(local));
    LastInAppend(a, o, sec, k);
    LastInOrphans(s, Keys(local), sec, k);
    if sec == SsmOnlySection {
      LocalStates(local, s);
      LastInOtherSections(a, sec, k);
    }
  }

  lemma {:induction false} LastInOtherSections(events: seq<Event>, sec: Section, k: string)
    requires forall i :: 0 <= i < |events| ==> SectionOf(events[i]) != sec
    ensures LastIn(events, sec, k).None?
    decreases |events|
  {
    if |events| > 0 {
      LastInOtherSections(events[..|events| - 1], sec, k);
    }
  }

  /** `:add` holds exactly the local keys no remote record is named after, with their values. */
  lemma {:induction false} DiffAdd(local: seq<(string, Scalar)>, s: seq<Param>)
    requires UniqueKeys(local)
    ensures forall k :: Get(DiffOf(Classify(local, s)).add, k) ==
              if Get(local, k).Some? && FirstNamed(s, k).None? then Some(Get(local, k).value) else None
  {
    forall k
      ensures Get(DiffOf(Classify(local, s)).add, k) ==
              if Get(local, k).Some? && FirstNamed(s, k).None? then Some(Get(local, k).value) else None
    {
      DiffOfAdd(Classify(local, s), k);
      ClassifySplit(local, s, AddSection, k);
      LastInClassifyAll(local, s, AddSection, k);
    }
  }

  /** `:unchanged` holds exactly the local keys whose remote value equals their `to_s`. */
  lemma {:induction false} DiffSame(local: seq<(string, Scalar)>, s: seq<Param>)
    requires UniqueKeys(local)
    ensures forall k :: Get(DiffOf(Classify(local, s)).same, k) ==
              if Get(local, k).Some? && FirstNamed(s, k) == Some(ToS(Get(local, k).value))
              then Some(Get(local, k).value) else None
  {
    forall k
      ensures Get(DiffOf(Classify(local, s)).same, k) ==
              if Get(local, k).Some? && FirstNamed(s, k) == Some(ToS(Get(local, k).value))
              then Some(Get(local, k).value) else None
    {
      DiffOfSame(Classify(local, s), k);
      ClassifySplit(local, s, UnchangedSection, k);
      LastInClassifyAll(local, s, UnchangedSection, k);
      match Get(local, k)
      case None =>
      case Some(v) =>
        match FirstNamed(s, k)
        case None =>
        case Some(prev) =>
          if prev == ToS(v) {
            assert ClassifyOne(k, v, s) == Unchanged(k, prev, v);
          } else {
            assert SectionOf(ClassifyOne(k, v, s)) == UpdateSection;
          }
    }
  }

  /** `:update` holds exactly the local keys whose remote value differs, as `[remote, new]`. */
  lemma {:induction false} DiffUpdate(local: seq<(string, Scalar)>, s: seq<Param>)
    requires UniqueKeys(local)
    ensures forall k :: Get(DiffOf(Classify(local, s)).update, k) ==
              if Get(local, k).Some? && FirstNamed(s, k).Some? && FirstNamed(s, k).value != ToS(Get(local, k).value)
              then Some((FirstNamed(s, k).value, Get(local, k).value)) else None
  {
    forall k
      ensures Get(DiffOf(Classify(local, s)).update, k) ==
              if Get(local, k).Some? && FirstNamed(s, k).Some? && FirstNamed(s, k).value != ToS(Get(local, k).value)
              then Some((FirstNamed(s, k).value, Get(local, k).value)) else None
    {
      DiffOfUpdate(Classify(local, s), k);
      ClassifySplit(local, s, UpdateSection, k);
      LastInClassifyAll(local, s, UpdateSection, k);
      match Get(local, k)
      case None =>
      case Some(v) =>
        match FirstNamed(s, k)
        case None =>
        case Some(prev) =>
          if prev != ToS(v) {
            assert ClassifyOne(k, v, s) == Changed(k, prev, v);
          } else {
            assert SectionOf(ClassifyOne(k, v, s)) == UnchangedSection;
          }
    }
  }

  /** `:ssm_only` holds exactly the remote names that are not local keys, each with the
      last value listed for it. */
  lemma {:induction false} DiffSsmOnly(local: seq<(string, Scalar)>, s: seq<Param>)
    requires UniqueKeys(local)
    ensures forall n :: Get(DiffOf(Classify(local, s)).ssmOnly, n) == if n in Keys(local) then None else LastNamed(s, n)
  {
    forall n
      ensures Get(DiffOf(Classify(local, s)).ssmOnly, n) == if n in Keys(local) then None else LastNamed(s, n)
    {
      DiffOfSsmOnly(Classify(local, s), n);
      ClassifySplit(local, s, SsmOnlySection, n);
      LastInOrphans(s, Keys(local), SsmOnlySection, n);
    }
  }

  /** How many states of `events` fall in section `sec`. */
  function Count(events: seq<Event>, sec: Section): nat
    decreases |events|
  {
    if |events| == 0 then 0
    else Count(events[..|events| - 1], sec) + (if SectionOf(events[|events| - 1]) == sec then 1 else 0)
  }

  lemma {:induction false} CountSum(events: seq<Event>)
    ensures Count(events, AddSection) + Count(events, UpdateSection) + Count(events, UnchangedSection)
            + Count(events, SsmOnlySection) == |events|
    decreases |events|
  {
    if |events| > 0 {
      CountSum(events[..|events| - 1]);
    }
  }

  lemma {:induction false} CountNone(events: seq<Event>, sec: Section)
    requires forall i :: 0 <= i < |events| ==> SectionOf(events[i]) != sec
    ensures Count(events, sec) == 0
    decreases |events|
  {
    if |events| > 0 {
      CountNone(events[..|events| - 1], sec);
    }
  }

  lemma {:induction false} LastInAbsent(events: seq<Event>, sec: Section, k: string)
    requires forall i :: 0 <= i < |events| ==> events[i].key != k
    ensures LastIn(events, sec, k).None?
    decreases |events|
  {
    if |events| > 0 {
      LastInAbsent(events[..|events| - 1], sec, k);
    }
  }

  lemma {:induction false} GrowsByOne<V>(m: seq<(string, V)>, k: string, v: V)
    requires Get(m, k).None?
    ensures |Put(m, k, v)| == |m| + 1
  {
    PutKeys(m, k, v);
    assert |Keys(Put(m, k, v))| == |Keys(m) + [k]|;
  }

  /** When no key occurs in two states, every state opens a fresh entry in its section. */
  lemma {:induction false} DiffOfSizes(events: seq<Event>)
    requires forall i, j :: 0 <= i < j < |events| ==> events[i].key != events[j].key
    ensures forall sec :: SectionSize(DiffOf(events), sec) == Count(events, sec)
    decreases |events|
  {
    if |events| > 0 {
      var init, ev := events[..|events| - 1], events[|events| - 1];
      DiffOfSizes(init);
      var d := DiffOf(init);
      RecordSections(d, ev);
      LastInAbsent(init, SectionOf(ev), ev.key);
      match ev
      case Missing(k, v) =>
        DiffOfAdd(init, k);
        GrowsByOne(d.add, k, v);
      case Unchanged(k, _, v) =>
        DiffOfSame(init, k);
        GrowsByOne(d.same, k, v);
      case Changed(k, prev, v) =>
        DiffOfUpdate(init, k);
        GrowsByOne(d.update, k, (prev, v));
      case SsmOnly(k, prev) =>
        DiffOfSsmOnly(init, k);
        GrowsByOne(d.ssmOnly, k, prev);
    }
  }

  lemma {:induction false} OrphansAreSsmOnly(s: seq<Param>, keys: seq<string>)
    ensures forall i :: 0 <= i < |Orphans(s, keys)| ==> Orphans(s, keys)[i].SsmOnly?
    decreases |s|
  {
    if |s| > 0 {
      OrphansAreSsmOnly(s[1..], keys);
    }
  }

  /** Appending `:ssm_only` states leaves the local sections alone. */
  lemma {:induction false} DiffOfAppendOrphans(a: seq<Event>, b: seq<Event>)
    requires forall i :: 0 <= i < |b| ==> b[i].SsmOnly?
    ensures DiffOf(a + b).add == DiffOf(a).add
    ensures DiffOf(a + b).update == DiffOf(a).update
    ensures DiffOf(a + b).same == DiffOf(a).same
    decreases |b|
  {
    if |b| == 0 {
      assert a + b == a;
    } else {
      assert (a + b)[..|a + b| - 1] == a + b[..|b| - 1];
      DiffOfAppendOrphans(a, b[..|b| - 1]);
      RecordSections(DiffOf(a + b[..|b| - 1]), b[|b| - 1]);
    }
  }

  /** Every local parameter lands in exactly one of `:add`, `:update` and `:unchanged`. */
  lemma {:induction false} DiffCounts(local: seq<(string, Scalar)>, s: seq<Param>)
    requires UniqueKeys(local)
    ensures var d := DiffOf(Classify(local, s));
            |d.add| + |d.update| + |d.same| == |local|
  {
    ClassifySpec(local, s);
    var a := ClassifyAll(local, s);
    OrphansAreSsmOnly(s, Keys(local));
    DiffOfAppendOrphans(a, Orphans(s, Keys(local)));
    LocalStates(local, s);
    DiffOfSizes(a);
    CountSum(a);
    CountNone(a, SsmOnlySection);
    var d := DiffOf(a);
    assert |d.add| == SectionSize(d, AddSection) == Count(a, AddSection);
    assert |d.update| == SectionSize(d, UpdateSection) == Count(a, UpdateSection);
    assert |d.same| == SectionSize(d, UnchangedSection) == Count(a, UnchangedSection);
  }

  /** The local states name distinct keys and none of them is `:ssm_only`. */
  lemma {:induction false} LocalStates(local: seq<(string, Scalar)>, s: seq<Param>)
    requires UniqueKeys(local)
    ensures var a := ClassifyAll(local, s);
            && (forall i, j :: 0 <= i < j < |a| ==> a[i].key != a[j].key)
            && (forall i :: 0 <= i < |a| ==> SectionOf(a[i]) != SsmOnlySection)
  {
    var a := ClassifyAll(local, s);
    forall i | 0 <= i < |a|
      ensures a[i].key == local[i].0 && !a[i].SsmOnly?
    {
      assert a[i] == ClassifyOne(local[i].0, local[i].1, s);
    }
  }
}
