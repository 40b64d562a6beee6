/** A parsed file's trip through the parameter store: `load_data` and `to_params` on
    the way in, `RestoreFileFromSSM#to_yaml` on the way back. Every value comes back as
    its string, and the tree comes back whole when it has the shape the restorer can
    rebuild: non-empty Hashes and Arrays, keys that do not look like list positions,
    and Arrays that hold scalars only. */
module RoundTrip {
  import opened Results
  import opened Text
  import opened Values
  import opened Flatten
  import opened Differ
  import opened Restore

  // ---------------------------------------------------------------------------
  // Trees that survive the trip

  /** A Hash key that comes back as the same key: valid, without "/", and not read as
      a list position. */
  predicate GoodKey(k: string) {
    ValidKey(k) && '/' !in k && !IsIndexSegment(k)
  }

  predicate GoodValue(v: Value)
    decreases v
  {
    match v
    case Nil => false
    case Leaf(_) => true
    case Map(ms) => |ms| > 0 && GoodMembers(ms)
    case List(xs) => |xs| > 0 && forall i :: 0 <= i < |xs| ==> xs[i].Leaf?
  }

  /** Members with good, distinct keys and good values; a whole file may be empty. */
  predicate GoodMembers(ms: seq<Member>)
    decreases ms
  {
    DistinctKeys(ms) && forall i :: 0 <= i < |ms| ==> GoodKey(ms[i].key) && GoodValue(ms[i].val)
  }

  /** The members after the first of good members are good, and none repeats its key. */
  lemma {:induction false} GoodTail(ms: seq<Member>)
    requires |ms| > 0 && GoodMembers(ms)
    ensures GoodKey(ms[0].key) && GoodValue(ms[0].val)
    ensures ms[0].key !in MemberKeys(ms[1..]) && GoodMembers(ms[1..])
  {
    var tail := ms[1..];
    assert forall i :: 0 <= i < |tail| ==> tail[i] == ms[i + 1];
  }

  /** The tree with every scalar replaced by its string, as the store keeps it. */
  function Stringify(v: Value): Value
    decreases v
  {
    match v
    case Nil => Nil
    case Leaf(x) => Leaf(Str(ToS(x)))
    case Map(ms) => Map(StringifyMembers(ms))
    case List(xs) => List(StringifyItems(xs))
  }

  function StringifyMembers(ms: seq<Member>): (r: seq<Member>)
    ensures MemberKeys(r) == MemberKeys(ms)
    decreases ms
  {
    if |ms| == 0 then []
    else
      var m := Member(ms[0].key, Stringify(ms[0].val));
      var rest := StringifyMembers(ms[1..]);
      MemberKeysCons(m, rest);
      MemberKeysCons(ms[0], ms[1..]);
      assert ms == [ms[0]] + ms[1..];
      [m] + rest
  }

  function StringifyItems(xs: seq<Value>): (r: seq<Value>)
    ensures |r| == |xs|
    decreases xs
  {
    if |xs| == 0 then [] else [Stringify(xs[0])] + StringifyItems(xs[1..])
  }

  // ---------------------------------------------------------------------------
  // to_yaml as a fold over fragments

  /** The fragment to_yaml folds out of each leaf, read back as a string. */
  function Fragments(leaves: seq<(seq<string>, Scalar)>): (fs: seq<Value>)
    ensures |fs| == |leaves|
    ensures forall i :: 0 <= i < |fs| ==> fs[i] == Fold(leaves[i].0, ToS(leaves[i].1))
  {
    seq(|leaves|, i requires 0 <= i < |leaves| => Fold(leaves[i].0, ToS(leaves[i].1)))
  }

  /** Deep-merges the fragments into `a`, one after another. */
  function MergeAll(a: Value, fs: seq<Value>): Result<Value, RestoreError>
    decreases |fs|
  {
    if |fs| == 0 then Ok(a)
    else
      var b :- DeepMerge(a, fs[0]);
      MergeAll(b, fs[1..])
  }

  lemma {:induction false} MergeAllAppend(a: Value, f1: seq<Value>, f2: seq<Value>)
    ensures var m := MergeAll(a, f1);
            MergeAll(a, f1 + f2) == if m.Ok? then MergeAll(m.value, f2) else Err(m.error)
    decreases |f1|
  {
    if |f1| > 0 {
      assert (f1 + f2)[0] == f1[0] && (f1 + f2)[1..] == f1[1..] + f2;
      match DeepMerge(a, f1[0])
      case Ok(b) => MergeAllAppend(b, f1[1..], f2);
      case Err(_) =>
    } else {
      assert f1 + f2 == f2;
    }
  }

  lemma {:induction false} FragmentsAppend(a: seq<(seq<string>, Scalar)>, b: seq<(seq<string>, Scalar)>)
    ensures Fragments(a + b) == Fragments(a) + Fragments(b)
  {
  }

  /** Each fragment put under the key `k`. */
  function Wrapped(k: string, fs: seq<Value>): (ws: seq<Value>)
    ensures |ws| == |fs|
    ensures forall i :: 0 <= i < |ws| ==> ws[i] == Map([Member(k, fs[i])])
  {
    seq(|fs|, i requires 0 <= i < |fs| => Map([Member(k, fs[i])]))
  }

  lemma {:induction false} FragmentsUnder(k: string, leaves: seq<(seq<string>, Scalar)>)
    requires !IsIndexSegment(k)
    ensures Fragments(Under(k, leaves)) == Wrapped(k, Fragments(leaves))
  {
    forall i | 0 <= i < |leaves|
      ensures Fold([k] + leaves[i].0, ToS(leaves[i].1)) == Map([Member(k, Fold(leaves[i].0, ToS(leaves[i].1)))])
    {
      assert ([k] + leaves[i].0)[1..] == leaves[i].0;
    }
  }

  lemma {:induction false} SetLastMember(acc: seq<Member>, k: string, cur: Value, v: Value)
    requires k !in MemberKeys(acc)
    ensures SetMember(acc + [Member(k, cur)], k, v) == acc + [Member(k, v)]
    decreases |acc|
  {
    if |acc| > 0 {
      var tail := acc[1..];
      assert acc == [acc[0]] + tail;
      MemberKeysCons(acc[0], tail);
      assert (acc + [Member(k, cur)])[1..] == tail + [Member(k, cur)];
      SetMemberSkip(acc + [Member(k, cur)], k, v);
      SetLastMember(tail, k, cur, v);
      assert [acc[0]] + (tail + [Member(k, v)]) == acc + [Member(k, v)];
    }
  }

  lemma {:induction false} SetMemberSkip(ms: seq<Member>, k: string, v: Value)
    requires |ms| > 0 && ms[0].key != k
    ensures SetMember(ms, k, v) == [ms[0]] + SetMember(ms[1..], k, v)
  {
  }

  /** deep_merge of a Hash with a one-member Hash. */
  lemma {:induction false} MergeOne(acc: seq<Member>, m: Member)
    ensures Lookup(acc, m.key).None? ==> DeepMerge(Map(acc), Map([m])) == Ok(Map(acc + [m]))
    ensures Lookup(acc, m.key).Some? ==>
              var d := DeepMerge(Lookup(acc, m.key).value, m.val);
              DeepMerge(Map(acc), Map([m])) == if d.Ok? then Ok(Map(SetMember(acc, m.key, d.value))) else Err(d.error)
  {
    var ys := [m];
    assert ys[0] == m && ys[1..] == [];
    if Lookup(acc, m.key).None? {
      assert MergeInto(acc, ys) == MergeInto(acc + [m], []) == Ok(acc + [m]);
    } else {
      var d := DeepMerge(Lookup(acc, m.key).value, m.val);
      if d.Ok? {
        assert MergeInto(acc, ys) == MergeInto(SetMember(acc, m.key, d.value), []);
      } else {
        assert MergeInto(acc, ys) == Err(d.error);
      }
    }
  }

  /** Merging a run of fragments under a key already last in the Hash merges them into
      that key's value. */
  lemma {:induction false} MergeUnderKey(acc: seq<Member>, k: string, cur: Value, fs: seq<Value>)
    requires k !in MemberKeys(acc)
    ensures var w := MergeAll(cur, fs);
            MergeAll(Map(acc + [Member(k, cur)]), Wrapped(k, fs)) ==
              if w.Ok? then Ok(Map(acc + [Member(k, w.value)])) else Err(w.error)
    decreases |fs|
  {
    if |fs| > 0 {
      var ms := acc + [Member(k, cur)];
      LookupAppend(acc, Member(k, cur), k);
      assert Lookup(ms, k) == Some(cur);
      MergeOne(ms, Member(k, fs[0]));
      assert Wrapped(k, fs)[1..] == Wrapped(k, fs[1..]);
      match DeepMerge(cur, fs[0])
      case Ok(m) =>
        SetLastMember(acc, k, cur, m);
        MergeUnderKey(acc, k, m, fs[1..]);
      case Err(e) =>
    }
  }

  /** Merging the fragments of one new key into a Hash appends that key, holding the
      merge of its fragments. */
  lemma {:induction false} MergeUnderNewKey(acc: seq<Member>, k: string, fs: seq<Value>)
    requires k !in MemberKeys(acc) && |fs| > 0
    ensures var w := MergeAll(fs[0], fs[1..]);
            MergeAll(Map(acc), Wrapped(k, fs)) ==
              if w.Ok? then Ok(Map(acc + [Member(k, w.value)])) else Err(w.error)
  {
    MergeOne(acc, Member(k, fs[0]));
    assert Wrapped(k, fs)[1..] == Wrapped(k, fs[1..]);
    MergeUnderKey(acc, k, fs[0], fs[1..]);
  }

  // ---------------------------------------------------------------------------
  // Rebuilding a good tree from its fragments

  /** The leaves of an Array of scalars: element `i` at the path "i". */
  lemma {:induction false} ItemLeavesOfScalars(xs: seq<Value>, i: nat)
    requires i <= |xs|
    requires forall j :: 0 <= j < |xs| ==> xs[j].Leaf?
    ensures |ItemLeaves(xs, i)| == |xs| - i
    ensures forall m :: 0 <= m < |xs| - i ==> ItemLeaves(xs, i)[m] == ([NatToString(i + m)], xs[i + m].x)
    decreases |xs| - i
  {
    if i < |xs| {
      ItemLeavesOfScalars(xs, i + 1);
      ItemLeafCons(xs, i);
      var rest := ItemLeaves(xs, i + 1);
      forall m | 1 <= m < |xs| - i
        ensures ItemLeaves(xs, i)[m] == ([NatToString(i + m)], xs[i + m].x)
      {
        assert ItemLeaves(xs, i)[m] == rest[m - 1];
      }
    }
  }

  /** An element of an Array of scalars contributes one leaf, at its position. */
  lemma {:induction false} ItemLeafCons(xs: seq<Value>, i: nat)
    requires i < |xs| && xs[i].Leaf?
    ensures ItemLeaves(xs, i) == [([NatToString(i)], xs[i].x)] + ItemLeaves(xs, i + 1)
  {
    assert Leaves(xs[i]) == [([], xs[i].x)];
    assert [NatToString(i)] + [] == [NatToString(i)];
  }

  /** The fragment of a value at a list position is a one-element Array. */
  lemma {:induction false} IndexFold(i: nat, v: string)
    ensures Fold([NatToString(i)], v) == List([Leaf(Str(v))])
  {
    IndexSegmentOfNat(i);
    assert [NatToString(i)][1..] == [];
  }

  /** The fragments of an Array of scalars append its elements, as strings, in order. */
  lemma {:induction false} ItemsRebuild(xs: seq<Value>, i: nat, acc: seq<Value>)
    requires i <= |xs|
    requires forall j :: 0 <= j < |xs| ==> xs[j].Leaf?
    ensures MergeAll(List(acc), Fragments(ItemLeaves(xs, i))) == Ok(List(acc + StringifyItems(xs[i..])))
    decreases |xs| - i
  {
    if i == |xs| {
      assert acc + StringifyItems(xs[i..]) == acc;
    } else {
      var leaf := Leaf(Str(ToS(xs[i].x)));
      var rest := Fragments(ItemLeaves(xs, i + 1));
      ItemFragmentsCons(xs, i);
      MergeAllAppendItem(acc, leaf, rest);
      ItemsRebuild(xs, i + 1, acc + [leaf]);
      StringifyItemsFrom(xs, i);
      assert acc + [leaf] + StringifyItems(xs[i + 1..]) == acc + ([leaf] + StringifyItems(xs[i + 1..]));
    }
  }

  /** The fragment of an element of an Array of scalars is the one-element Array of its string. */
  lemma {:induction false} ItemFragmentsCons(xs: seq<Value>, i: nat)
    requires i < |xs| && xs[i].Leaf?
    ensures Fragments(ItemLeaves(xs, i)) == [List([Leaf(Str(ToS(xs[i].x)))])] + Fragments(ItemLeaves(xs, i + 1))
  {
    ItemLeafCons(xs, i);
    FragmentsAppend([([NatToString(i)], xs[i].x)], ItemLeaves(xs, i + 1));
    IndexFold(i, ToS(xs[i].x));
  }

  /** Merging a one-element Array into an Array appends the element. */
  lemma {:induction false} MergeAllAppendItem(acc: seq<Value>, x: Value, rest: seq<Value>)
    ensures MergeAll(List(acc), [List([x])] + rest) == MergeAll(List(acc + [x]), rest)
  {
    assert ([List([x])] + rest)[0] == List([x]) && ([List([x])] + rest)[1..] == rest;
  }

  lemma {:induction false} StringifyItemsFrom(xs: seq<Value>, i: nat)
    requires i < |xs|
    ensures StringifyItems(xs[i..]) == [Stringify(xs[i])] + StringifyItems(xs[i + 1..])
  {
    assert xs[i..][1..] == xs[i + 1..];
  }

  /** A good value is rebuilt from its own fragments, with every scalar as its string. */
  lemma {:induction false} ValueRebuild(v: Value)
    requires GoodValue(v)
    ensures |Leaves(v)| > 0
    ensures MergeAll(Fragments(Leaves(v))[0], Fragments(Leaves(v))[1..]) == Ok(Stringify(v))
    decreases v, 0
  {
    match v
    case Leaf(x) =>
      assert Leaves(v) == [([], x)];
    case List(xs) =>
      ItemLeavesOfScalars(xs, 0);
      ItemsRebuild(xs, 0, []);
      var fs := Fragments(Leaves(v));
      IndexSegmentOfNat(0);
      assert [NatToString(0)][1..] == [];
      var first := List([Leaf(Str(ToS(xs[0].x)))]);
      assert fs[0] == Fold([NatToString(0)], ToS(xs[0].x)) == first;
      assert [] + first.items == first.items;
      assert DeepMerge(List([]), first) == Ok(first);
      assert fs == [fs[0]] + fs[1..];
      assert xs[0..] == xs && [] + StringifyItems(xs) == StringifyItems(xs);
    case Map(ms) =>
      GoodTail(ms);
      ValueRebuild(ms[0].val);
      var head := Under(ms[0].key, Leaves(ms[0].val));
      assert MemberLeaves(ms) == head + MemberLeaves(ms[1..]);
      MembersRebuild([], ms);
      var fs := Fragments(Leaves(v));
      FragmentsUnder(ms[0].key, Leaves(ms[0].val));
      assert fs[0] == Fragments(head)[0] == Map([Member(ms[0].key, Fragments(Leaves(ms[0].val))[0])]);
      var m := Member(ms[0].key, Fragments(Leaves(ms[0].val))[0]);
      MergeOne([], m);
      assert [] + [m] == [m];
      assert DeepMerge(Map([]), fs[0]) == Ok(fs[0]);
      assert MergeAll(Map([]), fs) == MergeAll(fs[0], fs[1..]);
      assert [] + StringifyMembers(ms) == StringifyMembers(ms);
  }

  /** The fragments of one good member, merged into a Hash without its key, append it. */
  lemma {:induction false} HeadRebuild(acc: seq<Member>, k: string, v: Value)
    requires !IsIndexSegment(k) && GoodValue(v) && k !in MemberKeys(acc)
    ensures MergeAll(Map(acc), Fragments(Under(k, Leaves(v)))) == Ok(Map(acc + [Member(k, Stringify(v))]))
    decreases v, 1
  {
    FragmentsUnder(k, Leaves(v));
    ValueRebuild(v);
    MergeUnderNewKey(acc, k, Fragments(Leaves(v)));
  }

  lemma {:induction false} KeysAfterHead(acc: seq<Member>, k: string, w: Value, rest: seq<Member>)
    requires k !in MemberKeys(rest)
    requires forall i :: 0 <= i < |rest| ==> rest[i].key !in MemberKeys(acc)
    ensures forall i :: 0 <= i < |rest| ==> rest[i].key !in MemberKeys(acc + [Member(k, w)])
  {
    assert MemberKeys(acc + [Member(k, w)]) == MemberKeys(acc) + [k];
    forall i | 0 <= i < |rest|
      ensures rest[i].key !in MemberKeys(acc + [Member(k, w)])
    {
      assert rest[i].key in MemberKeys(rest);
    }
  }

  /** One member's step: its fragments append it, and the rest starts from there. */
  lemma {:induction false} MembersStep(acc: seq<Member>, k: string, v: Value, rest: seq<Member>)
    requires !IsIndexSegment(k) && GoodValue(v) && k !in MemberKeys(acc)
    ensures MergeAll(Map(acc), Fragments(MemberLeaves([Member(k, v)] + rest)))
            == MergeAll(Map(acc + [Member(k, Stringify(v))]), Fragments(MemberLeaves(rest)))
    decreases v, 2
  {
    var ms := [Member(k, v)] + rest;
    var head := Under(k, Leaves(v));
    assert ms[0] == Member(k, v) && ms[1..] == rest;
    assert MemberLeaves(ms) == head + MemberLeaves(rest);
    FragmentsAppend(head, MemberLeaves(rest));
    MergeAllAppend(Map(acc), Fragments(head), Fragments(MemberLeaves(rest)));
    HeadRebuild(acc, k, v);
  }

  /** The fragments of good members, merged into a Hash holding none of their keys,
      append the members, with every scalar as its string. */
  lemma {:induction false} MembersRebuild(acc: seq<Member>, ms: seq<Member>)
    requires GoodMembers(ms)
    requires forall i :: 0 <= i < |ms| ==> ms[i].key !in MemberKeys(acc)
    ensures MergeAll(Map(acc), Fragments(MemberLeaves(ms))) == Ok(Map(acc + StringifyMembers(ms)))
    decreases ms, 4
  {
    if |ms| == 0 {
      assert acc + StringifyMembers(ms) == acc;
    } else {
      GoodTail(ms);
      var rest := ms[1..];
      assert forall i :: 0 <= i < |rest| ==> rest[i] == ms[i + 1];
      assert ms == [Member(ms[0].key, ms[0].val)] + rest;
      MembersCons(acc, ms[0].key, ms[0].val, rest);
    }
  }

  lemma {:induction false} MembersCons(acc: seq<Member>, k: string, v: Value, rest: seq<Member>)
    requires GoodKey(k) && GoodValue(v) && k !in MemberKeys(rest) && GoodMembers(rest)
    requires k !in MemberKeys(acc)
    requires forall i :: 0 <= i < |rest| ==> rest[i].key !in MemberKeys(acc)
    ensures MergeAll(Map(acc), Fragments(MemberLeaves([Member(k, v)] + rest)))
            == Ok(Map(acc + StringifyMembers([Member(k, v)] + rest)))
    decreases [Member(k, v)] + rest, 3
  {
    var ms := [Member(k, v)] + rest;
    var w := Stringify(v);
    var acc' := acc + [Member(k, w)];
    assert ms[0] == Member(k, v);
    MembersStep(acc, k, v, rest);
    KeysAfterHead(acc, k, w, rest);
    MembersRebuild(acc', rest);
    StringifyMembersCons(acc, k, v, rest);
  }

  lemma {:induction false} StringifyMembersCons(acc: seq<Member>, k: string, v: Value, rest: seq<Member>)
    ensures acc + [Member(k, Stringify(v))] + StringifyMembers(rest) == acc + StringifyMembers([Member(k, v)] + rest)
  {
    var ms := [Member(k, v)] + rest;
    assert ms[0] == Member(k, v) && ms[1..] == rest;
    assert StringifyMembers(ms) == [Member(k, Stringify(v))] + StringifyMembers(rest);
  }

  // ---------------------------------------------------------------------------
  // The paths of a good tree

  /** A segment of a stored key: non-empty key characters other than "/". */
  predicate GoodSegment(seg: string) {
    |seg| > 0 && '/' !in seg && AllKeyChars(seg)
  }

  predicate GoodPath(p: seq<string>) {
    forall i :: 0 <= i < |p| ==> GoodSegment(p[i])
  }

  predicate PathsGood(leaves: seq<(seq<string>, Scalar)>) {
    forall i :: 0 <= i < |leaves| ==> GoodPath(leaves[i].0)
  }

  predicate PathsDistinct(leaves: seq<(seq<string>, Scalar)>) {
    forall i, j :: 0 <= i < j < |leaves| ==> leaves[i].0 != leaves[j].0
  }

  lemma {:induction false} DigitsAreSegment(n: nat)
    ensures GoodSegment(NatToString(n))
  {
    var s := NatToString(n);
    assert forall i :: 0 <= i < |s| ==> IsDigit(s[i]) && KeyChar(s[i]) && s[i] != '/';
  }

  lemma {:induction false} KeyIsSegment(k: string)
    requires GoodKey(k)
    ensures GoodSegment(k)
  {
  }

  lemma {:induction false} ItemPaths(xs: seq<Value>)
    requires forall j :: 0 <= j < |xs| ==> xs[j].Leaf?
    ensures PathsGood(ItemLeaves(xs, 0)) && PathsDistinct(ItemLeaves(xs, 0))
  {
    var leaves := ItemLeaves(xs, 0);
    ItemLeavesOfScalars(xs, 0);
    forall m | 0 <= m < |leaves|
      ensures leaves[m].0 == [NatToString(m)]
    {
      assert leaves[m] == ([NatToString(0 + m)], xs[0 + m].x);
    }
    IndexPaths(leaves);
  }

  /** Paths that are the positions 0, 1, 2, ... are good and distinct. */
  lemma {:induction false} IndexPaths(leaves: seq<(seq<string>, Scalar)>)
    requires forall m :: 0 <= m < |leaves| ==> leaves[m].0 == [NatToString(m)]
    ensures PathsGood(leaves) && PathsDistinct(leaves)
  {
    forall i | 0 <= i < |leaves|
      ensures GoodPath(leaves[i].0)
    {
      DigitsAreSegment(i);
    }
    forall i, j | 0 <= i < j < |leaves|
      ensures leaves[i].0 != leaves[j].0
    {
      NatToStringInjective(i, j);
      assert leaves[i].0[0] == NatToString(i) && leaves[j].0[0] == NatToString(j);
    }
  }

  /** Putting a key in front keeps paths good and distinct. */
  lemma {:induction false} UnderPaths(k: string, leaves: seq<(seq<string>, Scalar)>)
    requires GoodSegment(k) && PathsGood(leaves) && PathsDistinct(leaves)
    ensures PathsGood(Under(k, leaves)) && PathsDistinct(Under(k, leaves))
    ensures forall i :: 0 <= i < |leaves| ==> |Under(k, leaves)[i].0| > 0 && Under(k, leaves)[i].0[0] == k
  {
    var u := Under(k, leaves);
    forall i, j | 0 <= i < j < |u|
      ensures u[i].0 != u[j].0
    {
      assert u[i].0[1..] == leaves[i].0 && u[j].0[1..] == leaves[j].0;
    }
  }

  /** Every leaf path of a good value is made of good segments, and no two coincide. */
  lemma {:induction false} ValuePaths(v: Value)
    requires GoodValue(v)
    ensures PathsGood(Leaves(v)) && PathsDistinct(Leaves(v))
    decreases v, 0
  {
    match v
    case Leaf(x) =>
    case List(xs) => ItemPaths(xs);
    case Map(ms) => MemberPaths(ms);
  }

  /** The leaf paths of good members are good, distinct, and start with a member key. */
  lemma {:induction false} MemberPaths(ms: seq<Member>)
    requires GoodMembers(ms)
    ensures PathsGood(MemberLeaves(ms)) && PathsDistinct(MemberLeaves(ms))
    ensures forall i :: 0 <= i < |MemberLeaves(ms)| ==>
              |MemberLeaves(ms)[i].0| > 0 && MemberLeaves(ms)[i].0[0] in MemberKeys(ms)
    decreases ms, 2
  {
    if |ms| > 0 {
      GoodTail(ms);
      assert ms == [Member(ms[0].key, ms[0].val)] + ms[1..];
      MemberPathsStep(ms[0].key, ms[0].val, ms[1..]);
    }
  }

  /** Joining the paths below one key to paths that start with other keys keeps them
      good and distinct. */
  lemma {:induction false} PathsAppend(k: string, keys: seq<string>, head: seq<(seq<string>, Scalar)>, tail: seq<(seq<string>, Scalar)>)
    requires k !in keys
    requires PathsGood(head) && PathsDistinct(head) && PathsGood(tail) && PathsDistinct(tail)
    requires forall i :: 0 <= i < |head| ==> |head[i].0| > 0 && head[i].0[0] == k
    requires forall i :: 0 <= i < |tail| ==> |tail[i].0| > 0 && tail[i].0[0] in keys
    ensures PathsGood(head + tail) && PathsDistinct(head + tail)
    ensures forall i :: 0 <= i < |head + tail| ==> |(head + tail)[i].0| > 0 && (head + tail)[i].0[0] in [k] + keys
  {
    var all := head + tail;
    forall i, j | 0 <= i < j < |all|
      ensures all[i].0 != all[j].0
    {
      if j >= |head| && i < |head| {
        assert all[j] == tail[j - |head|];
      } else if i >= |head| {
        assert all[i] == tail[i - |head|] && all[j] == tail[j - |head|];
      }
    }
    forall i | 0 <= i < |all|
      ensures GoodPath(all[i].0) && |all[i].0| > 0 && all[i].0[0] in [k] + keys
    {
      if i >= |head| {
        assert all[i] == tail[i - |head|];
      }
    }
  }

  lemma {:induction false} MemberPathsStep(k: string, v: Value, rest: seq<Member>)
    requires GoodKey(k) && GoodValue(v) && k !in MemberKeys(rest) && GoodMembers(rest)
    ensures var all := MemberLeaves([Member(k, v)] + rest);
            && PathsGood(all) && PathsDistinct(all)
            && forall i :: 0 <= i < |all| ==> |all[i].0| > 0 && all[i].0[0] in MemberKeys([Member(k, v)] + rest)
    decreases [Member(k, v)] + rest, 1
  {
    var ms := [Member(k, v)] + rest;
    assert ms[0] == Member(k, v);
    var head, tail := Under(k, Leaves(v)), MemberLeaves(rest);
    MemberLeavesCons(Member(k, v), rest);
    MemberKeysCons(Member(k, v), rest);
    assert PathsGood(head) && PathsDistinct(head) && forall i :: 0 <= i < |head| ==> |head[i].0| > 0 && head[i].0[0] == k by {
      ValuePaths(v);
      KeyIsSegment(k);
      UnderPaths(k, Leaves(v));
    }
    assert PathsGood(tail) && PathsDistinct(tail) && forall i :: 0 <= i < |tail| ==> |tail[i].0| > 0 && tail[i].0[0] in MemberKeys(rest) by {
      MemberPaths(rest);
    }
    PathsAppend(k, MemberKeys(rest), head, tail);
  }

  // ---------------------------------------------------------------------------
  // Stored names of a good tree

  /** A good path joins into a valid key that does not end in "/". */
  lemma {:induction false} JoinGood(p: seq<string>)
    requires |p| >= 1 && GoodPath(p)
    ensures ValidKey(JoinOn(p, '/'))
    ensures JoinOn(p, '/')[|JoinOn(p, '/')| - 1] != '/'
    decreases |p|
  {
    if |p| > 1 {
      var rest := p[1..];
      assert forall i :: 0 <= i < |rest| ==> rest[i] == p[i + 1];
      JoinGood(rest);
      var j := JoinOn(rest, '/');
      var s := p[0] + ['/'] + j;
      assert JoinOn(p, '/') == s;
      forall i | 0 <= i < |s|
        ensures KeyChar(s[i])
      {
        if i < |p[0]| {
          assert s[i] == p[0][i];
        } else if i > |p[0]| {
          assert s[i] == j[i - |p[0]| - 1];
        }
      }
      assert s[|s| - 1] == j[|j| - 1];
    }
  }

  /** Two good paths that join into the same key are the same path. */
  lemma {:induction false} JoinInjective(p: seq<string>, q: seq<string>)
    requires |p| >= 1 && |q| >= 1 && GoodPath(p) && GoodPath(q)
    requires JoinOn(p, '/') == JoinOn(q, '/')
    ensures p == q
  {
    SplitJoin(p, '/');
    SplitJoin(q, '/');
  }

  /** Names that share their start are told apart by what follows it. */
  lemma {:induction false} CancelFront(a: string, k1: string, k2: string)
    requires a + k1 == a + k2
    ensures k1 == k2
  {
    assert k1 == (a + k1)[|a|..];
    assert k2 == (a + k2)[|a|..];
  }

  /** A good tree loads without error: one entry per leaf, keyed by its joined path. */
  lemma {:induction false} LoadGood(l: Loader, dta: seq<Member>)
    requires GoodMembers(dta)
    ensures PathsGood(MemberLeaves(dta)) && PathsDistinct(MemberLeaves(dta))
    ensures forall i :: 0 <= i < |MemberLeaves(dta)| ==> |MemberLeaves(dta)[i].0| >= 1
    ensures LoadData(l, dta).Ok? && |LoadData(l, dta).value| == |MemberLeaves(dta)|
    ensures forall i :: 0 <= i < |MemberLeaves(dta)| ==>
              LoadData(l, dta).value[i]
              == Entry(l.basename, Environment(l), JoinOn(MemberLeaves(dta)[i].0, '/'), MemberLeaves(dta)[i].1)
  {
    MemberPaths(dta);
    LoadDataSpec(l, dta);
    var leaves := TopKeyed(MemberLeaves(dta));
    forall i | 0 <= i < |leaves|
      ensures ValidKey(leaves[i].0)
    {
      JoinGood(MemberLeaves(dta)[i].0);
    }
  }

  /** The entries of a good tree have pairwise different full paths. */
  lemma {:induction false} FullPathsDistinct(l: Loader, dta: seq<Member>, prefix: string)
    requires GoodMembers(dta)
    ensures LoadData(l, dta).Ok?
    ensures var es := LoadData(l, dta).value;
            forall i, j :: 0 <= i < j < |es| ==> FullPath(prefix, es[i]) != FullPath(prefix, es[j])
  {
    LoadGood(l, dta);
    var es := LoadData(l, dta).value;
    var paths := MemberLeaves(dta);
    forall i, j | 0 <= i < j < |es|
      ensures FullPath(prefix, es[i]) != FullPath(prefix, es[j])
    {
      if FullPath(prefix, es[i]) == FullPath(prefix, es[j]) {
        CancelFront("/" + prefix + "/" + Environment(l) + "/" + l.basename + "/", es[i].key, es[j].key);
        JoinInjective(paths[i].0, paths[j].0);
      }
    }
  }

  /** What the restorer fetches: each stored pair as a parameter whose value is the
      scalar's string. */
  function Listed(params: seq<(string, Scalar)>): (ps: seq<Param>)
    ensures |ps| == |params|
    ensures forall i :: 0 <= i < |ps| ==> ps[i] == Param(params[i].0, ToS(params[i].1))
  {
    seq(|params|, i requires 0 <= i < |params| => Param(params[i].0, ToS(params[i].1)))
  }

  /** to_yaml is the fold of the parameters' fragments once every header passes. */
  lemma {:induction false} YamlFromFolds(r: Restorer, a: Value, ps: seq<Param>, fs: seq<Value>)
    requires |fs| == |ps|
    requires forall i :: 0 <= i < |ps| ==>
               Header(r, ps[i].name).Ok? && fs[i] == Fold(Header(r, ps[i].name).value, ps[i].value)
    ensures YamlFrom(r, a, ps) == MergeAll(a, fs)
    decreases |ps|
  {
    if |ps| > 0 {
      var b := DeepMerge(a, fs[0]);
      if b.Ok? {
        YamlFromFolds(r, b.value, ps[1..], fs[1..]);
      }
    }
  }

  /** The restorer for the files a loader writes under `prefix`. */
  function RestorerFor(l: Loader, prefix: string): (r: Restorer)
    ensures r.environment == Environment(l) && r.filename == l.basename
    ensures r.prefix == "/" + prefix
  {
    Restorer(Environment(l), l.basename, "/" + prefix)
  }

  /** The headers of a good tree's stored names give back its leaf paths. */
  lemma {:induction false} StoredHeaders(l: Loader, dta: seq<Member>, prefix: string)
    requires GoodMembers(dta)
    requires |prefix| > 0 && prefix[|prefix| - 1] != '/'
    requires '/' !in Environment(l) && '/' !in l.basename
    ensures LoadData(l, dta).Ok?
    ensures var es := LoadData(l, dta).value;
            |es| == |MemberLeaves(dta)| &&
            forall i :: 0 <= i < |es| ==> Header(RestorerFor(l, prefix), FullPath(prefix, es[i])) == Ok(MemberLeaves(dta)[i].0)
  {
    LoadGood(l, dta);
    var es := LoadData(l, dta).value;
    var paths := MemberLeaves(dta);
    var r := RestorerFor(l, prefix);
    forall i | 0 <= i < |es|
      ensures Header(r, FullPath(prefix, es[i])) == Ok(paths[i].0)
    {
      JoinGood(paths[i].0);
      HeaderOfPath(r, es[i].key);
      SplitJoin(paths[i].0, '/');
    }
  }

  /** The parameters a good tree is fetched back as pass the header check with its
      leaf paths as their tails, and carry its scalars' strings. */
  lemma {:induction false} FetchedBack(l: Loader, dta: seq<Member>, prefix: string)
    requires GoodMembers(dta)
    requires |prefix| > 0 && prefix[|prefix| - 1] != '/'
    requires '/' !in Environment(l) && '/' !in l.basename
    ensures LoadData(l, dta).Ok?
    ensures var ps, leaves := Listed(ToParams(prefix, LoadData(l, dta).value)), MemberLeaves(dta);
            |ps| == |leaves| &&
            forall i :: 0 <= i < |ps| ==>
              Header(RestorerFor(l, prefix), ps[i].name) == Ok(leaves[i].0) && ps[i].value == ToS(leaves[i].1)
  {
    LoadGood(l, dta);
    StoredHeaders(l, dta, prefix);
    FullPathsDistinct(l, dta, prefix);
    var es := LoadData(l, dta).value;
    var leaves := MemberLeaves(dta);
    ToParamsDistinct(prefix, es);
    var r := RestorerFor(l, prefix);
    var pairs := Pairs(prefix, es);
    var ps := Listed(pairs);
    forall i | 0 <= i < |ps|
      ensures Header(r, ps[i].name) == Ok(leaves[i].0) && ps[i].value == ToS(leaves[i].1)
    {
      assert es[i].value == leaves[i].1;
      assert pairs[i] == (FullPath(prefix, es[i]), es[i].value);
    }
  }

  /** store! followed by to_yaml: a good tree written by a loader under `prefix` and
      fetched back in the order to_params lists it comes back whole, with every scalar
      as its string. */
  lemma {:induction false} RoundTripYaml(l: Loader, dta: seq<Member>, prefix: string)
    requires GoodMembers(dta)
    requires |prefix| > 0 && prefix[|prefix| - 1] != '/'
    requires '/' !in Environment(l) && '/' !in l.basename
    ensures LoadData(l, dta).Ok?
    ensures ToYaml(RestorerFor(l, prefix), Listed(ToParams(prefix, LoadData(l, dta).value)))
            == Ok(Map(StringifyMembers(dta)))
  {
    FetchedYaml(l, dta, prefix);
    FileRebuild(dta);
  }

  /** to_yaml of what a good tree is fetched back as merges the tree's own fragments. */
  lemma {:induction false} FetchedYaml(l: Loader, dta: seq<Member>, prefix: string)
    requires GoodMembers(dta)
    requires |prefix| > 0 && prefix[|prefix| - 1] != '/'
    requires '/' !in Environment(l) && '/' !in l.basename
    ensures LoadData(l, dta).Ok?
    ensures ToYaml(RestorerFor(l, prefix), Listed(ToParams(prefix, LoadData(l, dta).value)))
            == MergeAll(Map([]), Fragments(MemberLeaves(dta)))
  {
    FetchedBack(l, dta, prefix);
    YamlOfLeaves(RestorerFor(l, prefix), Listed(ToParams(prefix, LoadData(l, dta).value)), MemberLeaves(dta));
  }

  /** Parameters whose headers give the leaves' paths and whose values are the leaves'
      strings restore as the merge of the leaves' fragments. */
  lemma {:induction false} YamlOfLeaves(r: Restorer, ps: seq<Param>, leaves: seq<(seq<string>, Scalar)>)
    requires |ps| == |leaves|
    requires forall i :: 0 <= i < |ps| ==> Header(r, ps[i].name) == Ok(leaves[i].0) && ps[i].value == ToS(leaves[i].1)
    ensures ToYaml(r, ps) == MergeAll(Map([]), Fragments(leaves))
  {
    var fs := Fragments(leaves);
    assert forall i :: 0 <= i < |ps| ==> fs[i] == Fold(leaves[i].0, ps[i].value);
    YamlFromFolds(r, Map([]), ps, fs);
  }

  /** A good file is rebuilt from its own fragments, starting from the empty Hash. */
  lemma {:induction false} FileRebuild(dta: seq<Member>)
    requires GoodMembers(dta)
    ensures MergeAll(Map([]), Fragments(MemberLeaves(dta))) == Ok(Map(StringifyMembers(dta)))
  {
    MembersRebuild([], dta);
    assert [] + StringifyMembers(dta) == StringifyMembers(dta);
  }

  // ---------------------------------------------------------------------------
  // The trip through a properties file

  /** Every member holds a scalar: a file to_properties can write back. */
  predicate Flat(ms: seq<Member>) {
    forall i :: 0 <= i < |ms| ==> ms[i].val.Leaf?
  }

  /** The lines a flat file is written back as: `key = value`, in file order. */
  function PropertyLines(ms: seq<Member>): (lines: seq<string>)
    requires Flat(ms)
    ensures |lines| == |ms|
  {
    seq(|ms|, i requires 0 <= i < |ms| => ms[i].key + " = " + ToS(ms[i].val.x))
  }

  /** The leaves of a flat file are its members, one segment each. */
  lemma {:induction false} FlatLeaves(ms: seq<Member>)
    requires Flat(ms)
    ensures |MemberLeaves(ms)| == |ms|
    ensures forall i :: 0 <= i < |ms| ==> MemberLeaves(ms)[i] == ([ms[i].key], ms[i].val.x)
    decreases ms
  {
    if |ms| > 0 {
      var rest := ms[1..];
      assert forall i :: 0 <= i < |rest| ==> rest[i] == ms[i + 1];
      FlatLeaves(rest);
      assert Leaves(ms[0].val) == [([], ms[0].val.x)];
      assert [ms[0].key] + [] == [ms[0].key];
      var head := Under(ms[0].key, Leaves(ms[0].val));
      assert head == [([ms[0].key], ms[0].val.x)];
      assert MemberLeaves(ms) == head + MemberLeaves(rest);
      forall i | 0 <= i < |ms|
        ensures MemberLeaves(ms)[i] == ([ms[i].key], ms[i].val.x)
      {
        if i > 0 {
          assert MemberLeaves(ms)[i] == MemberLeaves(rest)[i - 1];
        }
      }
    }
  }

  /** A good value other than a scalar has a leaf with a non-empty path. */
  lemma {:induction false} DeepValue(v: Value)
    requires GoodValue(v) && !v.Leaf?
    ensures |Leaves(v)| > 0 && |Leaves(v)[0].0| > 0
  {
    ValueRebuild(v);
    match v
    case List(xs) =>
      ItemLeavesOfScalars(xs, 0);
    case Map(ms) =>
      MemberPaths(ms);
  }

  /** The leaf paths of good members have at most one segment exactly when every
      member holds a scalar. */
  lemma {:induction false} ShallowIffFlat(ms: seq<Member>)
    requires GoodMembers(ms)
    ensures (forall i :: 0 <= i < |MemberLeaves(ms)| ==> |MemberLeaves(ms)[i].0| <= 1) <==> Flat(ms)
    decreases ms
  {
    if |ms| > 0 {
      GoodTail(ms);
      var rest := ms[1..];
      ShallowIffFlat(rest);
      var head := Under(ms[0].key, Leaves(ms[0].val));
      var all := MemberLeaves(ms);
      assert all == head + MemberLeaves(rest);
      assert Flat(ms) <==> ms[0].val.Leaf? && Flat(rest) by {
        assert forall i :: 0 <= i < |rest| ==> rest[i] == ms[i + 1];
      }
      if ms[0].val.Leaf? {
        assert Leaves(ms[0].val) == [([], ms[0].val.x)];
        assert head[0].0 == [ms[0].key] + [];
        assert (forall i :: 0 <= i < |all| ==> |all[i].0| <= 1)
               <==> (forall i :: 0 <= i < |MemberLeaves(rest)| ==> |MemberLeaves(rest)[i].0| <= 1) by {
          forall i | 0 <= i < |MemberLeaves(rest)|
            ensures all[i + 1] == MemberLeaves(rest)[i]
          {
          }
        }
      } else {
        DeepValue(ms[0].val);
        assert |all[0].0| > 1;
      }
    }
  }

  /** store! followed by to_properties: a flat good file comes back as its `key = value`
      lines in file order. */
  lemma {:induction false} RoundTripProperties(l: Loader, dta: seq<Member>, prefix: string)
    requires GoodMembers(dta) && Flat(dta)
    requires |prefix| > 0 && prefix[|prefix| - 1] != '/'
    requires '/' !in Environment(l) && '/' !in l.basename
    ensures LoadData(l, dta).Ok?
    ensures ToProperties(RestorerFor(l, prefix), Listed(ToParams(prefix, LoadData(l, dta).value)))
            == Ok(PropertyLines(dta))
  {
    FetchedBack(l, dta, prefix);
    FlatLeaves(dta);
    var r := RestorerFor(l, prefix);
    var ps := Listed(ToParams(prefix, LoadData(l, dta).value));
    forall i | 0 <= i < |ps|
      ensures PropertyLine(r, ps[i]) == Ok(PropertyLines(dta)[i])
    {
      assert Header(r, ps[i].name) == Ok([dta[i].key]);
    }
    var res := ToProperties(r, ps);
    ToPropertiesLines(r, ps);
    assert res.Ok?;
    assert res.value == PropertyLines(dta);
  }

  /** A good file written back as properties fails exactly when some member holds a
      Hash or an Array, and then with the ArgumentError for a tail of several segments. */
  lemma {:induction false} PropertiesNeedFlat(l: Loader, dta: seq<Member>, prefix: string)
    requires GoodMembers(dta)
    requires |prefix| > 0 && prefix[|prefix| - 1] != '/'
    requires '/' !in Environment(l) && '/' !in l.basename
    ensures LoadData(l, dta).Ok?
    ensures var res := ToProperties(RestorerFor(l, prefix), Listed(ToParams(prefix, LoadData(l, dta).value)));
            && (res.Ok? <==> Flat(dta))
            && (res.Err? ==> res.error.NestedProperty? && |res.error.tail| > 1)
  {
    FetchedBack(l, dta, prefix);
    ShallowIffFlat(dta);
    var r := RestorerFor(l, prefix);
    var ps := Listed(ToParams(prefix, LoadData(l, dta).value));
    var leaves := MemberLeaves(dta);
    assert forall i :: 0 <= i < |ps| ==> (PropertyLine(r, ps[i]).Ok? <==> |leaves[i].0| <= 1);
    var res := ToProperties(r, ps);
    ToPropertiesLines(r, ps);
    if res.Err? {
      ToPropertiesFirstError(r, ps);
      var i :| 0 <= i < |ps| && PropertyLine(r, ps[i]) == Err(res.error);
      assert Header(r, ps[i].name) == Ok(leaves[i].0);
    }
  }
}
