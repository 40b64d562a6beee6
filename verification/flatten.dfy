/** The loader side of lib/configruous.rb: `BaseLoader#load_data`, which walks the parsed
    file and turns every non-nil scalar into a configuration entry with a slash-joined
    key, and `BaseLoader#to_params`, which prefixes every key with
    `/prefix/environment/filename/`. */
module Flatten {
  import opened Results
  import opened Text
  import opened Values
  import opened Assoc

  const DefaultEnvironment: string := "prod"

  /** A loader for one file: the name it was opened with, File.basename of that name,
      and the `:environment` option, if one was passed. */
  datatype Loader = Loader(filename: string, basename: string, environmentOption: Option<string>)

  /** `options[:environment] || 'prod'`. */
  function Environment(l: Loader): string {
    match l.environmentOption
    case Some(e) => e
    case None => DefaultEnvironment
  }

  /** One configuration entry (the OpenStruct of load_data). */
  datatype Entry = Entry(filename: string, environment: string, key: string, value: Scalar)

  /** The RuntimeError raised for a key with a character outside the key class. */
  datatype LoadError = InvalidKey(key: string)

  // ---------------------------------------------------------------------------
  // Reference description of a tree's leaves, independent of the string keys

  /** Prefixes every path of `leaves` with one segment. */
  function Under(seg: string, leaves: seq<(seq<string>, Scalar)>): (r: seq<(seq<string>, Scalar)>)
    ensures |r| == |leaves|
    ensures forall i :: 0 <= i < |r| ==> r[i] == ([seg] + leaves[i].0, leaves[i].1)
  {
    seq(|leaves|, i requires 0 <= i < |leaves| => ([seg] + leaves[i].0, leaves[i].1))
  }

  /** Every non-nil scalar of `v` in traversal order, with the segments leading to it:
      a Hash member contributes its key, an Array element its position. */
  function Leaves(v: Value): seq<(seq<string>, Scalar)>
    decreases v
  {
    match v
    case Nil => []
    case Leaf(x) => [([], x)]
    case Map(ms) => MemberLeaves(ms)
    case List(xs) => ItemLeaves(xs, 0)
  }

  function MemberLeaves(ms: seq<Member>): seq<(seq<string>, Scalar)>
    decreases ms
  {
    if |ms| == 0 then [] else Under(ms[0].key, Leaves(ms[0].val)) + MemberLeaves(ms[1..])
  }

  lemma {:induction false} MemberLeavesCons(m: Member, rest: seq<Member>)
    ensures MemberLeaves([m] + rest) == Under(m.key, Leaves(m.val)) + MemberLeaves(rest)
  {
    assert ([m] + rest)[0] == m && ([m] + rest)[1..] == rest;
  }

  function ItemLeaves(xs: seq<Value>, i: nat): seq<(seq<string>, Scalar)>
    requires i <= |xs|
    decreases xs, |xs| - i
  {
    if i == |xs| then [] else Under(NatToString(i), Leaves(xs[i])) + ItemLeaves(xs, i + 1)
  }

  /** The text a path adds after its first key: "/" and the segment, for every segment. */
  function PathSuffix(p: seq<string>): string {
    if |p| == 0 then "" else "/" + p[0] + PathSuffix(p[1..])
  }

  /** The leaves below key `k`, with their keys spelled out as strings. */
  function Keyed(k: string, leaves: seq<(seq<string>, Scalar)>): (r: seq<(string, Scalar)>)
    ensures |r| == |leaves|
    ensures forall i :: 0 <= i < |r| ==> r[i] == (k + PathSuffix(leaves[i].0), leaves[i].1)
  {
    seq(|leaves|, i requires 0 <= i < |leaves| => (k + PathSuffix(leaves[i].0), leaves[i].1))
  }

  /** The position of the first entry whose key fails the check, or the length. */
  function FirstInvalid(es: seq<(string, Scalar)>): (i: nat)
    ensures i <= |es|
    ensures forall j :: 0 <= j < i ==> ValidKey(es[j].0)
    ensures i < |es| ==> !ValidKey(es[i].0)
  {
    if |es| == 0 then 0 else if !ValidKey(es[0].0) then 0 else 1 + FirstInvalid(es[1..])
  }

  /** Accepts a list of entries when every key is valid, and otherwise fails on the
      first invalid key. */
  function Check(es: seq<(string, Scalar)>): Result<seq<(string, Scalar)>, LoadError> {
    var i := FirstInvalid(es);
    if i == |es| then Ok(es) else Err(InvalidKey(es[i].0))
  }

  lemma {:induction false} CheckAppend(a: seq<(string, Scalar)>, b: seq<(string, Scalar)>)
    ensures Check(a + b) ==
              if Check(a).Err? then Check(a)
              else if Check(b).Err? then Check(b)
              else Ok(a + b)
  {
    var i, j, c := FirstInvalid(a), FirstInvalid(b), FirstInvalid(a + b);
    if i < |a| {
      assert (a + b)[i] == a[i];
      assert c == i;
    } else if j < |b| {
      assert (a + b)[|a| + j] == b[j];
      assert forall m :: 0 <= m < |a| + j ==> ValidKey((a + b)[m].0) by {
        forall m | 0 <= m < |a| + j
          ensures ValidKey((a + b)[m].0)
        {
          if m >= |a| {
            assert (a + b)[m] == b[m - |a|];
          }
        }
      }
      assert c == |a| + j;
    } else {
      forall m | 0 <= m < |a + b|
        ensures ValidKey((a + b)[m].0)
      {
        if m >= |a| {
          assert (a + b)[m] == b[m - |a|];
        }
      }
    }
  }

  // ---------------------------------------------------------------------------
  // BaseLoader#load_data

  /** `load_data({ k => v })`: the entries below key `k`, or the error for the first
      invalid key met in traversal order. */
  function FlattenValue(k: string, v: Value): (r: Result<seq<(string, Scalar)>, LoadError>)
    ensures r.Ok? ==> forall i :: 0 <= i < |r.value| ==> ValidKey(r.value[i].0) && k <= r.value[i].0
    decreases v
  {
    match v
    case Nil => Ok([])
    case Leaf(x) => if ValidKey(k) then Ok([(k, x)]) else Err(InvalidKey(k))
    case Map(ms) => FlattenMembers(k, ms)
    case List(xs) => FlattenItems(k, xs, 0)
  }

  /** The members of a Hash below `k`: member `l` gets the key `k + "/" + l`. */
  function FlattenMembers(k: string, ms: seq<Member>): (r: Result<seq<(string, Scalar)>, LoadError>)
    ensures r.Ok? ==> forall i :: 0 <= i < |r.value| ==> ValidKey(r.value[i].0) && k <= r.value[i].0
    decreases ms
  {
    if |ms| == 0 then Ok([])
    else
      var first :- FlattenValue(k + "/" + ms[0].key, ms[0].val);
      var rest :- FlattenMembers(k, ms[1..]);
      assert forall i :: 0 <= i < |first| ==> k <= first[i].0 by {
        forall i | 0 <= i < |first|
          ensures k <= first[i].0
        {
          assert k <= k + "/" + ms[0].key;
        }
      }
      Ok(first + rest)
  }

  /** The elements of an Array below `k`: element `i` gets the key `k + "/" + i`. */
  function FlattenItems(k: string, xs: seq<Value>, i: nat): (r: Result<seq<(string, Scalar)>, LoadError>)
    requires i <= |xs|
    ensures r.Ok? ==> forall j :: 0 <= j < |r.value| ==> ValidKey(r.value[j].0) && k <= r.value[j].0
    decreases xs, |xs| - i
  {
    if i == |xs| then Ok([])
    else
      var first :- FlattenValue(k + "/" + NatToString(i), xs[i]);
      var rest :- FlattenItems(k, xs, i + 1);
      assert forall j :: 0 <= j < |first| ==> k <= first[j].0 by {
        forall j | 0 <= j < |first|
          ensures k <= first[j].0
        {
          assert k <= k + "/" + NatToString(i);
        }
      }
      Ok(first + rest)
  }

  /** The top level of the parsed file: a top-level key is used as it is. */
  function FlattenTop(dta: seq<Member>): (r: Result<seq<(string, Scalar)>, LoadError>)
    ensures r.Ok? ==> forall i :: 0 <= i < |r.value| ==> ValidKey(r.value[i].0)
  {
    if |dta| == 0 then Ok([])
    else
      var first :- FlattenValue(dta[0].key, dta[0].val);
      var rest :- FlattenTop(dta[1..]);
      Ok(first + rest)
  }

  /** BaseLoader#initialize + load_data: the entries of a parsed file, each carrying the
      basename of the file and the environment. */
  function LoadData(l: Loader, dta: seq<Member>): (r: Result<seq<Entry>, LoadError>)
    ensures r.Ok? ==> forall i :: 0 <= i < |r.value| ==>
                        && r.value[i].filename == l.basename
                        && r.value[i].environment == Environment(l)
                        && ValidKey(r.value[i].key)
  {
    var flat :- FlattenTop(dta);
    Ok(seq(|flat|, i requires 0 <= i < |flat| => Entry(l.basename, Environment(l), flat[i].0, flat[i].1)))
  }

  // ---------------------------------------------------------------------------
  // Flattening agrees with the reference description

  lemma {:induction false} KeyedAppend(k: string, a: seq<(seq<string>, Scalar)>, b: seq<(seq<string>, Scalar)>)
    ensures Keyed(k, a + b) == Keyed(k, a) + Keyed(k, b)
  {
  }

  lemma {:induction false} KeyedUnder(k: string, seg: string, leaves: seq<(seq<string>, Scalar)>)
    ensures Keyed(k, Under(seg, leaves)) == Keyed(k + "/" + seg, leaves)
  {
    forall i | 0 <= i < |leaves|
      ensures k + PathSuffix([seg] + leaves[i].0) == (k + "/" + seg) + PathSuffix(leaves[i].0)
    {
      assert ([seg] + leaves[i].0)[1..] == leaves[i].0;
    }
  }

  /** Flattening yields exactly one entry per non-nil scalar, in traversal order, under
      the key its path spells, and fails exactly when one of those keys is invalid,
      naming the first such key. */
  lemma {:induction false} FlattenValueMatchesLeaves(k: string, v: Value)
    ensures FlattenValue(k, v) == Check(Keyed(k, Leaves(v)))
    decreases v
  {
    match v
    case Nil =>
    case Leaf(x) =>
      assert PathSuffix([]) == "" && k + "" == k;
      assert Keyed(k, Leaves(v)) == [(k, x)];
    case Map(ms) =>
      FlattenMembersMatchesLeaves(k, ms);
    case List(xs) =>
      FlattenItemsMatchesLeaves(k, xs, 0);
  }

  lemma {:induction false} FlattenMembersMatchesLeaves(k: string, ms: seq<Member>)
    ensures FlattenMembers(k, ms) == Check(Keyed(k, MemberLeaves(ms)))
    decreases ms
  {
    if |ms| > 0 {
      var head := Under(ms[0].key, Leaves(ms[0].val));
      FlattenValueMatchesLeaves(k + "/" + ms[0].key, ms[0].val);
      FlattenMembersMatchesLeaves(k, ms[1..]);
      KeyedAppend(k, head, MemberLeaves(ms[1..]));
      KeyedUnder(k, ms[0].key, Leaves(ms[0].val));
      CheckAppend(Keyed(k, head), Keyed(k, MemberLeaves(ms[1..])));
    }
  }

  lemma {:induction false} FlattenItemsMatchesLeaves(k: string, xs: seq<Value>, i: nat)
    requires i <= |xs|
    ensures FlattenItems(k, xs, i) == Check(Keyed(k, ItemLeaves(xs, i)))
    decreases xs, |xs| - i
  {
    if i < |xs| {
      var head := Under(NatToString(i), Leaves(xs[i]));
      FlattenValueMatchesLeaves(k + "/" + NatToString(i), xs[i]);
      FlattenItemsMatchesLeaves(k, xs, i + 1);
      KeyedAppend(k, head, ItemLeaves(xs, i + 1));
      KeyedUnder(k, NatToString(i), Leaves(xs[i]));
      CheckAppend(Keyed(k, head), Keyed(k, ItemLeaves(xs, i + 1)));
    }
  }

  /** Every path of a top-level member starts with the member's key. */
  lemma {:induction false} MemberLeavesNonEmpty(ms: seq<Member>)
    ensures forall i :: 0 <= i < |MemberLeaves(ms)| ==> |MemberLeaves(ms)[i].0| >= 1
    decreases ms
  {
    if |ms| > 0 {
      MemberLeavesNonEmpty(ms[1..]);
      var head := Under(ms[0].key, Leaves(ms[0].val));
      assert MemberLeaves(ms) == head + MemberLeaves(ms[1..]);
      forall i | 0 <= i < |MemberLeaves(ms)|
        ensures |MemberLeaves(ms)[i].0| >= 1
      {
        if i >= |head| {
          assert MemberLeaves(ms)[i] == MemberLeaves(ms[1..])[i - |head|];
        }
      }
    }
  }

  /** The leaves of a whole file with every path joined by "/": the keys load_data builds. */
  function TopKeyed(leaves: seq<(seq<string>, Scalar)>): (r: seq<(string, Scalar)>)
    requires forall i :: 0 <= i < |leaves| ==> |leaves[i].0| >= 1
    ensures |r| == |leaves|
  {
    seq(|leaves|, i requires 0 <= i < |leaves| => (JoinOn(leaves[i].0, '/'), leaves[i].1))
  }

  lemma {:induction false} JoinPathSuffix(k: string, p: seq<string>)
    ensures JoinOn([k] + p, '/') == k + PathSuffix(p)
    decreases |p|
  {
    if |p| > 0 {
      assert ([k] + p)[1..] == p;
      assert p == [p[0]] + p[1..];
      JoinPathSuffix(p[0], p[1..]);
    }
  }

  lemma {:induction false} TopKeyedAppend(a: seq<(seq<string>, Scalar)>, b: seq<(seq<string>, Scalar)>)
    requires forall i :: 0 <= i < |a| ==> |a[i].0| >= 1
    requires forall i :: 0 <= i < |b| ==> |b[i].0| >= 1
    ensures TopKeyed(a + b) == TopKeyed(a) + TopKeyed(b)
  {
    var l, r := TopKeyed(a + b), TopKeyed(a) + TopKeyed(b);
    forall i | 0 <= i < |l|
      ensures l[i] == r[i]
    {
      if i >= |a| {
        assert (a + b)[i] == b[i - |a|];
      }
    }
  }

  /** Joining the paths below one top-level key spells the keys flattening builds. */
  lemma {:induction false} TopKeyedUnder(k: string, leaves: seq<(seq<string>, Scalar)>)
    ensures TopKeyed(Under(k, leaves)) == Keyed(k, leaves)
  {
    var head := Under(k, leaves);
    forall i | 0 <= i < |head|
      ensures JoinOn(head[i].0, '/') == k + PathSuffix(leaves[i].0)
    {
      JoinPathSuffix(k, leaves[i].0);
    }
  }

  /** The keys of the whole file are the slash-joined paths of its leaves. */
  lemma {:induction false} FlattenTopMatchesLeaves(dta: seq<Member>)
    ensures forall i :: 0 <= i < |MemberLeaves(dta)| ==> |MemberLeaves(dta)[i].0| >= 1
    ensures FlattenTop(dta) == Check(TopKeyed(MemberLeaves(dta)))
    decreases dta
  {
    MemberLeavesNonEmpty(dta);
    if |dta| > 0 {
      var k := dta[0].key;
      var head := Under(k, Leaves(dta[0].val));
      var tail := MemberLeaves(dta[1..]);
      MemberLeavesNonEmpty(dta[1..]);
      FlattenValueMatchesLeaves(k, dta[0].val);
      FlattenTopMatchesLeaves(dta[1..]);
      TopKeyedUnder(k, Leaves(dta[0].val));
      assert MemberLeaves(dta) == head + tail;
      TopKeyedAppend(head, tail);
      CheckAppend(TopKeyed(head), TopKeyed(tail));
    }
  }

  /** The entries `load_data` records for a whole file: one per non-nil scalar leaf, in
      traversal order, each under its slash-joined path, with the file's basename and the
      environment; and a RuntimeError naming the first leaf whose key is invalid. */
  lemma {:induction false} LoadDataSpec(l: Loader, dta: seq<Member>)
    ensures forall i :: 0 <= i < |MemberLeaves(dta)| ==> |MemberLeaves(dta)[i].0| >= 1
    ensures var leaves := TopKeyed(MemberLeaves(dta));
            LoadData(l, dta) ==
              if FirstInvalid(leaves) < |leaves| then Err(InvalidKey(leaves[FirstInvalid(leaves)].0))
              else Ok(seq(|leaves|, i requires 0 <= i < |leaves| =>
                            Entry(l.basename, Environment(l), leaves[i].0, leaves[i].1)))
  {
    FlattenTopMatchesLeaves(dta);
  }

  /** Loading fails exactly when some leaf's slash-joined path is not a valid key. */
  lemma {:induction false} LoadDataFailsIffInvalidLeaf(l: Loader, dta: seq<Member>)
    ensures forall i :: 0 <= i < |MemberLeaves(dta)| ==> |MemberLeaves(dta)[i].0| >= 1
    ensures LoadData(l, dta).Err? <==>
              exists i :: 0 <= i < |MemberLeaves(dta)| && !ValidKey(JoinOn(MemberLeaves(dta)[i].0, '/'))
  {
    LoadDataSpec(l, dta);
    var leaves := TopKeyed(MemberLeaves(dta));
    if FirstInvalid(leaves) < |leaves| {
      assert !ValidKey(JoinOn(MemberLeaves(dta)[FirstInvalid(leaves)].0, '/'));
    } else {
      forall i | 0 <= i < |MemberLeaves(dta)|
        ensures ValidKey(JoinOn(MemberLeaves(dta)[i].0, '/'))
      {
        assert leaves[i].0 == JoinOn(MemberLeaves(dta)[i].0, '/');
      }
    }
  }

  /** A file that loads, with one more top-level key holding a scalar appended: the
      new key is checked after every entry before it. */
  lemma {:induction false} FlattenTopSnoc(dta: seq<Member>, k: string, x: Scalar)
    requires FlattenTop(dta).Ok?
    ensures FlattenTop(dta + [Member(k, Leaf(x))])
            == if ValidKey(k) then Ok(FlattenTop(dta).value + [(k, x)]) else Err(InvalidKey(k))
    decreases |dta|
  {
    var m := Member(k, Leaf(x));
    if |dta| == 0 {
      assert dta + [m] == [m] && [m][1..] == [];
      assert FlattenTop(dta).value == [];
      assert [(k, x)] + [] == [] + [(k, x)];
    } else {
      assert (dta + [m])[0] == dta[0] && (dta + [m])[1..] == dta[1..] + [m];
      FlattenTopSnoc(dta[1..], k, x);
      var first := FlattenValue(dta[0].key, dta[0].val).value;
      var rest := FlattenTop(dta[1..]).value;
      assert first + (rest + [(k, x)]) == (first + rest) + [(k, x)];
    }
  }

  /** The key the loader's test rejects: appended to a file that loads, it makes loading
      fail with a RuntimeError naming that key. */
  lemma {:induction false} RejectsAmpersandKey(l: Loader, dta: seq<Member>)
    requires LoadData(l, dta).Ok?
    ensures var k := "a-parameter_name.&&.that_is_not_allowed";
            LoadData(l, dta + [Member(k, Leaf(Str("data")))]) == Err(InvalidKey(k))
  {
    var k := "a-parameter_name.&&.that_is_not_allowed";
    assert !KeyChar(k[17]);
    FlattenTopSnoc(dta, k, Str("data"));
  }

  // ---------------------------------------------------------------------------
  // BaseLoader#to_params

  /** `"/#{prefix}/#{environment}/#{filename}/#{key}"`. */
  function FullPath(prefix: string, e: Entry): string {
    "/" + prefix + "/" + e.environment + "/" + e.filename + "/" + e.key
  }

  /** The value of the last entry whose full path is `p`, if any. */
  function LastValue(prefix: string, entries: seq<Entry>, p: string): Option<Scalar> {
    if |entries| == 0 then None
    else if FullPath(prefix, entries[|entries| - 1]) == p then Some(entries[|entries| - 1].value)
    else LastValue(prefix, entries[..|entries| - 1], p)
  }

  /** to_params: a Hash from full path to value, filled in entry order. */
  function ToParams(prefix: string, entries: seq<Entry>): seq<(string, Scalar)>
    decreases |entries|
  {
    if |entries| == 0 then []
    else
      var last := entries[|entries| - 1];
      Put(ToParams(prefix, entries[..|entries| - 1]), FullPath(prefix, last), last.value)
  }

  /** to_params holds each full path once, with the value of the last entry that
      produced it, and nothing else. */
  lemma {:induction false} ToParamsSpec(prefix: string, entries: seq<Entry>)
    ensures UniqueKeys(ToParams(prefix, entries))
    ensures forall p :: Get(ToParams(prefix, entries), p) == LastValue(prefix, entries, p)
    decreases |entries|
  {
    if |entries| > 0 {
      var init := entries[..|entries| - 1];
      var last := entries[|entries| - 1];
      ToParamsSpec(prefix, init);
      PutUnique(ToParams(prefix, init), FullPath(prefix, last), last.value);
    }
  }

  /** Every entry paired with its full path, in entry order. */
  function Pairs(prefix: string, entries: seq<Entry>): (r: seq<(string, Scalar)>)
    ensures |r| == |entries|
    ensures forall i :: 0 <= i < |r| ==> r[i] == (FullPath(prefix, entries[i]), entries[i].value)
  {
    seq(|entries|, i requires 0 <= i < |entries| => (FullPath(prefix, entries[i]), entries[i].value))
  }

  /** Pairing distributes over the last entry. */
  lemma {:induction false} PairsSnoc(prefix: string, entries: seq<Entry>)
    requires |entries| > 0
    ensures var n := |entries| - 1;
            Pairs(prefix, entries) == Pairs(prefix, entries[..n]) + [(FullPath(prefix, entries[n]), entries[n].value)]
  {
    var n := |entries| - 1;
    var a, b := Pairs(prefix, entries), Pairs(prefix, entries[..n]) + [(FullPath(prefix, entries[n]), entries[n].value)];
    assert |a| == |b|;
    forall i | 0 <= i < |a|
      ensures a[i] == b[i]
    {
      if i < n {
        assert b[i] == Pairs(prefix, entries[..n])[i];
        assert entries[..n][i] == entries[i];
      }
    }
  }

  /** The last entry's full path is not among the earlier ones when all are distinct. */
  lemma {:induction false} LastPathFresh(prefix: string, entries: seq<Entry>)
    requires |entries| > 0
    requires forall i, j :: 0 <= i < j < |entries| ==> FullPath(prefix, entries[i]) != FullPath(prefix, entries[j])
    ensures var n := |entries| - 1;
            FullPath(prefix, entries[n]) !in Keys(Pairs(prefix, entries[..n]))
  {
    var n := |entries| - 1;
    var m := Pairs(prefix, entries[..n]);
    forall i | 0 <= i < |m|
      ensures Keys(m)[i] != FullPath(prefix, entries[n])
    {
      assert entries[..n][i] == entries[i];
    }
  }

  /** When no two entries share a full path, to_params keeps every entry, in order. */
  lemma {:induction false} ToParamsDistinct(prefix: string, entries: seq<Entry>)
    requires forall i, j :: 0 <= i < j < |entries| ==> FullPath(prefix, entries[i]) != FullPath(prefix, entries[j])
    ensures ToParams(prefix, entries) == Pairs(prefix, entries)
    decreases |entries|
  {
    if |entries| > 0 {
      var n := |entries| - 1;
      var init := entries[..n];
      forall i, j | 0 <= i < j < |init|
        ensures FullPath(prefix, init[i]) != FullPath(prefix, init[j])
      {
        assert init[i] == entries[i] && init[j] == entries[j];
      }
      ToParamsDistinct(prefix, init);
      LastPathFresh(prefix, entries);
      PutFresh(Pairs(prefix, init), FullPath(prefix, entries[n]), entries[n].value);
      PairsSnoc(prefix, entries);
    }
  }
}
