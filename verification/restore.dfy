/** The restore side of lib/configruous.rb: `RestoreFileFromSSM#to_properties` and
    `#to_yaml`, which rebuild a file from the parameters stored under
    `prefix/environment/filename/`, and `Helpers.deep_merge`, which to_yaml uses to put
    the one-path fragments back together. */
module Restore {
  import opened Results
  import opened Text
  import opened Values
  import opened Flatten
  import opened Differ

  /** The prefix RestoreFileFromSSM uses when none is given. */
  const DefaultPrefix: string := "/config/testing"

  /** A restorer for one file of one environment. Unlike the loader's, its prefix carries
      its own leading slash. */
  datatype Restorer = Restorer(environment: string, filename: string, prefix: string)

  /** The RuntimeErrors of the header check, the ArgumentError of to_properties, and the
      TypeError (or NoMethodError) of a merge that falls back to an unsupported `+`. */
  datatype RestoreError =
    | FilenameMismatch(expected: string, found: Option<string>)
    | EnvironmentMismatch(expected: string, found: Option<string>)
    | NestedProperty(tail: seq<string>)
    | TypeMismatch

  /** `@prefix.split('/').length`. */
  function Offset(r: Restorer): nat {
    |RubySplit(r.prefix)|
  }

  /** `parts[i]`: nil past the end. */
  function At(parts: seq<string>, i: nat): (r: Option<string>)
    ensures r.Some? <==> i < |parts|
    ensures r.Some? ==> r.value == parts[i]
  {
    if i < |parts| then Some(parts[i]) else None
  }

  /** The header check of to_properties and to_yaml: the segment after the environment
      must be the filename, which is checked first, and the segment at the prefix's
      length must be the environment. Returns `split('/')[(n+2)..-1]`. */
  function Header(r: Restorer, name: string): (res: Result<seq<string>, RestoreError>)
    ensures var parts, n := RubySplit(name), Offset(r);
            At(parts, n + 1) != Some(r.filename) ==> res == Err(FilenameMismatch(r.filename, At(parts, n + 1)))
    ensures var parts, n := RubySplit(name), Offset(r);
            res.Ok? <==> At(parts, n + 1) == Some(r.filename) && At(parts, n) == Some(r.environment)
    ensures var parts, n := RubySplit(name), Offset(r);
            res.Ok? ==> parts == parts[..n] + [r.environment, r.filename] + res.value
  {
    var parts := RubySplit(name);
    var n := Offset(r);
    if At(parts, n + 1) != Some(r.filename) then Err(FilenameMismatch(r.filename, At(parts, n + 1)))
    else if At(parts, n) != Some(r.environment) then Err(EnvironmentMismatch(r.environment, At(parts, n)))
    else
      assert parts == parts[..n] + [r.environment, r.filename] + parts[n + 2..];
      Ok(parts[n + 2..])
  }

  // ---------------------------------------------------------------------------
  // to_properties

  /** One line of to_properties: `"#{arr.first} = #{value}"`, where an empty tail
      renders its missing first segment as the empty string. */
  function PropertyLine(r: Restorer, p: Param): (res: Result<string, RestoreError>)
    ensures res.Ok? <==> Header(r, p.name).Ok? && |Header(r, p.name).value| <= 1
    ensures Header(r, p.name).Ok? && |Header(r, p.name).value| > 1 ==> res == Err(NestedProperty(Header(r, p.name).value))
  {
    var tail :- Header(r, p.name);
    if |tail| > 1 then Err(NestedProperty(tail))
    else Ok((if |tail| == 0 then "" else tail[0]) + " = " + p.value)
  }

  /** Each parameter's line, or the error its line raises, in fetch order. */
  function LinesOf(r: Restorer, params: seq<Param>): (rs: seq<Result<string, RestoreError>>)
    ensures |rs| == |params|
    ensures forall i :: 0 <= i < |params| ==> rs[i] == PropertyLine(r, params[i])
  {
    seq(|params|, i requires 0 <= i < |params| => PropertyLine(r, params[i]))
  }

  /** The lines of a run in order, unless one of them failed: then the first failure,
      the exception that ends the `map` over the parameters. */
  function FirstFailure(rs: seq<Result<string, RestoreError>>): (res: Result<seq<string>, RestoreError>)
    ensures res.Ok? ==> |res.value| == |rs|
  {
    if |rs| == 0 then Ok([])
    else
      var line :- rs[0];
      var rest :- FirstFailure(rs[1..]);
      Ok([line] + rest)
  }

  /** to_properties: one line per parameter in fetch order; the first failing parameter
      ends the run with its error. Every line is a pure function of its parameter, so
      computing them all and then taking the first failure raises the same error. */
  function ToProperties(r: Restorer, params: seq<Param>): (res: Result<seq<string>, RestoreError>)
    ensures res.Ok? ==> |res.value| == |params|
  {
    FirstFailure(LinesOf(r, params))
  }

  /** A run succeeds exactly when every line does, and then holds the lines in order. */
  lemma {:induction false} FirstFailureOk(rs: seq<Result<string, RestoreError>>)
    ensures FirstFailure(rs).Ok? <==> forall i :: 0 <= i < |rs| ==> rs[i].Ok?
    ensures FirstFailure(rs).Ok? ==> forall i :: 0 <= i < |rs| ==> rs[i] == Ok(FirstFailure(rs).value[i])
    decreases |rs|
  {
    if |rs| > 0 {
      var rest := rs[1..];
      FirstFailureOk(rest);
      if rs[0].Err? {
        assert FirstFailure(rs).Err?;
      } else if FirstFailure(rest).Err? {
        assert FirstFailure(rs).Err?;
        var i :| 0 <= i < |rest| && rest[i].Err?;
        assert rs[i + 1] == rest[i];
      } else {
        var lines := [rs[0].value] + FirstFailure(rest).value;
        assert FirstFailure(rs) == Ok(lines);
        forall i | 0 <= i < |rs|
          ensures rs[i] == Ok(lines[i])
        {
          if i > 0 {
            assert rs[i] == rest[i - 1];
          }
        }
      }
    }
  }

  /** A failing run fails with its first failing line. */
  lemma {:induction false} FirstFailureErr(rs: seq<Result<string, RestoreError>>)
    requires FirstFailure(rs).Err?
    ensures exists i :: 0 <= i < |rs| && rs[i] == Err(FirstFailure(rs).error) && forall j :: 0 <= j < i ==> rs[j].Ok?
    decreases |rs|
  {
    if rs[0].Ok? {
      var rest := rs[1..];
      assert FirstFailure(rest).Err? && FirstFailure(rs).error == FirstFailure(rest).error;
      FirstFailureErr(rest);
      var i :| 0 <= i < |rest| && rest[i] == Err(FirstFailure(rest).error) && forall j :: 0 <= j < i ==> rest[j].Ok?;
      assert rs[i + 1] == rest[i];
      forall j | 0 <= j < i + 1
        ensures rs[j].Ok?
      {
        if j > 0 {
          assert rs[j] == rest[j - 1];
        }
      }
    }
  }

  /** to_properties succeeds exactly when every parameter has a line, and then holds
      those lines in fetch order. */
  lemma {:induction false} ToPropertiesLines(r: Restorer, params: seq<Param>)
    ensures ToProperties(r, params).Ok? <==> forall i :: 0 <= i < |params| ==> PropertyLine(r, params[i]).Ok?
    ensures ToProperties(r, params).Ok? ==>
              forall i :: 0 <= i < |params| ==> PropertyLine(r, params[i]) == Ok(ToProperties(r, params).value[i])
  {
    FirstFailureOk(LinesOf(r, params));
  }

  /** A failing to_properties fails with the error of its first failing parameter. */
  lemma {:induction false} ToPropertiesFirstError(r: Restorer, params: seq<Param>)
    requires ToProperties(r, params).Err?
    ensures exists i :: 0 <= i < |params| && PropertyLine(r, params[i]) == Err(ToProperties(r, params).error)
                        && forall j :: 0 <= j < i ==> PropertyLine(r, params[j]).Ok?
  {
    var rs := LinesOf(r, params);
    FirstFailureErr(rs);
    var i :| 0 <= i < |rs| && rs[i] == Err(FirstFailure(rs).error) && forall j :: 0 <= j < i ==> rs[j].Ok?;
    assert PropertyLine(r, params[i]) == rs[i];
  }

  // ---------------------------------------------------------------------------
  // deep_merge

  /** Replaces the value of the member named `k`. */
  function SetMember(ms: seq<Member>, k: string, v: Value): (r: seq<Member>)
    ensures MemberKeys(r) == MemberKeys(ms)
    ensures k in MemberKeys(ms) ==> Lookup(r, k) == Some(v)
    ensures forall k' :: k' != k ==> Lookup(r, k') == Lookup(ms, k')
  {
    if |ms| == 0 then []
    else if ms[0].key == k then [Member(k, v)] + ms[1..]
    else
      assert MemberKeys(ms) == [ms[0].key] + MemberKeys(ms[1..]);
      [ms[0]] + SetMember(ms[1..], k, v)
  }

  /** Helpers.deep_merge: a Hash merges with a Hash key by key; anything else falls back
      to `+`, which concatenates two Arrays or two Strings, adds two Integers, and raises
      for every other pair. */
  function DeepMerge(a: Value, b: Value): Result<Value, RestoreError>
    decreases b
  {
    match a
    case Map(xs) =>
      if b.Map? then
        var ms :- MergeInto(xs, b.members);
        Ok(Map(ms))
      else Err(TypeMismatch)
    case List(xs) => if b.List? then Ok(List(xs + b.items)) else Err(TypeMismatch)
    case Leaf(Str(s)) => if b.Leaf? && b.x.Str? then Ok(Leaf(Str(s + b.x.s))) else Err(TypeMismatch)
    case Leaf(Int(i)) => if b.Leaf? && b.x.Int? then Ok(Leaf(Int(i + b.x.i))) else Err(TypeMismatch)
    case _ => Err(TypeMismatch)
  }

  /** `h1.merge(h2) { |key, x, y| deep_merge(x, y) }`, walking the members of `h2`: a
      shared key keeps its place and takes the merged value, a new key is appended. */
  function MergeInto(acc: seq<Member>, ys: seq<Member>): Result<seq<Member>, RestoreError>
    decreases ys
  {
    if |ys| == 0 then Ok(acc)
    else
      match Lookup(acc, ys[0].key)
      case None => MergeInto(acc + [ys[0]], ys[1..])
      case Some(x) =>
        var m :- DeepMerge(x, ys[0].val);
        MergeInto(SetMember(acc, ys[0].key, m), ys[1..])
  }

  // ---------------------------------------------------------------------------
  // to_yaml

  /** The block of `inject`: an index-looking segment wraps the value in a one-element
      Array, any other segment in a one-member Hash. */
  function Wrap(seg: string, mem: Value): Value {
    if IsIndexSegment(seg) then List([mem]) else Map([Member(seg, mem)])
  }

  /** `(tail + [value]).reverse.inject { ... }`: the value wrapped by the segments of the
      tail, innermost last. With no tail, inject hands back the value itself. */
  function Fold(tail: seq<string>, value: string): Value {
    if |tail| == 0 then Leaf(Str(value)) else Wrap(tail[0], Fold(tail[1..], value))
  }

  /** to_yaml from a partial result: check each parameter's header, fold its tail and
      merge the fragment in, in fetch order. */
  function YamlFrom(r: Restorer, res: Value, params: seq<Param>): Result<Value, RestoreError>
    decreases |params|
  {
    if |params| == 0 then Ok(res)
    else
      var tail :- Header(r, params[0].name);
      var next :- DeepMerge(res, Fold(tail, params[0].value));
      YamlFrom(r, next, params[1..])
  }

  /** to_yaml: starts from an empty Hash. */
  function ToYaml(r: Restorer, params: seq<Param>): Result<Value, RestoreError> {
    YamlFrom(r, Map([]), params)
  }

  // ---------------------------------------------------------------------------
  // Headers of the names the loader writes

  lemma {:induction false} SplitOnLast(s: string, sep: char)
    ensures var parts := SplitOn(s, sep);
            parts[|parts| - 1] == "" <==> |s| == 0 || s[|s| - 1] == sep
    decreases |s|
  {
    if |s| > 0 {
      var t := s[1..];
      var rest := SplitOn(t, sep);
      SplitOnLast(t, sep);
      if s[0] != sep && |rest| == 1 && |s| > 1 {
        JoinSplit(t, sep);
        assert s[|s| - 1] == t[|t| - 1];
      }
    }
  }

  /** Splitting a name built as `prefix/environment/filename/key`. */
  lemma {:induction false} SplitName(prefix: string, env: string, file: string, key: string)
    requires '/' !in env && '/' !in file
    ensures SplitOn(prefix + "/" + env + "/" + file + "/" + key, '/')
            == SplitOn(prefix, '/') + [env, file] + SplitOn(key, '/')
  {
    var inner := file + "/" + key;
    var middle := env + "/" + inner;
    NameShape(prefix, env, file, key);
    SplitSegmentThen(file, key);
    SplitSegmentThen(env, inner);
    SplitOnAppend(prefix, middle, '/');
    var p, k := SplitOn(prefix, '/'), SplitOn(key, '/');
    assert p + ([env] + ([file] + k)) == p + [env, file] + k;
  }

  lemma {:induction false} NameShape(prefix: string, env: string, file: string, key: string)
    ensures prefix + "/" + env + "/" + file + "/" + key == prefix + ['/'] + (env + ['/'] + (file + ['/'] + key))
  {
  }

  /** A first segment without "/" splits off as one piece. */
  lemma {:induction false} SplitSegmentThen(seg: string, rest: string)
    requires '/' !in seg
    ensures SplitOn(seg + ['/'] + rest, '/') == [seg] + SplitOn(rest, '/')
  {
    SplitOnAppend(seg, rest, '/');
    SplitOnWithoutSep(seg, '/');
  }

  /** `s.split('/')` keeps every piece of a string that ends in a segment. */
  lemma {:induction false} RubySplitOfSegmentEnd(s: string)
    requires |s| > 0 && s[|s| - 1] != '/'
    ensures RubySplit(s) == SplitOn(s, '/')
  {
    SplitOnLast(s, '/');
  }

  /** The header of a name under the restorer's own prefix, environment and filename
      checks out, and what is left is the key's segments. */
  lemma {:induction false} HeaderOfPath(r: Restorer, key: string)
    requires |r.prefix| > 0 && r.prefix[|r.prefix| - 1] != '/'
    requires '/' !in r.environment && '/' !in r.filename
    requires |key| > 0 && key[|key| - 1] != '/'
    ensures Header(r, r.prefix + "/" + r.environment + "/" + r.filename + "/" + key) == Ok(SplitOn(key, '/'))
  {
    HeaderOfName(r, r.environment, r.filename, key);
  }

  /** The header check on a name `prefix/env/file/key`: the filename is compared first,
      then the environment. */
  lemma {:induction false} HeaderOfName(r: Restorer, env: string, file: string, key: string)
    requires |r.prefix| > 0 && r.prefix[|r.prefix| - 1] != '/'
    requires '/' !in env && '/' !in file
    requires |key| > 0 && key[|key| - 1] != '/'
    ensures var h := Header(r, r.prefix + "/" + env + "/" + file + "/" + key);
            if file != r.filename then h == Err(FilenameMismatch(r.filename, Some(file)))
            else if env != r.environment then h == Err(EnvironmentMismatch(r.environment, Some(env)))
            else h == Ok(SplitOn(key, '/'))
  {
    var name := r.prefix + "/" + env + "/" + file + "/" + key;
    SplitName(r.prefix, env, file, key);
    RubySplitOfSegmentEnd(r.prefix);
    SplitOnLast(key, '/');
    var parts := SplitOn(r.prefix, '/') + [env, file] + SplitOn(key, '/');
    assert RubySplit(name) == parts;
    var n := |SplitOn(r.prefix, '/')|;
    assert parts[n] == env && parts[n + 1] == file;
    assert parts[n + 2..] == SplitOn(key, '/');
  }

  /** Parameters of the staging environment do not restore as prod ones. */
  lemma {:induction false} StagingIsNotProd()
    ensures Header(Restorer("prod", "app.yaml", "/cfg"), "/cfg/staging/app.yaml/a")
            == Err(EnvironmentMismatch("prod", Some("staging")))
  {
    var r := Restorer("prod", "app.yaml", "/cfg");
    StagingName();
    HeaderOfName(r, "staging", "app.yaml", "a");
  }

  lemma {:induction false} StagingName()
    ensures "/cfg/staging/app.yaml/a" == "/cfg" + "/" + "staging" + "/" + "app.yaml" + "/" + "a"
    ensures '/' !in "staging" && '/' !in "app.yaml"
  {
  }

  /** An environment containing `/` takes two segments of the stored name, so the segment read
      as the filename is the environment's second half, and the header is rejected unless that
      half happens to be the filename. */
  lemma {:induction false} SlashedEnvironmentNotRestored(r: Restorer, e1: string, e2: string, file: string, key: string)
    requires |r.prefix| > 0 && r.prefix[|r.prefix| - 1] != '/'
    requires r.environment == e1 + "/" + e2 && '/' !in e1 && '/' !in e2 && e2 != r.filename
    requires '/' !in file && |key| > 0 && key[|key| - 1] != '/'
    ensures Header(r, r.prefix + "/" + r.environment + "/" + file + "/" + key)
            == Err(FilenameMismatch(r.filename, Some(e2)))
  {
    var rest := file + "/" + key;
    assert r.prefix + "/" + r.environment + "/" + file + "/" + key == r.prefix + "/" + e1 + "/" + e2 + "/" + rest;
    assert rest[|rest| - 1] == key[|key| - 1];
    HeaderOfName(r, e1, e2, rest);
  }

  // ---------------------------------------------------------------------------
  // What deep_merge does to Hashes

  /** The keys of `ys` that `keys` does not hold yet, in the order of `ys`. */
  function NewKeys(keys: seq<string>, ys: seq<Member>): seq<string> {
    if |ys| == 0 then []
    else (if ys[0].key in keys then [] else [ys[0].key]) + NewKeys(keys, ys[1..])
  }

  lemma {:induction false} NewKeysIgnores(keys: seq<string>, k: string, ys: seq<Member>)
    requires k !in MemberKeys(ys)
    ensures NewKeys(keys + [k], ys) == NewKeys(keys, ys)
    decreases |ys|
  {
    if |ys| > 0 {
      assert MemberKeys(ys) == [ys[0].key] + MemberKeys(ys[1..]);
      NewKeysIgnores(keys, k, ys[1..]);
    }
  }

  lemma {:induction false} LookupAppend(ms: seq<Member>, m: Member, k: string)
    ensures Lookup(ms + [m], k) == if Lookup(ms, k).Some? then Lookup(ms, k) else if m.key == k then Some(m.val) else None
  {
    if Lookup(ms, k).None? {
      assert MemberKeys(ms + [m]) == MemberKeys(ms) + [m.key];
      if m.key == k {
        assert Member(k, Lookup(ms + [m], k).value) in ms + [m];
      }
    } else {
      assert Member(k, Lookup(ms, k).value) in ms;
      LookupFirst(ms, m, k);
    }
  }

  lemma {:induction false} LookupFirst(ms: seq<Member>, m: Member, k: string)
    requires Lookup(ms, k).Some?
    ensures Lookup(ms + [m], k) == Lookup(ms, k)
    decreases |ms|
  {
    assert (ms + [m])[0] == ms[0];
    if ms[0].key != k {
      assert (ms + [m])[1..] == ms[1..] + [m];
      LookupFirst(ms[1..], m, k);
    }
  }

  /** Member `y` of the right Hash meets a left value it cannot be merged with. */
  predicate Clash(acc: seq<Member>, y: Member) {
    Lookup(acc, y.key).Some? && DeepMerge(Lookup(acc, y.key).value, y.val).Err?
  }

  /** Some member of `ys` clashes with the left Hash `acc`. */
  predicate Clashes(acc: seq<Member>, ys: seq<Member>)
    decreases |ys|
  {
    |ys| > 0 && (Clash(acc, ys[0]) || Clashes(acc, ys[1..]))
  }

  lemma {:induction false} ClashesAgree(acc: seq<Member>, acc': seq<Member>, ys: seq<Member>)
    requires forall j :: 0 <= j < |ys| ==> Lookup(acc', ys[j].key) == Lookup(acc, ys[j].key)
    ensures Clashes(acc', ys) == Clashes(acc, ys)
    decreases |ys|
  {
    if |ys| > 0 {
      assert Lookup(acc', ys[0].key) == Lookup(acc, ys[0].key);
      forall j | 0 <= j < |ys[1..]|
        ensures Lookup(acc', ys[1..][j].key) == Lookup(acc, ys[1..][j].key)
      {
        assert ys[1..][j] == ys[j + 1];
      }
      ClashesAgree(acc, acc', ys[1..]);
    }
  }

  lemma {:induction false} DistinctTail(ys: seq<Member>)
    requires |ys| > 0 && DistinctKeys(ys)
    ensures DistinctKeys(ys[1..])
    ensures ys[0].key !in MemberKeys(ys[1..])
    ensures forall j :: 0 <= j < |ys[1..]| ==> ys[1..][j].key != ys[0].key
  {
    var rest := ys[1..];
    forall i, j | 0 <= i < j < |rest|
      ensures rest[i].key != rest[j].key
    {
      assert rest[i] == ys[i + 1] && rest[j] == ys[j + 1];
    }
    forall i | 0 <= i < |rest|
      ensures MemberKeys(rest)[i] != ys[0].key
    {
      assert rest[i] == ys[i + 1];
    }
  }

  /** The left Hash after the first member of `ys` is merged in. */
  function MergeStep(acc: seq<Member>, y: Member): seq<Member>
    requires !Clash(acc, y)
  {
    match Lookup(acc, y.key)
    case None => acc + [y]
    case Some(x) => SetMember(acc, y.key, DeepMerge(x, y.val).value)
  }

  lemma {:induction false} MergeStepLookup(acc: seq<Member>, y: Member, k: string)
    requires !Clash(acc, y)
    ensures k != y.key ==> Lookup(MergeStep(acc, y), k) == Lookup(acc, k)
    ensures Lookup(acc, y.key).None? ==> Lookup(MergeStep(acc, y), y.key) == Some(y.val)
    ensures Lookup(acc, y.key).Some? ==>
              Lookup(MergeStep(acc, y), y.key) == Some(DeepMerge(Lookup(acc, y.key).value, y.val).value)
    ensures Lookup(acc, y.key).None? ==> MemberKeys(MergeStep(acc, y)) == MemberKeys(acc) + [y.key]
    ensures Lookup(acc, y.key).Some? ==> MemberKeys(MergeStep(acc, y)) == MemberKeys(acc)
  {
    if Lookup(acc, y.key).None? {
      LookupAppend(acc, y, k);
      LookupAppend(acc, y, y.key);
      assert MemberKeys(acc + [y]) == MemberKeys(acc) + [y.key];
    }
  }

  /** A Hash merge fails exactly when some shared key's values cannot be merged. */
  lemma {:induction false} MergeFails(acc: seq<Member>, ys: seq<Member>)
    requires DistinctKeys(ys)
    ensures MergeInto(acc, ys).Err? <==> Clashes(acc, ys)
    decreases |ys|
  {
    if |ys| > 0 && !Clash(acc, ys[0]) {
      DistinctTail(ys);
      var acc' := MergeStep(acc, ys[0]);
      assert MergeInto(acc, ys) == MergeInto(acc', ys[1..]);
      MergeFails(acc', ys[1..]);
      forall j | 0 <= j < |ys[1..]|
        ensures Lookup(acc', ys[1..][j].key) == Lookup(acc, ys[1..][j].key)
      {
        MergeStepLookup(acc, ys[0], ys[1..][j].key);
      }
      ClashesAgree(acc, acc', ys[1..]);
    }
  }

  /** A merged Hash keeps the left keys in order and appends the new right keys. */
  lemma {:induction false} MergeKeys(acc: seq<Member>, ys: seq<Member>)
    requires DistinctKeys(ys)
    ensures MergeInto(acc, ys).Ok? ==> MemberKeys(MergeInto(acc, ys).value) == MemberKeys(acc) + NewKeys(MemberKeys(acc), ys)
    decreases |ys|
  {
    if |ys| > 0 && !Clash(acc, ys[0]) {
      DistinctTail(ys);
      var acc' := MergeStep(acc, ys[0]);
      assert MergeInto(acc, ys) == MergeInto(acc', ys[1..]);
      MergeKeys(acc', ys[1..]);
      MergeStepLookup(acc, ys[0], ys[0].key);
      if Lookup(acc, ys[0].key).None? {
        NewKeysIgnores(MemberKeys(acc), ys[0].key, ys[1..]);
      }
    }
  }

  /** A successful merge took its first step without a clash. */
  lemma {:induction false} MergeUnfold(acc: seq<Member>, ys: seq<Member>, r: seq<Member>)
    requires |ys| > 0 && MergeInto(acc, ys) == Ok(r)
    ensures !Clash(acc, ys[0])
    ensures MergeInto(MergeStep(acc, ys[0]), ys[1..]) == Ok(r)
  {
  }

  /** In a merged Hash a key of the left Hash only keeps its value. */
  lemma {:induction false} MergeKeepsLeft(acc: seq<Member>, ys: seq<Member>, k: string, r: seq<Member>)
    requires DistinctKeys(ys)
    requires MergeInto(acc, ys) == Ok(r)
    requires Lookup(ys, k).None?
    ensures Lookup(r, k) == Lookup(acc, k)
    decreases |ys|
  {
    if |ys| > 0 {
      MergeUnfold(acc, ys, r);
      DistinctTail(ys);
      MergeKeepsLeft(MergeStep(acc, ys[0]), ys[1..], k, r);
      MergeStepLookup(acc, ys[0], k);
    }
  }

  /** In a merged Hash a key of the right Hash only keeps its value. */
  lemma {:induction false} MergeKeepsRight(acc: seq<Member>, ys: seq<Member>, k: string, r: seq<Member>)
    requires DistinctKeys(ys)
    requires MergeInto(acc, ys) == Ok(r)
    requires Lookup(acc, k).None?
    ensures Lookup(r, k) == Lookup(ys, k)
    decreases |ys|
  {
    if |ys| > 0 {
      MergeUnfold(acc, ys, r);
      DistinctTail(ys);
      var acc' := MergeStep(acc, ys[0]);
      MergeStepLookup(acc, ys[0], k);
      if ys[0].key == k {
        MergeKeepsLeft(acc', ys[1..], k, r);
      } else {
        MergeKeepsRight(acc', ys[1..], k, r);
      }
    }
  }

  /** In a merged Hash a shared key holds the deep merge of both values. */
  lemma {:induction false} MergeShared(acc: seq<Member>, ys: seq<Member>, k: string, r: seq<Member>)
    requires DistinctKeys(ys)
    requires MergeInto(acc, ys) == Ok(r)
    requires Lookup(acc, k).Some? && Lookup(ys, k).Some?
    ensures Lookup(r, k).Some? && DeepMerge(Lookup(acc, k).value, Lookup(ys, k).value) == Ok(Lookup(r, k).value)
    decreases |ys|
  {
    if |ys| > 0 {
      MergeUnfold(acc, ys, r);
      DistinctTail(ys);
      var acc' := MergeStep(acc, ys[0]);
      MergeStepLookup(acc, ys[0], k);
      if ys[0].key == k {
        MergeKeepsLeft(acc', ys[1..], k, r);
      } else {
        MergeShared(acc', ys[1..], k, r);
      }
    }
  }

  // ---------------------------------------------------------------------------
  // What to_yaml builds

  /** A path with every index-looking segment read as position 0. */
  function IndexAsZero(tail: seq<string>): (r: seq<string>)
    ensures |r| == |tail|
    ensures forall i :: 0 <= i < |tail| ==> r[i] == if IsIndexSegment(tail[i]) then "0" else tail[i]
  {
    seq(|tail|, i requires 0 <= i < |tail| => if IsIndexSegment(tail[i]) then "0" else tail[i])
  }

  /** The fragment of one parameter holds exactly one leaf, the value as a string, at the
      path of its tail: the index segments become position 0 of one-element Arrays. */
  lemma {:induction false} FoldLeaves(tail: seq<string>, value: string)
    ensures Leaves(Fold(tail, value)) == [(IndexAsZero(tail), Str(value))]
    decreases |tail|
  {
    if |tail| > 0 {
      var inner := Fold(tail[1..], value);
      FoldLeaves(tail[1..], value);
      assert IndexAsZero(tail) == [IndexAsZero(tail)[0]] + IndexAsZero(tail[1..]);
      if IsIndexSegment(tail[0]) {
        assert NatToString(0) == "0";
        assert ItemLeaves([inner], 0) == Under("0", Leaves(inner)) + ItemLeaves([inner], 1);
      } else {
        assert [Member(tail[0], inner)][1..] == [];
        assert MemberLeaves([Member(tail[0], inner)]) == Under(tail[0], Leaves(inner)) + MemberLeaves([]);
      }
    }
  }

  /** A segment without a digit is never read as a list position. */
  lemma {:induction false} NoDigitNotIndex(seg: string)
    requires forall i :: 0 <= i < |seg| ==> !IsDigit(seg[i])
    ensures !IsIndexSegment(seg)
  {
    forall i, j | 0 <= i < j <= |seg| ensures !SignedDigits(seg[i..j]) {
      var t := seg[i..j];
      assert t[0] == seg[i];
      if |t| >= 2 {
        assert t[1..][0] == seg[i + 1];
      }
    }
  }

  /** The parameters `k/idx[i]` of one Array, fetched in the order given. */
  function ItemParams(r: Restorer, k: string, idx: seq<string>, vals: seq<string>): (ps: seq<Param>)
    requires |idx| == |vals|
    ensures |ps| == |idx|
  {
    seq(|idx|, i requires 0 <= i < |idx| => Param(r.prefix + "/" + r.environment + "/" + r.filename + "/" + (k + "/" + idx[i]), vals[i]))
  }

  function StrLeaves(vals: seq<string>): (xs: seq<Value>)
    ensures |xs| == |vals|
  {
    seq(|vals|, i requires 0 <= i < |vals| => Leaf(Str(vals[i])))
  }

  /** Requirements on a restorer for the names it reads to split back as written. */
  predicate PlainScope(r: Restorer) {
    && |r.prefix| > 0 && r.prefix[|r.prefix| - 1] != '/'
    && '/' !in r.environment && '/' !in r.filename
  }

  /** A segment that reads back as a Hash key. */
  predicate PlainSegment(seg: string) {
    |seg| > 0 && '/' !in seg && !IsIndexSegment(seg)
  }

  /** A segment that reads back as a list position. */
  predicate IndexSegment(seg: string) {
    |seg| > 0 && '/' !in seg && IsIndexSegment(seg)
  }

  lemma {:induction false} ItemHeader(r: Restorer, k: string, seg: string)
    requires PlainScope(r) && PlainSegment(k) && IndexSegment(seg)
    ensures Header(r, r.prefix + "/" + r.environment + "/" + r.filename + "/" + (k + "/" + seg)) == Ok([k, seg])
  {
    SplitTwo(k, seg);
    HeaderOfPath(r, k + "/" + seg);
  }

  lemma {:induction false} SplitTwo(a: string, b: string)
    requires '/' !in a && '/' !in b
    ensures SplitOn(a + "/" + b, '/') == [a, b]
  {
    SplitOnAppend(a, b, '/');
    SplitOnWithoutSep(a, '/');
    SplitOnWithoutSep(b, '/');
  }

  /** The fragment of an Array element's parameter, and how it merges into an Array
      under the same key. */
  lemma {:induction false} ItemFragment(k: string, seg: string, v: string, acc: seq<Value>)
    requires PlainSegment(k) && IndexSegment(seg)
    ensures Fold([k, seg], v) == Map([Member(k, List([Leaf(Str(v))]))])
    ensures DeepMerge(Map([Member(k, List(acc))]), Fold([k, seg], v))
            == Ok(Map([Member(k, List(acc + [Leaf(Str(v))]))]))
    ensures DeepMerge(Map([]), Fold([k, seg], v)) == Ok(Fold([k, seg], v))
  {
    assert [k, seg][1..] == [seg] && [seg][1..] == [];
    assert Fold([seg], v) == List([Leaf(Str(v))]);
    var frag := Map([Member(k, List([Leaf(Str(v))]))]);
    assert Fold([k, seg], v) == frag;
    var xs := [Member(k, List(acc))];
    assert Lookup(xs, k) == Some(List(acc));
    assert DeepMerge(List(acc), List([Leaf(Str(v))])) == Ok(List(acc + [Leaf(Str(v))]));
    assert SetMember(xs, k, List(acc + [Leaf(Str(v))])) == [Member(k, List(acc + [Leaf(Str(v))]))];
    assert frag.members[1..] == [];
    assert MergeInto(xs, frag.members) == MergeInto([Member(k, List(acc + [Leaf(Str(v))]))], []);
    assert Lookup([], k) == None;
    assert [] + [frag.members[0]] == frag.members;
    assert MergeInto([], frag.members) == MergeInto(frag.members, []) == Ok(frag.members);
  }

  lemma {:induction false} ItemsAccumulate(r: Restorer, k: string, acc: seq<Value>, idx: seq<string>, vals: seq<string>)
    requires PlainScope(r) && PlainSegment(k)
    requires |idx| == |vals|
    requires forall i :: 0 <= i < |idx| ==> IndexSegment(idx[i])
    ensures YamlFrom(r, Map([Member(k, List(acc))]), ItemParams(r, k, idx, vals))
            == Ok(Map([Member(k, List(acc + StrLeaves(vals)))]))
    decreases |idx|
  {
    if |idx| == 0 {
      assert acc + StrLeaves(vals) == acc;
    } else {
      var x := Leaf(Str(vals[0]));
      ItemStep(r, k, acc, idx, vals);
      ItemsAccumulate(r, k, acc + [x], idx[1..], vals[1..]);
      StrLeavesCons(vals);
      assert acc + [x] + StrLeaves(vals[1..]) == acc + ([x] + StrLeaves(vals[1..]));
    }
  }

  /** The first parameter of an Array appends its value to the Array restored so far. */
  lemma {:induction false} ItemStep(r: Restorer, k: string, acc: seq<Value>, idx: seq<string>, vals: seq<string>)
    requires PlainScope(r) && PlainSegment(k)
    requires |idx| == |vals| > 0
    requires IndexSegment(idx[0])
    ensures YamlFrom(r, Map([Member(k, List(acc))]), ItemParams(r, k, idx, vals))
            == YamlFrom(r, Map([Member(k, List(acc + [Leaf(Str(vals[0]))]))]), ItemParams(r, k, idx[1..], vals[1..]))
  {
    ItemHeader(r, k, idx[0]);
    ItemFragment(k, idx[0], vals[0], acc);
    assert ItemParams(r, k, idx, vals)[1..] == ItemParams(r, k, idx[1..], vals[1..]);
  }

  lemma {:induction false} StrLeavesCons(vals: seq<string>)
    requires |vals| > 0
    ensures StrLeaves(vals) == [Leaf(Str(vals[0]))] + StrLeaves(vals[1..])
  {
    assert forall i :: 1 <= i < |vals| ==> vals[1..][i - 1] == vals[i];
  }

  /** The elements of a restored Array come in fetch order, whatever positions their
      names carry: index segments only say "an element of an Array". */
  lemma {:induction false} ListInFetchOrder(r: Restorer, k: string, idx: seq<string>, vals: seq<string>)
    requires PlainScope(r) && PlainSegment(k)
    requires |idx| == |vals| > 0
    requires forall i :: 0 <= i < |idx| ==> IndexSegment(idx[i])
    ensures ToYaml(r, ItemParams(r, k, idx, vals)) == Ok(Map([Member(k, List(StrLeaves(vals)))]))
  {
    ItemHeader(r, k, idx[0]);
    ItemFragment(k, idx[0], vals[0], []);
    assert ItemParams(r, k, idx, vals)[1..] == ItemParams(r, k, idx[1..], vals[1..]);
    ItemsAccumulate(r, k, [Leaf(Str(vals[0]))], idx[1..], vals[1..]);
    StrLeavesCons(vals);
  }

  lemma {:induction false} DigitSegments()
    ensures IndexSegment("0") && IndexSegment("1")
  {
    IndexSegmentOfNat(0);
    IndexSegmentOfNat(1);
    assert NatToString(0) == "0" && NatToString(1) == "1";
  }

  /** Fetched as `k/1` before `k/0`, the two elements come back swapped. */
  lemma {:induction false} OutOfOrderIndices(r: Restorer, k: string, v0: string, v1: string)
    requires PlainScope(r) && PlainSegment(k)
    ensures var dir := r.prefix + "/" + r.environment + "/" + r.filename + "/";
            ToYaml(r, [Param(dir + (k + "/1"), v1), Param(dir + (k + "/0"), v0)])
            == Ok(Map([Member(k, List([Leaf(Str(v1)), Leaf(Str(v0))]))]))
  {
    DigitSegments();
    ListInFetchOrder(r, k, ["1", "0"], [v1, v0]);
    var dir := r.prefix + "/" + r.environment + "/" + r.filename + "/";
    var ps := ItemParams(r, k, ["1", "0"], [v1, v0]);
    assert ps[0] == Param(dir + (k + "/1"), v1);
    assert ps[1] == Param(dir + (k + "/0"), v0);
    assert ps == [Param(dir + (k + "/1"), v1), Param(dir + (k + "/0"), v0)];
    assert StrLeaves([v1, v0]) == [Leaf(Str(v1)), Leaf(Str(v0))];
  }
}
