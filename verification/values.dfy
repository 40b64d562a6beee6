/** The parsed configuration tree that the loader walks and the restorer rebuilds. */
module Values {
  import opened Results
  import opened Text

  /** A non-nil, non-container value of the parsed file. A Float carries the text
      Ruby's Float#to_s renders for it. */
  datatype Scalar = Str(s: string) | Int(i: int) | Bool(b: bool) | Float(text: string)

  /** Ruby's `to_s` on a scalar. */
  function ToS(x: Scalar): string {
    match x
    case Str(s) => s
    case Int(i) => IntToString(i)
    case Bool(b) => if b then "true" else "false"
    case Float(t) => t
  }

  /** Nil, a scalar, a Hash (an ordered association list) or an Array. */
  datatype Value = Nil | Leaf(x: Scalar) | Map(members: seq<Member>) | List(items: seq<Value>)

  datatype Member = Member(key: string, val: Value)

  function MemberKeys(ms: seq<Member>): (ks: seq<string>)
    ensures |ks| == |ms|
    ensures forall i :: 0 <= i < |ms| ==> ks[i] == ms[i].key
  {
    seq(|ms|, i requires 0 <= i < |ms| => ms[i].key)
  }

  lemma {:induction false} MemberKeysCons(m: Member, rest: seq<Member>)
    ensures MemberKeys([m] + rest) == [m.key] + MemberKeys(rest)
  {
    var a, b := MemberKeys([m] + rest), [m.key] + MemberKeys(rest);
    forall i | 0 <= i < |a|
      ensures a[i] == b[i]
    {
      if i > 0 {
        assert ([m] + rest)[i] == rest[i - 1];
      }
    }
  }

  predicate DistinctKeys(ms: seq<Member>) {
    forall i, j :: 0 <= i < j < |ms| ==> ms[i].key != ms[j].key
  }

  /** `h[k]` on a Hash value. */
  function Lookup(ms: seq<Member>, k: string): (r: Option<Value>)
    ensures r.None? <==> k !in MemberKeys(ms)
    ensures r.Some? ==> Member(k, r.value) in ms
  {
    if |ms| == 0 then None
    else if ms[0].key == k then Some(ms[0].val)
    else
      assert MemberKeys(ms) == [ms[0].key] + MemberKeys(ms[1..]);
      Lookup(ms[1..], k)
  }
}
