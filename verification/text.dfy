/** String primitives of the Ruby runtime that the loader and the restorer rely on:
    Integer#to_s, String#split with a one-character separator, and the two
    line-anchored regular expressions of lib/configruous.rb. */
module Text {

  predicate IsDigit(c: char) {
    '0' <= c <= '9'
  }

  predicate AllDigits(s: string) {
    forall i :: 0 <= i < |s| ==> IsDigit(s[i])
  }

  function DigitChar(d: nat): (c: char)
    requires d < 10
    ensures IsDigit(c)
    ensures c as int - '0' as int == d
  {
    ('0' as int + d) as char
  }

  /** Integer#to_s of a non-negative integer: plain decimal digits, no sign, and a
      leading zero only for zero itself. */
  function NatToString(n: nat): (s: string)
    ensures 1 <= |s| && AllDigits(s)
    ensures s[0] == '0' <==> n == 0
    decreases n
  {
    if n < 10 then [DigitChar(n)] else NatToString(n / 10) + [DigitChar(n % 10)]
  }

  /** Integer#to_s of any integer: a minus sign in front of negative values. */
  function IntToString(i: int): string {
    if i < 0 then "-" + NatToString(-i) else NatToString(i)
  }

  /** Reads a string of decimal digits back as a number. */
  function ParseDigits(s: string): nat
    requires AllDigits(s)
  {
    if |s| == 0 then 0
    else ParseDigits(s[..|s| - 1]) * 10 + (s[|s| - 1] as int - '0' as int)
  }

  lemma {:induction false} NatToStringParses(n: nat)
    ensures ParseDigits(NatToString(n)) == n
    decreases n
  {
    var s := NatToString(n);
    if n >= 10 {
      NatToStringParses(n / 10);
      assert s[..|s| - 1] == NatToString(n / 10);
    }
  }

  /** Distinct list positions render as distinct path segments. */
  lemma {:induction false} NatToStringInjective(a: nat, b: nat)
    ensures NatToString(a) == NatToString(b) ==> a == b
  {
    NatToStringParses(a);
    NatToStringParses(b);
  }

  /** Every piece between two occurrences of `sep`, empty pieces included. */
  function SplitOn(s: string, sep: char): (parts: seq<string>)
    ensures 1 <= |parts|
    ensures forall i :: 0 <= i < |parts| ==> sep !in parts[i]
    decreases |s|
  {
    if |s| == 0 then [""]
    else
      var rest := SplitOn(s[1..], sep);
      if s[0] == sep then [""] + rest else [[s[0]] + rest[0]] + rest[1..]
  }

  /** Glues the pieces back together with `sep` between neighbours. */
  function JoinOn(parts: seq<string>, sep: char): string
    requires 1 <= |parts|
  {
    if |parts| == 1 then parts[0] else parts[0] + [sep] + JoinOn(parts[1..], sep)
  }

  lemma {:induction false} SplitOnWithoutSep(s: string, sep: char)
    requires sep !in s
    ensures SplitOn(s, sep) == [s]
    decreases |s|
  {
    if |s| > 0 {
      SplitOnWithoutSep(s[1..], sep);
      assert [s[0]] + s[1..] == s;
    }
  }

  /** Splitting distributes over a separator placed between two strings. */
  lemma {:induction false} SplitOnAppend(a: string, b: string, sep: char)
    ensures SplitOn(a + [sep] + b, sep) == SplitOn(a, sep) + SplitOn(b, sep)
    decreases |a|
  {
    var s := a + [sep] + b;
    if |a| == 0 {
      assert s == [sep] + b;
      assert s[1..] == b;
    } else {
      assert s[1..] == a[1..] + [sep] + b;
      SplitOnAppend(a[1..], b, sep);
    }
  }

  lemma {:induction false} JoinSplit(s: string, sep: char)
    ensures JoinOn(SplitOn(s, sep), sep) == s
    decreases |s|
  {
    if |s| > 0 {
      JoinSplit(s[1..], sep);
      var rest := SplitOn(s[1..], sep);
      if s[0] != sep && |rest| > 1 {
        assert ([[s[0]] + rest[0]] + rest[1..])[1..] == rest[1..];
      }
      assert [s[0]] + s[1..] == s;
    }
  }

  lemma {:induction false} SplitJoin(parts: seq<string>, sep: char)
    requires 1 <= |parts|
    requires forall i :: 0 <= i < |parts| ==> sep !in parts[i]
    ensures SplitOn(JoinOn(parts, sep), sep) == parts
    decreases |parts|
  {
    if |parts| == 1 {
      SplitOnWithoutSep(parts[0], sep);
    } else {
      SplitJoin(parts[1..], sep);
      SplitOnAppend(parts[0], JoinOn(parts[1..], sep), sep);
      SplitOnWithoutSep(parts[0], sep);
      assert [parts[0]] + parts[1..] == parts;
    }
  }

  /** The longest prefix of `parts` that does not end in an empty piece. */
  function DropTrailingEmpty(parts: seq<string>): (r: seq<string>)
    ensures r <= parts
    ensures |r| == 0 || r[|r| - 1] != ""
    ensures forall i :: |r| <= i < |parts| ==> parts[i] == ""
  {
    if |parts| == 0 then []
    else if parts[|parts| - 1] == "" then DropTrailingEmpty(parts[..|parts| - 1])
    else parts
  }

  /** String#split('/') in Ruby: leading empty pieces stay, trailing ones are dropped. */
  function RubySplit(s: string): seq<string> {
    DropTrailingEmpty(SplitOn(s, '/'))
  }

  /** A character of the class `[A-Za-z0-9._\-/]` that parameter keys are checked against. */
  predicate KeyChar(c: char) {
    ('A' <= c <= 'Z') || ('a' <= c <= 'z') || IsDigit(c) || c == '.' || c == '_' || c == '-' || c == '/'
  }

  predicate AllKeyChars(s: string) {
    forall i :: 0 <= i < |s| ==> KeyChar(s[i])
  }

  /** The whole key is a non-empty run of key characters. */
  predicate ValidKey(k: string) {
    |k| > 0 && AllKeyChars(k)
  }

  /** Ruby's `^`: the start of the string or the position after a newline. */
  predicate LineStart(s: string, i: int)
    requires 0 <= i <= |s|
  {
    i == 0 || s[i - 1] == '\n'
  }

  /** Ruby's `$`: the end of the string or the position of a newline. */
  predicate LineEnd(s: string, j: int)
    requires 0 <= j <= |s|
  {
    j == |s| || s[j] == '\n'
  }

  /** `k =~ /^[A-Za-z0-9\._\-\/]+$/` as Ruby evaluates it: some line of `k` is a
      non-empty run of key characters. */
  predicate KeyCheckAsWritten(k: string) {
    exists i, j | 0 <= i < j <= |k| :: LineStart(k, i) && LineEnd(k, j) && AllKeyChars(k[i..j])
  }

  /** An optional sign followed by at least one digit. */
  predicate SignedDigits(t: string) {
    || (1 <= |t| && AllDigits(t))
    || (2 <= |t| && (t[0] == '-' || t[0] == '+') && AllDigits(t[1..]))
  }

  /** `seg =~ /^[-+]?[0-9]([0-9]*)?$/` as Ruby evaluates it: some line of `seg` is a
      signed run of digits. Such a segment is read back as a list position. */
  predicate IsIndexSegment(seg: string) {
    exists i, j | 0 <= i < j <= |seg| :: LineStart(seg, i) && LineEnd(seg, j) && SignedDigits(seg[i..j])
  }

  /** The segment a list position is flattened to is read back as a list position. */
  lemma {:induction false} IndexSegmentOfNat(n: nat)
    ensures IsIndexSegment(NatToString(n))
  {
    var s := NatToString(n);
    assert s[0..|s|] == s;
    assert LineStart(s, 0) && LineEnd(s, |s|) && SignedDigits(s[0..|s|]);
  }

  /** Valid keys pass the key check as written. */
  lemma {:induction false} ValidKeyPassesCheck(k: string)
    requires ValidKey(k)
    ensures KeyCheckAsWritten(k)
  {
    assert k[0..|k|] == k;
    assert LineStart(k, 0) && LineEnd(k, |k|) && AllKeyChars(k[0..|k|]);
  }

  /** On a key without a newline the key check as written is exactly ValidKey. */
  lemma {:induction false} KeyCheckWithoutNewline(k: string)
    requires '\n' !in k
    ensures KeyCheckAsWritten(k) <==> ValidKey(k)
  {
    if KeyCheckAsWritten(k) {
      var i, j :| 0 <= i < j <= |k| && LineStart(k, i) && LineEnd(k, j) && AllKeyChars(k[i..j]);
      assert forall m :: 0 <= m < |k| ==> k[m] != '\n';
      assert i == 0 && j == |k|;
      assert k[i..j] == k;
    }
    if ValidKey(k) {
      ValidKeyPassesCheck(k);
    }
  }

  /** The key check as written lets through a key holding characters outside the class,
      as long as one of its lines is clean. */
  lemma {:induction false} KeyCheckAcceptsNewlineKey()
    ensures KeyCheckAsWritten("a\n&&")
    ensures !ValidKey("a\n&&")
  {
    var k := "a\n&&";
    assert k[0..1] == "a";
    assert LineStart(k, 0) && LineEnd(k, 1) && AllKeyChars(k[0..1]);
    assert !KeyChar(k[1]);
  }
}
