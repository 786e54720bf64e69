/** Decimal printing and strings.Join, with what makes them injective. */
module Text {

  predicate Digits(s: string) {
    forall i :: 0 <= i < |s| ==> '0' <= s[i] <= '9'
  }

  function Digit(d: nat): char
    requires d < 10
  {
    '0' + d as char
  }

  function Itoa(n: nat): (s: string)
    ensures s != "" && Digits(s)
  {
    if n < 10 then [Digit(n)] else Itoa(n / 10) + [Digit(n % 10)]
  }

  function Atoi(s: string): nat
    requires Digits(s)
    decreases |s|
  {
    if s == "" then 0
    else 10 * Atoi(s[..|s| - 1]) + (s[|s| - 1] as int - '0' as int)
  }

  /** The digits of n, without a leading zero. */
  lemma {:induction false} AtoiItoa(n: nat)
    ensures Atoi(Itoa(n)) == n
    ensures if n < 10 then |Itoa(n)| == 1 else |Itoa(n)| > 1 && Itoa(n)[0] != '0'
  {
    if n >= 10 {
      var s := Itoa(n);
      assert s[..|s| - 1] == Itoa(n / 10);
      AtoiItoa(n / 10);
    }
  }

  function Decimals(values: seq<nat>): (strs: seq<string>)
    ensures |strs| == |values|
    ensures forall i :: 0 <= i < |values| ==> strs[i] == Itoa(values[i])
  {
    seq(|values|, i requires 0 <= i < |values| => Itoa(values[i]))
  }

  lemma DecimalsInjective(a: seq<nat>, b: seq<nat>)
    requires Decimals(a) == Decimals(b)
    ensures a == b
  {
    assert |a| == |Decimals(a)|;
    forall i | 0 <= i < |a| ensures a[i] == b[i] {
      assert Decimals(a)[i] == Decimals(b)[i];
      AtoiItoa(a[i]);
      AtoiItoa(b[i]);
    }
  }

  function Join(strs: seq<string>, sep: char): string {
    if |strs| == 0 then ""
    else if |strs| == 1 then strs[0]
    else strs[0] + [sep] + Join(strs[1..], sep)
  }

  ghost predicate Without(strs: seq<string>, sep: char) {
    forall s :: s in strs ==> sep !in s
  }

  /** The text up to the first separator determines the first string. */
  lemma FirstPart(x: string, y: string, u: string, v: string, sep: char)
    requires sep !in x && sep !in y
    requires x + [sep] + u == y + [sep] + v
    ensures x == y && u == v
  {
    var s := x + [sep] + u;
    assert s[|x|] == sep && s[|y|] == sep;
    assert s[..|x|] == x && s[..|y|] == y;
    assert |x| == |y|;
    assert x == s[..|x|] == y;
    assert u == s[|x| + 1..] == v;
  }

  lemma {:induction false} JoinInjective(a: seq<string>, b: seq<string>, sep: char)
    requires a != [] && b != [] && Without(a, sep) && Without(b, sep)
    requires Join(a, sep) == Join(b, sep)
    ensures a == b
    decreases |a|
  {
    assert a[0] in a && b[0] in b;
    if |a| > 1 { assert Join(a, sep)[|a[0]|] == sep; }
    if |b| > 1 { assert Join(b, sep)[|b[0]|] == sep; }
    if |a| > 1 && |b| > 1 {
      FirstPart(a[0], b[0], Join(a[1..], sep), Join(b[1..], sep), sep);
      JoinInjective(a[1..], b[1..], sep);
      assert a == [a[0]] + a[1..] && b == [b[0]] + b[1..];
    }
  }

  lemma JoinSplit(a: seq<string>, sep: char)
    requires |a| > 1
    ensures Join(a, sep) == a[0] + [sep] + Join(a[1..], sep)
  {}

  /** One part of known length may hold the separator: the parts around it are still told apart. */
  lemma {:induction false} JoinAround(a: seq<string>, b: seq<string>, k: nat, sep: char)
    requires k + 1 < |a| == |b| && |a[k]| == |b[k]|
    requires Without(a[..k], sep) && Without(b[..k], sep) && Without(a[k + 1..], sep) && Without(b[k + 1..], sep)
    requires Join(a, sep) == Join(b, sep)
    ensures a == b
    decreases k
  {
    JoinSplit(a, sep);
    JoinSplit(b, sep);
    assert a == [a[0]] + a[1..] && b == [b[0]] + b[1..];
    if k == 0 {
      var u, v := [sep] + Join(a[1..], sep), [sep] + Join(b[1..], sep);
      assert Join(a, sep) == a[0] + u && Join(b, sep) == b[0] + v;
      SameLength(a[0], b[0], u, v);
      assert u[1..] == Join(a[1..], sep) && v[1..] == Join(b[1..], sep);
      JoinInjective(a[1..], b[1..], sep);
    } else {
      assert a[..k][0] == a[0] && b[..k][0] == b[0] && a[..k][0] in a[..k] && b[..k][0] in b[..k];
      FirstPart(a[0], b[0], Join(a[1..], sep), Join(b[1..], sep), sep);
      assert a[1..][..k - 1] == a[..k][1..] && b[1..][..k - 1] == b[..k][1..];
      assert a[1..][k..] == a[k + 1..] && b[1..][k..] == b[k + 1..];
      JoinAround(a[1..], b[1..], k - 1, sep);
    }
  }

  lemma SameLength(x: string, y: string, u: string, v: string)
    requires |x| == |y| && x + u == y + v
    ensures x == y && u == v
  {
    assert x == (x + u)[..|x|] && y == (y + v)[..|y|];
    assert u == (x + u)[|x|..] && v == (y + v)[|y|..];
  }

  function Concat(parts: seq<string>): string {
    if parts == [] then "" else parts[0] + Concat(parts[1..])
  }

  lemma NonEmptyJoin(strs: seq<string>, sep: char)
    requires strs != [] && strs[0] != ""
    ensures Join(strs, sep) != ""
  {}

  /** A printed list of numbers can be read back in one way only. */
  lemma NumberListInjective(a: seq<nat>, b: seq<nat>, sep: char)
    requires !('0' <= sep <= '9')
    ensures Join(Decimals(a), sep) == Join(Decimals(b), sep) <==> a == b
  {
    if Join(Decimals(a), sep) == Join(Decimals(b), sep) {
      if a != [] { NonEmptyJoin(Decimals(a), sep); }
      if b != [] { NonEmptyJoin(Decimals(b), sep); }
      if a != [] && b != [] {
        JoinInjective(Decimals(a), Decimals(b), sep);
        DecimalsInjective(a, b);
      }
    }
  }

  /** A list joined with one separator never shows another that is not a digit. */
  lemma {:induction false} JoinAvoids(strs: seq<string>, sep: char, other: char)
    requires Without(strs, other) && other != sep
    ensures other !in Join(strs, sep)
  {
    if |strs| > 1 {
      assert Without(strs[1..], other);
      JoinAvoids(strs[1..], sep, other);
    }
  }

  lemma NumberListAvoids(values: seq<nat>, sep: char, other: char)
    requires other != sep && !('0' <= other <= '9')
    ensures other !in Join(Decimals(values), sep)
  {
    JoinAvoids(Decimals(values), sep, other);
  }
}
