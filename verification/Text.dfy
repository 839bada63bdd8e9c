/** Byte strings: upper-casing, decimal numbers as std::to_string writes and
    std::stoi / std::stoll read them, and the byte order std::map and std::set
    iterate in. */
module Text {

  datatype Option<+T> = None | Some(value: T)

  /** A command as its list of arguments, the name first. */
  type Command = seq<string>

  const INT_MAX: int := 0x7FFF_FFFF
  const INT_MIN: int := -0x8000_0000
  const LLONG_MAX: int := 0x7FFF_FFFF_FFFF_FFFF
  const LLONG_MIN: int := -0x8000_0000_0000_0000

  // ---------- upper case ----------

  function Upper(c: char): char {
    if 'a' <= c <= 'z' then (c as int - 32) as char else c
  }

  function ToUpper(s: string): string {
    seq(|s|, i requires 0 <= i < |s| => Upper(s[i]))
  }

  /** The in-place upper-casing loop each command runs over its own name. */
  method UpperCase(s: string) returns (r: string)
    ensures r == ToUpper(s)
  {
    r := s;
    for i := 0 to |s|
      invariant |r| == |s|
      invariant forall j :: 0 <= j < i ==> r[j] == Upper(s[j])
      invariant forall j :: i <= j < |s| ==> r[j] == s[j]
    {
      r := r[i := Upper(r[i])];
    }
  }

  // ---------- decimal numbers ----------

  predicate IsDigit(c: char) { '0' <= c <= '9' }

  predicate IsSpace(c: char) {
    c == ' ' || 9 <= c as int <= 13
  }

  function Digits(n: nat): string {
    if n < 10 then [(48 + n) as char] else Digits(n / 10) + [(48 + n % 10) as char]
  }

  /** std::to_string */
  function ToString(n: int): string {
    if n < 0 then "-" + Digits(-n) else Digits(n)
  }

  function SkipSpace(s: string): string {
    if s != "" && IsSpace(s[0]) then SkipSpace(s[1..]) else s
  }

  function DigitRun(s: string): (d: string)
    ensures forall i :: 0 <= i < |d| ==> IsDigit(d[i])
  {
    if s != "" && IsDigit(s[0]) then [s[0]] + DigitRun(s[1..]) else ""
  }

  function DigitsValue(d: string): nat
    requires forall i :: 0 <= i < |d| ==> IsDigit(d[i])
  {
    if d == "" then 0
    else
      assert IsDigit(d[|d| - 1]);
      10 * DigitsValue(d[..|d| - 1]) + (d[|d| - 1] as int - 48)
  }

  /** What strtol reads: spaces, a sign, then the longest run of digits; the
      rest of the string is ignored and no digit at all is an error. */
  function ReadInteger(s: string): Option<int> {
    var t := SkipSpace(s);
    var negative := t != "" && t[0] == '-';
    var signed := t != "" && (t[0] == '-' || t[0] == '+');
    var d := DigitRun(if signed then t[1..] else t);
    if d == "" then None
    else
      var magnitude: int := DigitsValue(d);
      Some(if negative then -magnitude else magnitude)
  }

  /** std::stoi, with its two exceptions as None. */
  function Stoi(s: string): Option<int> {
    match ReadInteger(s)
    case Some(n) => if INT_MIN <= n <= INT_MAX then Some(n) else None
    case None => None
  }

  /** std::stoll, with its two exceptions as None. */
  function Stoll(s: string): Option<int> {
    match ReadInteger(s)
    case Some(n) => if LLONG_MIN <= n <= LLONG_MAX then Some(n) else None
    case None => None
  }

  lemma {:induction false} DigitsRead(n: nat)
    ensures Digits(n) != ""
    ensures forall i :: 0 <= i < |Digits(n)| ==> IsDigit(Digits(n)[i])
    ensures DigitsValue(Digits(n)) == n
  {
    if n >= 10 {
      DigitsRead(n / 10);
      var d := Digits(n);
      assert d[..|d| - 1] == Digits(n / 10);
    }
  }

  lemma {:induction false} DigitRunOfDigits(d: string)
    requires forall i :: 0 <= i < |d| ==> IsDigit(d[i])
    ensures DigitRun(d) == d
  {
    if d != "" {
      DigitRunOfDigits(d[1..]);
    }
  }

  /** What is read: any space, a sign or none, digits, and then whatever is not a digit. */
  lemma NumberLaw(space: string, sign: string, n: nat, rest: string)
    requires forall i :: 0 <= i < |space| ==> space[i] as int in [32, 9, 10, 11, 12, 13]
    requires sign == "" || sign == "+" || sign == "-"
    requires rest == "" || !('0' <= rest[0] <= '9')
    ensures var m: int := n;
            ReadInteger(space + sign + Digits(n) + rest) == Some(if sign == "-" then -m else m)
  {
    hide Digits, DigitsValue, SkipSpace, DigitRun;
    DigitsRead(n);
    var d := Digits(n);
    DigitsThenRest(d, rest);
    var t := sign + d + rest;
    assert space + sign + d + rest == space + t;
    assert t[0] == if sign == "" then d[0] else sign[0];
    SpaceSkipped(space, t);
    if sign != "" { assert t[1..] == d + rest; } else { assert t == d + rest; }
  }

  lemma {:induction false} SpaceSkipped(space: string, t: string)
    requires forall i :: 0 <= i < |space| ==> IsSpace(space[i])
    requires t != "" && !IsSpace(t[0])
    ensures SkipSpace(space + t) == t
  {
    if space == "" {
      assert space + t == t;
    } else {
      assert (space + t)[1..] == space[1..] + t;
      SpaceSkipped(space[1..], t);
    }
  }

  lemma {:induction false} DigitsThenRest(d: string, rest: string)
    requires forall i :: 0 <= i < |d| ==> IsDigit(d[i])
    requires rest == "" || !IsDigit(rest[0])
    ensures DigitRun(d + rest) == d
  {
    if d == "" {
      assert d + rest == rest;
    } else {
      assert (d + rest)[1..] == d[1..] + rest;
      DigitsThenRest(d[1..], rest);
    }
  }

  /** A star ends a number, and what follows it does not matter. */
  lemma StarEndsNumber(s: string, rest: string)
    ensures Stoi(s + "*" + rest) == Stoi(s)
  {
    StarEndsSpace(s, rest);
    var t := SkipSpace(s);
    var u := t + "*" + rest;
    StarEndsDigits(t, rest);
    if t != "" {
      StarEndsDigits(t[1..], rest);
      assert u[1..] == t[1..] + "*" + rest;
    }
  }

  lemma {:induction false} StarEndsSpace(s: string, rest: string)
    ensures SkipSpace(s + "*" + rest) == SkipSpace(s) + "*" + rest
  {
    if s != "" {
      assert (s + "*" + rest)[1..] == s[1..] + "*" + rest;
      StarEndsSpace(s[1..], rest);
    }
  }

  lemma {:induction false} StarEndsDigits(s: string, rest: string)
    ensures DigitRun(s + "*" + rest) == DigitRun(s)
  {
    if s != "" {
      assert (s + "*" + rest)[1..] == s[1..] + "*" + rest;
      StarEndsDigits(s[1..], rest);
    }
  }

  /** Reading back what to_string wrote. */
  lemma ReadToString(n: int)
    ensures ReadInteger(ToString(n)) == Some(n)
  {
    hide Digits, DigitsValue, DigitRun;
    var m := if n < 0 then -n else n;
    DigitsRead(m);
    DigitRunOfDigits(Digits(m));
    var t := ToString(n);
    if n < 0 {
      assert t[1..] == Digits(m);
    } else {
      assert IsDigit(t[0]);
    }
  }

  lemma StoiToString(n: nat)
    requires n <= INT_MAX
    ensures Stoi(ToString(n)) == Some(n) && ToString(n) != ""
    ensures forall i :: 0 <= i < |ToString(n)| ==> IsDigit(ToString(n)[i])
  {
    DigitsRead(n);
    ReadToString(n);
  }

  lemma {:induction false} DigitsLength(n: nat, k: nat)
    requires n < Pow10(k) && k > 0
    ensures |Digits(n)| <= k
  {
    if n >= 10 {
      DigitsLength(n / 10, k - 1);
    }
  }

  function Pow10(k: nat): nat { if k == 0 then 1 else 10 * Pow10(k - 1) }

  /** A 64-bit number has at most twenty decimal digits. */
  lemma ToStringLength(n: int)
    requires 0 <= n <= LLONG_MAX
    ensures |ToString(n)| <= 20
  {
    assert Pow10(5) == 100_000;
    assert Pow10(10) == 10_000_000_000;
    assert Pow10(15) == 1_000_000_000_000_000;
    assert Pow10(20) == 100_000_000_000_000_000_000;
    DigitsLength(n, 20);
  }

  // ---------- the byte order of std::string ----------

  predicate Less(a: string, b: string) {
    b != "" && (a == "" || a[0] < b[0] || (a[0] == b[0] && Less(a[1..], b[1..])))
  }

  lemma {:induction false} LessTotal(a: string, b: string)
    ensures Less(a, b) || Less(b, a) || a == b
    ensures !(Less(a, b) && Less(b, a))
    ensures !Less(a, a)
  {
    if a != "" && b != "" && a[0] == b[0] {
      LessTotal(a[1..], b[1..]);
      if a[1..] == b[1..] {
        assert a == [a[0]] + a[1..];
        assert b == [b[0]] + b[1..];
      }
    }
    if a != "" { LessTotal(a[1..], a[1..]); }
  }

  lemma {:induction false} LessTransitive(a: string, b: string, c: string)
    requires Less(a, b) && Less(b, c)
    ensures Less(a, c)
  {
    if a != "" && a[0] == b[0] && b[0] == c[0] {
      LessTransitive(a[1..], b[1..], c[1..]);
    }
  }

  /** The one that is shorter where they agree, or smaller where they first differ. */
  lemma {:induction false} LessIff(a: string, b: string)
    ensures Less(a, b) <==>
            exists n :: 0 <= n <= |a| && n < |b| && a[..n] == b[..n] && (n == |a| || a[n] < b[n])
  {
    if Less(a, b) {
      if a == "" || a[0] < b[0] {
        assert a[..0] == b[..0];
      } else {
        LessIff(a[1..], b[1..]);
        var n :| 0 <= n <= |a| - 1 && n < |b| - 1 && a[1..][..n] == b[1..][..n] && (n == |a| - 1 || a[1..][n] < b[1..][n]);
        assert a[..n + 1] == [a[0]] + a[1..][..n] && b[..n + 1] == [b[0]] + b[1..][..n];
      }
    } else if exists n :: 0 <= n <= |a| && n < |b| && a[..n] == b[..n] && (n == |a| || a[n] < b[n]) {
      var n :| 0 <= n <= |a| && n < |b| && a[..n] == b[..n] && (n == |a| || a[n] < b[n]);
      if n > 0 {
        assert a[0] == a[..n][0] == b[..n][0] == b[0];
        assert a[1..][..n - 1] == a[..n][1..] == b[..n][1..] == b[1..][..n - 1];
        LessIff(a[1..], b[1..]);
      }
    }
  }

  predicate IsLeast(x: string, s: set<string>) {
    x in s && forall y :: y in s && y != x ==> Less(x, y)
  }

  lemma {:induction false} LeastExists(s: set<string>) returns (x: string)
    requires s != {}
    ensures IsLeast(x, s)
    decreases |s|
  {
    x :| x in s;
    if s != {x} {
      assert s - {x} != {} by { assert exists y :: y in s && y != x; }
      var m := LeastExists(s - {x});
      LessTotal(x, m);
      if Less(m, x) {
        x := m;
      } else {
        forall y | y in s && y != x ensures Less(x, y) {
          if y != m { LessTransitive(x, m, y); }
        }
      }
    }
  }

  /** The first element std::set would visit. */
  function Least(s: set<string>): (x: string)
    requires s != {}
    ensures IsLeast(x, s)
  {
    assert exists x :: x in s && IsLeast(x, s) by {
      var x := LeastExists(s);
    }
    assert forall x, z :: IsLeast(x, s) && IsLeast(z, s) ==> x == z by {
      forall x, z | IsLeast(x, s) && IsLeast(z, s) ensures x == z {
        LessTotal(x, z);
      }
    }
    var x :| x in s && IsLeast(x, s);
    x
  }

  predicate Distinct(s: seq<string>) {
    forall i, j :: 0 <= i < j < |s| ==> s[i] != s[j]
  }

  function Elements(s: seq<string>): set<string> { set x | x in s }

  /** The elements in the order std::set iterates over them. */
  function Sorted(s: set<string>): seq<string>
    decreases |s|
  {
    if s == {} then [] else [Least(s)] + Sorted(s - {Least(s)})
  }

  lemma SortedDistinct(s: set<string>)
    ensures Distinct(Sorted(s))
  {
    SortedEnumerates(s);
    var r := Sorted(s);
    forall i, j | 0 <= i < j < |r| ensures r[i] != r[j] {
      LessTotal(r[i], r[j]);
    }
  }

  lemma {:induction false} SortedEnumerates(s: set<string>)
    ensures forall x :: x in Sorted(s) <==> x in s
    ensures |Sorted(s)| == |s|
    ensures forall i, j :: 0 <= i < j < |Sorted(s)| ==> Less(Sorted(s)[i], Sorted(s)[j])
    decreases |s|
  {
    if s != {} {
      var x := Least(s);
      var rest := Sorted(s - {x});
      hide Less;
      SortedEnumerates(s - {x});
      assert Sorted(s) == [x] + rest;
      forall i, j | 0 <= i < j < |Sorted(s)| ensures Less(Sorted(s)[i], Sorted(s)[j]) {
        assert Sorted(s)[j] == rest[j - 1] && rest[j - 1] in rest;
        if i > 0 { assert Sorted(s)[i] == rest[i - 1]; }
      }
      assert forall i :: 0 <= i < |rest| ==> rest[i] in rest;
    }
  }
}
