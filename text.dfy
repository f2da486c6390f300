/** Strings as sequences of characters: the decimal rendering of numbers
    (Python's `str`/`int`), `str.join`, `str.split` with a one-character
    separator, and the prefix/suffix tests used by the file filters. */
module Text {
  import opened Wrappers

  predicate IsDigit(c: char) {
    '0' <= c <= '9'
  }

  predicate AllDigits(s: string) {
    forall i :: 0 <= i < |s| ==> IsDigit(s[i])
  }

  function DigitChar(d: nat): (c: char)
    requires d < 10
    ensures IsDigit(c) && c as int - '0' as int == d
  {
    (48 + d) as char
  }

  /** Python's `str(n)` for a non-negative integer: decimal, no leading zeros. */
  function NatToString(n: nat): (s: string)
    ensures |s| >= 1 && AllDigits(s)
    ensures (|s| > 1 ==> s[0] != '0')
    decreases n
  {
    if n < 10 then [DigitChar(n)] else NatToString(n / 10) + [DigitChar(n % 10)]
  }

  /** The value of a string of decimal digits. */
  function DigitsValue(s: string): nat
    requires AllDigits(s)
  {
    if |s| == 0 then 0
    else DigitsValue(s[..|s| - 1]) * 10 + (s[|s| - 1] as int - '0' as int)
  }

  /** Python's `int(s)` restricted to unsigned decimals; `None` where it raises. */
  function ParseNat(s: string): Option<nat> {
    if |s| > 0 && AllDigits(s) then Some(DigitsValue(s)) else None
  }

  /** Rendering a number and reading it back gives the number. */
  lemma {:induction false} ParseNatToString(n: nat)
    ensures ParseNat(NatToString(n)) == Some(n)
  {
    var s := NatToString(n);
    if n >= 10 {
      ParseNatToString(n / 10);
      assert s[..|s| - 1] == NatToString(n / 10);
      assert DigitsValue(s) == (n / 10) * 10 + n % 10;
    } else {
      assert s[..|s| - 1] == "";
      assert DigitsValue(s) == n;
    }
  }

  /** A number has at most three digits exactly when it is below 1000. */
  lemma {:induction false} NatToStringLength(n: nat)
    ensures |NatToString(n)| <= 3 <==> n < 1000
  {
    if n >= 10 {
      NatToStringLength(n / 10);
    }
  }

  /** Python's `str(i)` for any integer. */
  function IntToString(i: int): (s: string)
    ensures i >= 0 ==> s == NatToString(i)
    ensures i < 0 ==> |s| >= 2 && s[0] == '-' && s[1..] == NatToString(-i)
  {
    if i < 0 then "-" + NatToString(-i) else NatToString(i)
  }

  /** Python's `int(x)` on a float: truncation toward zero. */
  function Trunc(x: real): (t: int)
    ensures x >= 0.0 ==> t as real <= x < t as real + 1.0
    ensures x < 0.0 ==> t as real - 1.0 < x <= t as real
  {
    if x >= 0.0 then x.Floor else -((-x).Floor)
  }

  /** The first index of `c` in `s`, or `|s|` when `c` does not occur. */
  function IndexOf(s: string, c: char): (i: nat)
    ensures i <= |s|
    ensures i < |s| ==> s[i] == c
    ensures forall j :: 0 <= j < i ==> s[j] != c
  {
    if |s| == 0 then 0
    else if s[0] == c then 0
    else 1 + IndexOf(s[1..], c)
  }

  /** `sep.join(fields)`. */
  function Join(fields: seq<string>, sep: char): string {
    if |fields| == 0 then ""
    else if |fields| == 1 then fields[0]
    else fields[0] + [sep] + Join(fields[1..], sep)
  }

  /** `s.split(sep)`: the pieces between occurrences of `sep`; never empty. */
  function Split(s: string, sep: char): (r: seq<string>)
    ensures |r| >= 1
    ensures forall k :: 0 <= k < |r| ==> sep !in r[k]
    decreases |s|
  {
    var i := IndexOf(s, sep);
    if i == |s| then [s] else [s[..i]] + Split(s[i + 1..], sep)
  }

  /** Joining a field in front of a non-empty list puts one separator
      after it. */
  lemma JoinCons(x: string, rest: seq<string>, sep: char)
    requires |rest| >= 1
    ensures Join([x] + rest, sep) == x + ([sep] + Join(rest, sep))
  {
    var f := [x] + rest;
    assert f[0] == x && f[1..] == rest;
  }

  /** Joining three fields and more puts the separator after each of the
      three. */
  lemma JoinThree(a: string, b: string, c: string, rest: seq<string>, sep: char)
    requires |rest| >= 1
    ensures Join([a, b, c] + rest, sep) == a + ([sep] + (b + ([sep] + (c + ([sep] + Join(rest, sep))))))
  {
    var f2 := [c] + rest;
    var f1 := [b] + f2;
    assert [a] + f1 == [a, b, c] + rest;
    JoinCons(c, rest, sep);
    JoinCons(b, f2, sep);
    JoinCons(a, f1, sep);
  }

  /** Joining a list extended by one field appends the separator and that field. */
  lemma {:induction false} JoinAppend(fields: seq<string>, x: string, sep: char)
    requires |fields| >= 1
    ensures Join(fields + [x], sep) == Join(fields, sep) + [sep] + x
  {
    if |fields| > 1 {
      assert (fields + [x])[1..] == fields[1..] + [x];
      JoinAppend(fields[1..], x, sep);
    }
  }

  /** Joining two non-empty lists puts one separator between their joins. */
  lemma {:induction false} JoinConcat(a: seq<string>, b: seq<string>, sep: char)
    requires |a| >= 1 && |b| >= 1
    ensures Join(a + b, sep) == Join(a, sep) + [sep] + Join(b, sep)
  {
    if |a| > 1 {
      assert (a + b)[1..] == a[1..] + b;
      JoinConcat(a[1..], b, sep);
    } else {
      assert (a + b)[1..] == b;
    }
  }

  /** Splitting a joined list gives the list back when no field holds the separator. */
  lemma {:induction false} SplitJoin(fields: seq<string>, sep: char)
    requires |fields| >= 1
    requires forall k :: 0 <= k < |fields| ==> sep !in fields[k]
    ensures Split(Join(fields, sep), sep) == fields
  {
    if |fields| > 1 {
      var s := Join(fields, sep);
      var a := fields[0];
      IndexOfPrefix(a, [sep] + Join(fields[1..], sep), sep);
      assert s == a + ([sep] + Join(fields[1..], sep));
      assert IndexOf(s, sep) == |a|;
      assert s[..|a|] == a;
      assert s[|a| + 1..] == Join(fields[1..], sep);
      SplitJoin(fields[1..], sep);
    } else {
      assert sep !in fields[0];
    }
  }

  /** Joining the pieces of a split gives the string back. */
  lemma {:induction false} JoinSplit(s: string, sep: char)
    ensures Join(Split(s, sep), sep) == s
    decreases |s|
  {
    var i := IndexOf(s, sep);
    if i < |s| {
      JoinSplit(s[i + 1..], sep);
      assert s == s[..i] + [sep] + s[i + 1..];
    }
  }

  lemma {:induction false} IndexOfPrefix(a: string, b: string, c: char)
    requires c !in a && |b| > 0 && b[0] == c
    ensures IndexOf(a + b, c) == |a|
  {
    if |a| > 0 {
      assert (a + b)[1..] == a[1..] + b;
      IndexOfPrefix(a[1..], b, c);
    } else {
      assert a + b == b;
    }
  }

  /** A field without the separator, then the separator, splits off as the
      first piece. */
  lemma SplitFirst(a: string, b: string, sep: char)
    requires sep !in a
    ensures Split(a + ([sep] + b), sep) == [a] + Split(b, sep)
  {
    var s := a + ([sep] + b);
    IndexOfPrefix(a, [sep] + b, sep);
    assert s[..|a|] == a && s[|a| + 1..] == b;
  }

  predicate StartsWith(s: string, prefix: string) {
    |prefix| <= |s| && s[..|prefix|] == prefix
  }

  predicate EndsWith(s: string, suffix: string) {
    |suffix| <= |s| && s[|s| - |suffix|..] == suffix
  }

  /** `str.lower()` on ASCII letters; every other character is kept. */
  function LowerChar(c: char): char {
    if 'A' <= c <= 'Z' then (c as int + 32) as char else c
  }

  function Lower(s: string): (r: string)
    ensures |r| == |s|
    ensures forall i :: 0 <= i < |s| ==> r[i] == LowerChar(s[i])
  {
    seq(|s|, i requires 0 <= i < |s| => LowerChar(s[i]))
  }

  /** Reads each field as an unsigned decimal; `None` if any field is not one. */
  function ParseFields(fs: seq<string>): (r: Option<seq<nat>>)
    ensures r.Some? ==> |r.value| == |fs|
  {
    if |fs| == 0 then Some([])
    else match (ParseNat(fs[0]), ParseFields(fs[1..]))
      case (Some(v), Some(rest)) => Some([v] + rest)
      case _ => None
  }

  /** The decimal renderings of `vals`, one field each. */
  function Fields(vals: seq<nat>): (fs: seq<string>)
    ensures |fs| == |vals|
    ensures forall i :: 0 <= i < |vals| ==> fs[i] == NatToString(vals[i])
  {
    seq(|vals|, i requires 0 <= i < |vals| => NatToString(vals[i]))
  }

  lemma {:induction false} ParseFieldsOfFields(vals: seq<nat>)
    ensures ParseFields(Fields(vals)) == Some(vals)
  {
    if |vals| > 0 {
      ParseFieldsOfFields(vals[1..]);
      ParseNatToString(vals[0]);
      assert Fields(vals)[1..] == Fields(vals[1..]);
      assert ParseNat(Fields(vals)[0]) == Some(vals[0]);
      assert [vals[0]] + vals[1..] == vals;
    }
  }

  /** No decimal rendering holds the separator of a list of numbers. */
  lemma FieldsHaveNoComma(vals: seq<nat>)
    ensures forall k :: 0 <= k < |vals| ==> ',' !in Fields(vals)[k]
  {
  }
}
