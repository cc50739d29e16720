/**
 * The string operations the preprocessing relies on: Python's
 * `str.split(sep)` and `int(s)`, plus the decimal rendering of naturals used
 * to state round-trip properties of the parsers built on them.
 */
module Text {
  import opened Results

  predicate IsDigit(c: char) {
    '0' <= c <= '9'
  }

  predicate AllDigits(s: string) {
    forall i :: 0 <= i < |s| ==> IsDigit(s[i])
  }

  /** The value of a string of decimal digits, most significant first. */
  function DigitsValue(s: string): nat
    requires AllDigits(s)
  {
    if |s| == 0 then 0
    else 10 * DigitsValue(s[..|s| - 1]) + ((s[|s| - 1] as int) - ('0' as int))
  }

  /** The decimal rendering of `n`, without sign or leading zeros. */
  function NatToString(n: nat): (s: string)
    ensures |s| > 0 && AllDigits(s)
    ensures DigitsValue(s) == n
  {
    var last := [(('0' as int) + n % 10) as char];
    if n < 10 then last
    else
      var s := NatToString(n / 10) + last;
      assert s[..|s| - 1] == NatToString(n / 10);
      s
  }

  /** A literal Python's `int()` accepts in this model: an optional sign, then ASCII digits. */
  predicate IsIntLiteral(s: string) {
    if |s| > 0 && (s[0] == '+' || s[0] == '-') then |s| > 1 && AllDigits(s[1..])
    else |s| > 0 && AllDigits(s)
  }

  /** Python's `int(s)`; `None` where Python raises ValueError. */
  function ParseInt(s: string): (r: Option<int>)
    ensures r.Some? <==> IsIntLiteral(s)
    ensures r.Some? && r.value < 0 ==> s[0] == '-'
  {
    if |s| > 0 && (s[0] == '+' || s[0] == '-') then
      if |s| > 1 && AllDigits(s[1..]) then
        Some(if s[0] == '-' then -(DigitsValue(s[1..]) as int) else DigitsValue(s[1..]))
      else None
    else if |s| > 0 && AllDigits(s) then Some(DigitsValue(s))
    else None
  }

  /** Parsing the rendering of a natural gives the natural back. */
  lemma ParseNatToString(n: nat)
    ensures ParseInt(NatToString(n)) == Some(n)
  {
    var s := NatToString(n);
    assert IsDigit(s[0]);
  }

  /** `z` zero digits. */
  function Zeros(z: nat): (s: string)
    ensures |s| == z
    ensures forall i :: 0 <= i < z ==> s[i] == '0'
  {
    if z == 0 then [] else Zeros(z - 1) + "0"
  }

  /** Leading zeros do not change the value of a string of digits. */
  lemma {:induction false} LeadingZerosValue(z: nat, s: string)
    requires AllDigits(s)
    ensures AllDigits(Zeros(z) + s)
    ensures DigitsValue(Zeros(z) + s) == DigitsValue(s)
    decreases z + |s|
  {
    var t := Zeros(z) + s;
    assert forall i :: 0 <= i < |t| ==> IsDigit(t[i]) by {
      forall i | 0 <= i < |t| ensures IsDigit(t[i]) {
        if i >= z {
          assert t[i] == s[i - z];
        }
      }
    }
    if |s| > 0 {
      assert t[..|t| - 1] == Zeros(z) + s[..|s| - 1];
      LeadingZerosValue(z, s[..|s| - 1]);
    } else if z > 0 {
      assert t[..|t| - 1] == Zeros(z - 1) + s;
      LeadingZerosValue(z - 1, s);
    }
  }

  /** The decimal rendering of `n` after `z` leading zeros: `Padded(1, 9)` is "09". */
  function Padded(z: nat, n: nat): string {
    Zeros(z) + NatToString(n)
  }

  /** `int()` ignores leading zeros: the rendering of `n` after any number of zeros reads as `n`. */
  lemma ParsePaddedNat(z: nat, n: nat)
    ensures ParseInt(Padded(z, n)) == Some(n)
  {
    var s := Padded(z, n);
    LeadingZerosValue(z, NatToString(n));
    assert IsDigit(s[0]);
  }

  /** A sign before the zero-padded rendering of `n`: "-07" reads as -7 and "+07" as 7. */
  lemma ParseSignedNat(sign: char, z: nat, n: nat)
    requires sign == '+' || sign == '-'
    ensures ParseInt([sign] + Padded(z, n)) == Some(if sign == '-' then -(n as int) else n as int)
  {
    var s := [sign] + Padded(z, n);
    LeadingZerosValue(z, NatToString(n));
    assert s[1..] == Padded(z, n);
  }

  /** Position of the first occurrence of `c` in `s`. */
  function IndexOf(s: string, c: char): (i: nat)
    requires c in s
    ensures i < |s| && s[i] == c && c !in s[..i]
  {
    if s[0] == c then 0
    else
      assert c in s[1..] by {
        assert s == [s[0]] + s[1..];
      }
      var k := IndexOf(s[1..], c);
      assert s[..k + 1] == [s[0]] + s[1..][..k];
      k + 1
  }

  /** Python's `s.split(sep)` for a one-character separator. */
  function Split(s: string, sep: char): (parts: seq<string>)
    ensures |parts| >= 1
    ensures sep !in s <==> |parts| == 1
    ensures forall k :: 0 <= k < |parts| ==> sep !in parts[k]
    decreases |s|
  {
    if sep !in s then [s]
    else
      var i := IndexOf(s, sep);
      [s[..i]] + Split(s[i + 1..], sep)
  }

  /** Python's `sep.join(parts)`. */
  function Join(parts: seq<string>, sep: char): string
    requires |parts| >= 1
  {
    if |parts| == 1 then parts[0] else parts[0] + [sep] + Join(parts[1..], sep)
  }

  lemma JoinCons(first: string, rest: seq<string>, sep: char)
    requires |rest| >= 1
    ensures Join([first] + rest, sep) == first + [sep] + Join(rest, sep)
  {
    assert ([first] + rest)[1..] == rest;
  }

  /** Splitting and joining again gives back the original string. */
  lemma {:induction false} JoinSplit(s: string, sep: char)
    ensures Join(Split(s, sep), sep) == s
    decreases |s|
  {
    if sep in s {
      var i := IndexOf(s, sep);
      var rest := Split(s[i + 1..], sep);
      JoinSplit(s[i + 1..], sep);
      assert Split(s, sep) == [s[..i]] + rest;
      JoinCons(s[..i], rest, sep);
      assert s == s[..i] + [sep] + s[i + 1..];
    }
  }

  /** The first field of a split is everything before the first separator. */
  lemma SplitAtFirstSeparator(a: string, sep: char, b: string)
    requires sep !in a
    ensures Split(a + [sep] + b, sep) == [a] + Split(b, sep)
  {
    var s := a + [sep] + b;
    var i := IndexOf(s, sep);
    assert s[..|a|] == a;
    assert forall j :: 0 <= j < |a| ==> s[j] != sep;
    assert forall j :: 0 <= j < i ==> s[j] != sep by {
      assert forall j :: 0 <= j < i ==> s[j] == s[..i][j];
    }
    assert s[|a|] == sep;
    assert i == |a|;
    assert s[|a| + 1..] == b;
  }

  /** Two separator-free fields joined by the separator split back into exactly those two. */
  lemma SplitTwoFields(a: string, sep: char, b: string)
    requires sep !in a && sep !in b
    ensures Split(a + [sep] + b, sep) == [a, b]
  {
    SplitAtFirstSeparator(a, sep, b);
  }

  /** Whatever follows a second separator, the first two fields are the two before it. */
  lemma SplitLeadingFields(a: string, sep: char, b: string, rest: string)
    requires sep !in a && sep !in b
    ensures |Split(a + [sep] + b + [sep] + rest, sep)| >= 2
    ensures Split(a + [sep] + b + [sep] + rest, sep)[0] == a
    ensures Split(a + [sep] + b + [sep] + rest, sep)[1] == b
  {
    assert a + [sep] + b + [sep] + rest == a + [sep] + (b + [sep] + rest);
    SplitAtFirstSeparator(a, sep, b + [sep] + rest);
    SplitAtFirstSeparator(b, sep, rest);
  }
}
