/** Text building blocks shared by every renderer: comma-joins and decimal
    printing, together with the decimal reader that inverts the printer. */
module Text {
  import opened Options

  /** Rust's `[String]::join(sep)`: the parts in order, `sep` between two
      neighbours, nothing before the first or after the last. */
  function Join(xs: seq<string>, sep: string): (r: string)
    ensures |xs| == 0 ==> r == ""
    ensures |xs| == 1 ==> r == xs[0]
  {
    if |xs| == 0 then "" else if |xs| == 1 then xs[0] else xs[0] + sep + Join(xs[1..], sep)
  }

  /** Joining never drops or adds characters: the length is the total length
      of the parts plus one separator between every two of them. */
  function TotalLength(xs: seq<string>): nat
  {
    if |xs| == 0 then 0 else |xs[0]| + TotalLength(xs[1..])
  }

  lemma {:induction false} JoinLength(xs: seq<string>, sep: string)
    requires |xs| > 0
    ensures |Join(xs, sep)| == TotalLength(xs) + (|xs| - 1) * |sep|
  {
    if |xs| > 1 {
      JoinLength(xs[1..], sep);
      var k := |xs| - 1;
      var t := TotalLength(xs[1..]);
      assert TotalLength(xs) == |xs[0]| + t;
      assert |Join(xs, sep)| == |xs[0]| + |sep| + |Join(xs[1..], sep)|;
      MulStep(k, |sep|);
    }
  }

  lemma MulStep(k: int, m: int)
    ensures (k - 1) * m + m == k * m
  {
  }

  /** Appending one part at the end of a non-empty join adds one separator
      and the part: the order of the parts is kept. */
  lemma {:induction false} JoinSnoc(xs: seq<string>, x: string, sep: string)
    requires |xs| > 0
    ensures Join(xs + [x], sep) == Join(xs, sep) + sep + x
  {
    if |xs| == 1 {
      assert xs + [x] == [xs[0], x];
    } else {
      assert (xs + [x])[1..] == xs[1..] + [x];
      JoinSnoc(xs[1..], x, sep);
    }
  }

  /** Rust's `concat()` of a list of strings. */
  function Concat(xs: seq<string>): (r: string)
    ensures |xs| == 0 ==> r == ""
  {
    if |xs| == 0 then "" else xs[0] + Concat(xs[1..])
  }

  /** A join with a separator after every part (the form `concat` gives when
      every part carries its own trailing separator) is the plain join followed
      by one more separator. */
  lemma {:induction false} ConcatTrailingIsJoin(xs: seq<string>, sep: string)
    requires |xs| > 0
    ensures Concat(seq(|xs|, i requires 0 <= i < |xs| => xs[i] + sep)) == Join(xs, sep) + sep
  {
    var ys := seq(|xs|, i requires 0 <= i < |xs| => xs[i] + sep);
    if |xs| > 1 {
      assert ys[1..] == seq(|xs[1..]|, i requires 0 <= i < |xs[1..]| => xs[1..][i] + sep);
      ConcatTrailingIsJoin(xs[1..], sep);
    } else {
      assert ys[1..] == [];
    }
  }

  predicate IsDigit(c: char)
  {
    '0' <= c <= '9'
  }

  predicate AllDigits(s: string)
  {
    forall i :: 0 <= i < |s| ==> IsDigit(s[i])
  }

  function DigitChar(d: nat): (c: char)
    requires d < 10
    ensures IsDigit(c) && c as int - '0' as int == d
  {
    ('0' as int + d) as char
  }

  /** Decimal text of a natural number, as Rust's `Display` for unsigned
      integers prints it: most significant digit first, no leading zero. */
  function NatToDecimal(n: nat): (r: string)
    ensures |r| > 0 && AllDigits(r)
    ensures |r| > 1 ==> r[0] != '0'
  {
    if n < 10 then [DigitChar(n)] else NatToDecimal(n / 10) + [DigitChar(n % 10)]
  }

  /** Decimal text of an integer, as Rust's `Display` for signed integers
      prints it: a leading `-` for a negative value. */
  function IntToDecimal(i: int): (r: string)
    ensures |r| > 0
    ensures i < 0 <==> r[0] == '-'
    ensures i >= 0 ==> r == NatToDecimal(i)
    ensures i < 0 ==> r[1..] == NatToDecimal(-i)
  {
    if i < 0 then "-" + NatToDecimal(-i) else NatToDecimal(i)
  }

  /** The value of a string of decimal digits (the reader side of NatToDecimal). */
  function DigitsValue(d: string): nat
    requires AllDigits(d)
  {
    if |d| == 0 then 0 else DigitsValue(d[..|d| - 1]) * 10 + (d[|d| - 1] as int - '0' as int)
  }

  lemma {:induction false} DigitsValueOfDecimal(n: nat)
    ensures DigitsValue(NatToDecimal(n)) == n
  {
    if n >= 10 {
      var d := NatToDecimal(n / 10);
      var e := d + [DigitChar(n % 10)];
      assert e[..|e| - 1] == d;
      DigitsValueOfDecimal(n / 10);
    }
  }

  /** Number of decimal digits at the start of `s`. */
  function LeadingDigits(s: string): (k: nat)
    ensures k <= |s|
  {
    if |s| == 0 || !IsDigit(s[0]) then 0 else 1 + LeadingDigits(s[1..])
  }

  lemma {:induction false} LeadingDigitsAllDigits(s: string)
    ensures AllDigits(s[..LeadingDigits(s)])
  {
    if |s| > 0 && IsDigit(s[0]) {
      LeadingDigitsAllDigits(s[1..]);
      assert s[..LeadingDigits(s)] == [s[0]] + s[1..][..LeadingDigits(s[1..])];
    }
  }

  /** A digit string followed by text that does not start with a digit:
      the digit run ends exactly where the digit string ends. */
  lemma {:induction false} LeadingDigitsOfDigitsThen(d: string, rest: string)
    requires AllDigits(d)
    requires |rest| == 0 || !IsDigit(rest[0])
    ensures LeadingDigits(d + rest) == |d|
  {
    if |d| > 0 {
      assert (d + rest)[1..] == d[1..] + rest;
      LeadingDigitsOfDigitsThen(d[1..], rest);
    } else {
      assert d + rest == rest;
    }
  }

  /** Reads a maximal non-empty run of decimal digits; returns its value and
      the text after it. */
  function ReadNat(s: string): (r: Option<(nat, string)>)
    ensures r.Some? ==> |r.value.1| < |s|
  {
    var k := LeadingDigits(s);
    if k == 0 then None
    else
      LeadingDigitsAllDigits(s);
      Some((DigitsValue(s[..k]), s[k..]))
  }

  /** Reading back a printed natural number gives the number and exactly the
      text that followed it, when that text does not start with a digit. */
  lemma {:induction false} ReadNatDecimal(n: nat, rest: string)
    requires |rest| == 0 || !IsDigit(rest[0])
    ensures ReadNat(NatToDecimal(n) + rest) == Some((n, rest))
  {
    var d := NatToDecimal(n);
    LeadingDigitsOfDigitsThen(d, rest);
    assert (d + rest)[..|d|] == d;
    assert (d + rest)[|d|..] == rest;
    DigitsValueOfDecimal(n);
  }

  /** Reads an optional `-` followed by a maximal run of digits. */
  function ReadInt(s: string): (r: Option<(int, string)>)
    ensures r.Some? ==> |r.value.1| < |s|
  {
    if |s| > 0 && s[0] == '-' then
      match ReadNat(s[1..])
      case None => None
      case Some((n, rest)) => Some((-(n as int), rest))
    else
      match ReadNat(s)
      case None => None
      case Some((n, rest)) => Some((n as int, rest))
  }

  lemma {:induction false} ReadIntDecimal(i: int, rest: string)
    requires |rest| == 0 || !IsDigit(rest[0])
    ensures ReadInt(IntToDecimal(i) + rest) == Some((i, rest))
  {
    if i < 0 {
      var d := NatToDecimal(-i);
      assert ("-" + d + rest)[1..] == d + rest;
      ReadNatDecimal(-i, rest);
    } else {
      ReadNatDecimal(i, rest);
      assert (NatToDecimal(i) + rest)[0] != '-';
    }
  }

  /** Printed numbers are told apart by their text. */
  lemma IntToDecimalInjective(i: int, j: int)
    requires IntToDecimal(i) == IntToDecimal(j)
    ensures i == j
  {
    ReadIntDecimal(i, "");
    ReadIntDecimal(j, "");
    assert IntToDecimal(i) + "" == IntToDecimal(i);
    assert IntToDecimal(j) + "" == IntToDecimal(j);
  }

  /** `open`, then `body`, then `close`: the shape of every `format!` template
      that wraps one piece of text in fixed delimiters. */
  function Enclose(open: string, body: string, close: string): (r: string)
    ensures |r| == |open| + |body| + |close|
    ensures r[..|open|] == open && r[|open|..|open| + |body|] == body && r[|open| + |body|..] == close
  {
    open + body + close
  }

  /** `s` begins with `p`. */
  predicate StartsWith(s: string, p: string)
  {
    |p| <= |s| && s[..|p|] == p
  }

  lemma PrefixThen(p: string, rest: string)
    ensures StartsWith(p + rest, p) && (p + rest)[|p|..] == rest
  {
    assert (p + rest)[..|p|] == p;
  }

  /** A prefix of a prefix is a prefix. */
  lemma StartsWithPrefix(s: string, p: string, q: string)
    requires StartsWith(s, p) && StartsWith(p, q)
    ensures StartsWith(s, q)
  {
    assert s[..|q|] == s[..|p|][..|q|];
  }

  /** `s` ends with `t`. */
  predicate EndsWith(s: string, t: string)
  {
    |t| <= |s| && s[|s| - |t|..] == t
  }

  lemma SuffixThen(p: string, t: string)
    ensures EndsWith(p + t, t)
  {
    assert (p + t)[|p + t| - |t|..] == t;
  }

  /** The first two of three pieces are a prefix of the whole. */
  lemma PrefixOfThree(p: string, q: string, x: string)
    ensures StartsWith(p + (q + x), p + q)
  {
    assert p + (q + x) == (p + q) + x;
    PrefixThen(p + q, x);
  }
}
