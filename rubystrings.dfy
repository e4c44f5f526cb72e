/** The few pieces of Ruby's String and Array library that the upload script
    relies on, written out so that the model can reason about them. */
module RubyStrings {

  predicate IsDigit(c: char) { '0' <= c <= '9' }

  predicate AllDigits(s: string) { forall i :: 0 <= i < |s| ==> IsDigit(s[i]) }

  /** `Array#join(sep)` on an array of strings: the elements with `sep`
      between consecutive ones, and nothing before the first or after the last. */
  function Join(xs: seq<string>, sep: string): string
  {
    if |xs| == 0 then ""
    else if |xs| == 1 then xs[0]
    else Join(xs[..|xs| - 1], sep) + sep + xs[|xs| - 1]
  }

  /** Every element preceded by `d`: `d + xs[0] + d + xs[1] + ...`. */
  function Delimited(xs: seq<string>, d: string): string
  {
    if xs == [] then "" else Delimited(xs[..|xs| - 1], d) + d + xs[|xs| - 1]
  }

  /** A join that is preceded by its own separator is the same text as every
      element preceded by that separator. */
  lemma {:induction false} JoinAsDelimited(xs: seq<string>, d: string)
    requires xs != []
    ensures d + Join(xs, d) == Delimited(xs, d)
  {
    if |xs| > 1 {
      var init := xs[..|xs| - 1];
      JoinAsDelimited(init, d);
      assert Delimited(xs, d) == Delimited(init, d) + d + xs[|xs| - 1];
      assert d + Join(xs, d) == (d + Join(init, d)) + d + xs[|xs| - 1];
    } else {
      assert xs[..0] == [];
    }
  }

  /** Delimiting two lists one after the other is delimiting their
      concatenation: nothing is reordered. */
  lemma {:induction false} DelimitedConcat(xs: seq<string>, ys: seq<string>, d: string)
    ensures Delimited(xs + ys, d) == Delimited(xs, d) + Delimited(ys, d)
  {
    if ys == [] {
      assert xs + ys == xs;
    } else {
      var init := ys[..|ys| - 1];
      assert (xs + ys)[..|xs + ys| - 1] == xs + init;
      DelimitedConcat(xs, init, d);
    }
  }

  lemma JoinThree(a: string, b: string, c: string, sep: string)
    ensures Join([a, b, c], sep) == a + sep + b + sep + c
  {
    assert [a, b][..1] == [a];
    assert Join([a, b], sep) == a + sep + b;
    assert [a, b, c][..2] == [a, b];
  }

  lemma JoinSix(a: string, b: string, c: string, d: string, e: string, f: string, sep: string)
    ensures Join([a, b, c, d, e, f], sep) == a + sep + b + sep + c + sep + d + sep + e + sep + f
  {
    JoinThree(a, b, c, sep);
    assert [a, b, c, d][..3] == [a, b, c];
    assert Join([a, b, c, d], sep) == a + sep + b + sep + c + sep + d;
    assert [a, b, c, d, e][..4] == [a, b, c, d];
    assert Join([a, b, c, d, e], sep) == a + sep + b + sep + c + sep + d + sep + e;
    assert [a, b, c, d, e, f][..5] == [a, b, c, d, e];
  }

  /** `String#end_with?`: `t` is the tail of `s`. */
  predicate EndsWith(s: string, t: string)
  {
    |t| <= |s| && s[|s| - |t|..] == t
  }

  /** If `part` ends with `c`, then `front + part + close` ends with `c + close`. */
  lemma EndsWithInside(s: string, front: string, part: string, close: string, c: string)
    requires s == front + part + close
    requires EndsWith(part, c)
    ensures EndsWith(s, c + close)
  {
    var t := c + close;
    forall k | 0 <= k < |t| ensures s[|s| - |t| + k] == t[k] {
      if k < |c| {
        assert s[|s| - |t| + k] == part[|part| - |c| + k];
      }
    }
  }

  function DigitChar(d: nat): (c: char)
    requires d < 10
    ensures IsDigit(c)
  {
    ('0' as int + d) as char
  }

  function DigitValue(c: char): (d: nat)
    requires IsDigit(c)
    ensures d < 10
  {
    c as int - '0' as int
  }

  /** `Integer#to_s` on a non-negative integer: its decimal digits, with no
      leading zero except for zero itself. */
  function Decimal(n: nat): (r: string)
    ensures |r| >= 1 && AllDigits(r)
    ensures r[0] == '0' <==> n == 0
    decreases n
  {
    if n < 10 then [DigitChar(n)] else Decimal(n / 10) + [DigitChar(n % 10)]
  }

  /** The number a string of decimal digits denotes. */
  function DecimalValue(s: string): nat
    requires AllDigits(s)
  {
    if s == [] then 0 else DecimalValue(s[..|s| - 1]) * 10 + DigitValue(s[|s| - 1])
  }

  /** Reading back the decimal text of `n` gives `n`. */
  lemma {:induction false} DecimalRoundTrip(n: nat)
    ensures DecimalValue(Decimal(n)) == n
  {
    if n >= 10 {
      DecimalRoundTrip(n / 10);
      var s := Decimal(n);
      assert s[..|s| - 1] == Decimal(n / 10);
    } else {
      assert Decimal(n)[..0] == [];
    }
  }

  /** `String#chomp` with no argument: drops one trailing "\r\n", "\n" or "\r". */
  function Chomp(s: string): (r: string)
    ensures r <= s && |s| - |r| <= 2
    ensures |s| - |r| == 2 ==> s[|s| - 2] == '\r' && s[|s| - 1] == '\n'
    ensures |s| - |r| == 1 ==>
      (s[|s| - 1] == '\n' || s[|s| - 1] == '\r') && !(|s| >= 2 && s[|s| - 2] == '\r' && s[|s| - 1] == '\n')
    ensures |s| == |r| ==> s == [] || (s[|s| - 1] != '\n' && s[|s| - 1] != '\r')
  {
    if |s| >= 2 && s[|s| - 2] == '\r' && s[|s| - 1] == '\n' then s[..|s| - 2]
    else if |s| >= 1 && (s[|s| - 1] == '\n' || s[|s| - 1] == '\r') then s[..|s| - 1]
    else s
  }
}
