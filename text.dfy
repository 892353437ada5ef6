/** String helpers the pipeline's f-strings and joins rely on: concatenation of
    a list of strings, Python's `sep.join(xs)`, the slice `xs[:n]`, and the
    decimal rendering `str(n)` of a non-negative integer. */
module Text {

  /** `"".join(ss)`: the strings of `ss` one after another. */
  function Concat(ss: seq<string>): string
  {
    if ss == [] then "" else ss[0] + Concat(ss[1..])
  }

  /** Appending one more string to the list appends it to the concatenation;
      this is what every `acc += piece` loop of the pipeline relies on. */
  lemma {:induction false} ConcatSnoc(ss: seq<string>, s: string)
    ensures Concat(ss + [s]) == Concat(ss) + s
  {
    if ss == [] {
      assert [s][1..] == [];
    } else {
      assert (ss + [s])[1..] == ss[1..] + [s];
      ConcatSnoc(ss[1..], s);
    }
  }

  /** Python's `xs[:n]` for n >= 0: the first n elements, or all of them when
      the list is shorter. */
  function Take<T>(xs: seq<T>, n: nat): (r: seq<T>)
    ensures |r| == if |xs| < n then |xs| else n
    ensures r <= xs
  {
    if |xs| <= n then xs else xs[..n]
  }

  /** Python's `sep.join(xs)`. */
  function Join(sep: string, xs: seq<string>): string
  {
    if xs == [] then ""
    else if |xs| == 1 then xs[0]
    else xs[0] + sep + Join(sep, xs[1..])
  }

  /** `", ".join(authors[:2])`: no author, the one author, or the first two
      separated by a comma and a space; later authors are dropped and nothing
      such as "et al." is added. */
  lemma FirstTwoJoined(authors: seq<string>)
    ensures |authors| == 0 ==> Join(", ", Take(authors, 2)) == ""
    ensures |authors| == 1 ==> Join(", ", Take(authors, 2)) == authors[0]
    ensures |authors| >= 2 ==> Join(", ", Take(authors, 2)) == authors[0] + ", " + authors[1]
  {
    if |authors| >= 2 {
      var two := Take(authors, 2);
      assert two == [authors[0], authors[1]];
      assert two[1..] == [authors[1]];
    }
  }

  /** The decimal digit character of d. */
  function DigitChar(d: nat): (c: char)
    requires d < 10
    ensures '0' <= c <= '9'
  {
    ['0', '1', '2', '3', '4', '5', '6', '7', '8', '9'][d]
  }

  function DigitValue(c: char): (d: nat)
    requires IsDigit(c)
    ensures d < 10 && DigitChar(d) == c
  {
    (c as int - '0' as int)
  }

  predicate IsDigit(c: char)
  {
    '0' <= c <= '9'
  }

  /** `str(n)` for a non-negative integer: its decimal digits, most significant
      first, without leading zeros. */
  function NatToString(n: nat): (r: string)
    ensures |r| >= 1
    ensures forall k :: 0 <= k < |r| ==> IsDigit(r[k])
    ensures r[0] == '0' ==> n == 0
  {
    if n < 10 then [DigitChar(n)] else NatToString(n / 10) + [DigitChar(n % 10)]
  }

  /** Reads a string of decimal digits back as a number. */
  function ParseDecimal(s: string): nat
    requires forall k :: 0 <= k < |s| ==> IsDigit(s[k])
  {
    if s == [] then 0 else 10 * ParseDecimal(s[..|s| - 1]) + DigitValue(s[|s| - 1])
  }

  /** Rendering a number in decimal loses nothing: reading the digits back
      gives the number. Together with NatToString's own contract this pins
      the rendering down as the usual decimal notation. */
  lemma {:induction false} NatToStringRoundTrip(n: nat)
    ensures ParseDecimal(NatToString(n)) == n
  {
    var r := NatToString(n);
    if n < 10 {
      assert r[..0] == [];
      assert DigitValue(DigitChar(n)) == n by {
        assert DigitChar(DigitValue(DigitChar(n))) == DigitChar(n);
      }
    } else {
      var hi := NatToString(n / 10);
      assert r[..|r| - 1] == hi;
      NatToStringRoundTrip(n / 10);
      assert DigitValue(DigitChar(n % 10)) == n % 10 by {
        assert DigitChar(DigitValue(DigitChar(n % 10))) == DigitChar(n % 10);
      }
    }
  }
}
