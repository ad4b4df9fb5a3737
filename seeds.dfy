/** The seed strings handed to the luck function: the text of an array of
    numbers as JavaScript prints it, elements joined by commas. */
module Seeds {
  import opened Board

  predicate IsDigit(ch: char) {
    '0' <= ch <= '9'
  }

  predicate AllDigits(s: string) {
    forall k :: 0 <= k < |s| ==> IsDigit(s[k])
  }

  function DigitChar(d: nat): (ch: char)
    requires d < 10
    ensures IsDigit(ch) && DigitValue(ch) == d
  {
    (48 + d) as char
  }

  function DigitValue(ch: char): nat
    requires IsDigit(ch)
  {
    ch as int - 48
  }

  /** The decimal text of a natural number, most significant digit first. */
  function NatToString(n: nat): string {
    if n < 10 then [DigitChar(n)] else NatToString(n / 10) + [DigitChar(n % 10)]
  }

  /** The decimal text of an integer, with a leading '-' when negative. */
  function IntToString(n: int): string {
    if n < 0 then "-" + NatToString(-n) else NatToString(n)
  }

  /** The value of a string of decimal digits. */
  function ParseDigits(s: string): nat
    requires AllDigits(s)
  {
    if s == [] then 0 else ParseDigits(s[..|s| - 1]) * 10 + DigitValue(s[|s| - 1])
  }

  /** An optional '-' followed by at least one digit. */
  predicate IsNumeral(s: string) {
    if |s| > 0 && s[0] == '-' then |s| > 1 && AllDigits(s[1..]) else |s| > 0 && AllDigits(s)
  }

  function ParseInt(s: string): int
    requires IsNumeral(s)
  {
    if s[0] == '-' then -(ParseDigits(s[1..]) as int) else ParseDigits(s)
  }

  /** The seed of a cell, "i,j": decides whether the cell holds a pit. */
  function CellSeed(c: Cell): string {
    IntToString(c.i) + "," + IntToString(c.j)
  }

  /** The seed of a pit's initial coin count, "i,j,initialValue". */
  function ValueSeed(c: Cell): string {
    CellSeed(c) + ",initialValue"
  }

  /** The index of the first occurrence of `ch` in `s`, or |s| if none. */
  function IndexOf(s: string, ch: char): (r: nat)
    ensures r <= |s|
    ensures forall k :: 0 <= k < r ==> s[k] != ch
    ensures r < |s| ==> s[r] == ch
  {
    if s == [] then 0 else if s[0] == ch then 0 else 1 + IndexOf(s[1..], ch)
  }

  // ---------------------------------------------------------------------
  // Properties

  lemma {:induction false} NatToStringDigits(n: nat)
    ensures |NatToString(n)| > 0 && AllDigits(NatToString(n))
    decreases n
  {
    if n >= 10 {
      NatToStringDigits(n / 10);
    }
  }

  /** Reading back the decimal text of n gives n. */
  lemma {:induction false} NatRoundTrip(n: nat)
    ensures AllDigits(NatToString(n)) && ParseDigits(NatToString(n)) == n
    decreases n
  {
    NatToStringDigits(n);
    if n >= 10 {
      var front := NatToString(n / 10);
      NatRoundTrip(n / 10);
      assert (front + [DigitChar(n % 10)])[..|front|] == front;
    }
  }

  /** The text of an integer is a numeral, and reading it back gives the
      integer. */
  lemma IntRoundTrip(n: int)
    ensures IsNumeral(IntToString(n)) && ParseInt(IntToString(n)) == n
  {
    var s := IntToString(n);
    if n < 0 {
      NatRoundTrip(-n);
      assert s[1..] == NatToString(-n);
    } else {
      NatRoundTrip(n);
      assert IsDigit(s[0]);
    }
  }

  /** The text of an integer holds no comma. */
  lemma NoComma(n: int)
    ensures IndexOf(IntToString(n), ',') == |IntToString(n)|
  {
    NatToStringDigits(if n < 0 then -n else n);
    var s := IntToString(n);
    assert forall k :: 0 <= k < |s| ==> s[k] != ',' by {
      if n < 0 {
        forall k | 0 < k < |s| ensures s[k] != ',' {
          assert s[k] == NatToString(-n)[k - 1];
        }
      }
    }
  }

  lemma {:induction false} IndexOfJoin(a: string, ch: char, b: string)
    requires IndexOf(a, ch) == |a|
    ensures IndexOf(a + [ch] + b, ch) == |a|
    decreases |a|
  {
    if a != [] {
      assert (a + [ch] + b)[1..] == a[1..] + [ch] + b;
      IndexOfJoin(a[1..], ch, b);
    }
  }

  /** Distinct cells have distinct seeds, so each cell gets its own draw. */
  lemma CellSeedInjective(a: Cell, b: Cell)
    requires CellSeed(a) == CellSeed(b)
    ensures a == b
  {
    var s := CellSeed(a);
    var ai, aj, bi, bj := IntToString(a.i), IntToString(a.j), IntToString(b.i), IntToString(b.j);
    NoComma(a.i);
    NoComma(b.i);
    IndexOfJoin(ai, ',', aj);
    IndexOfJoin(bi, ',', bj);
    assert |ai| == |bi|;
    assert s[..|ai|] == ai && s[..|bi|] == bi;
    assert s[|ai| + 1..] == aj && s[|bi| + 1..] == bj;
    IntRoundTrip(a.i);
    IntRoundTrip(b.i);
    IntRoundTrip(a.j);
    IntRoundTrip(b.j);
  }

  /** Distinct cells have distinct coin-count seeds. */
  lemma ValueSeedInjective(a: Cell, b: Cell)
    requires ValueSeed(a) == ValueSeed(b)
    ensures a == b
  {
    var n := |ValueSeed(a)| - |",initialValue"|;
    assert ValueSeed(a)[..n] == CellSeed(a);
    assert ValueSeed(b)[..n] == CellSeed(b);
    CellSeedInjective(a, b);
  }

  /** A spawn seed never equals a coin-count seed: the first ends in a
      digit, the second in a letter. */
  lemma SeedsDiffer(a: Cell, b: Cell)
    ensures ValueSeed(a) != CellSeed(b)
  {
    var v, c := ValueSeed(a), CellSeed(b);
    NatToStringDigits(if b.j < 0 then -b.j else b.j);
    var tail := IntToString(b.j);
    assert c[|c| - 1] == tail[|tail| - 1];
    assert IsDigit(c[|c| - 1]);
    assert v[|v| - 1] == 'e';
  }
}
