/** The cell coordinates that the board hands to each cell as a string
    `${y}-${x}`, and the way flipCellsAround reads them back:
    coord.split("-").map(Number), of which the first two values are y and x. */
module Coord {

  datatype Option<T> = None | Some(value: T)

  predicate IsDigit(c: char)
  {
    '0' <= c <= '9'
  }

  predicate AllDigits(s: string)
  {
    forall k | 0 <= k < |s| :: IsDigit(s[k])
  }

  function DigitChar(d: nat): (c: char)
    requires d < 10
    ensures IsDigit(c)
  {
    (48 + d) as char
  }

  function DigitValue(c: char): (d: nat)
    requires IsDigit(c)
    ensures d < 10 && DigitChar(d) == c
  {
    c as int - 48
  }

  /** The decimal numeral a template literal gives a non-negative integer:
      at least one digit, no sign, and no leading zero unless n is 0. */
  function Decimal(n: nat): (s: string)
    ensures 1 <= |s| && AllDigits(s)
    ensures s[0] == '0' ==> n == 0
    ensures '-' !in s
  {
    if n < 10 then [DigitChar(n)] else Decimal(n / 10) + [DigitChar(n % 10)]
  }

  /** Number(s) for a string of ASCII digits; the empty string reads as 0,
      as Number("") does. Reading back the numeral of n gives n. */
  function DigitsValue(s: string): (v: nat)
    requires AllDigits(s)
    ensures forall n: nat | s == Decimal(n) :: v == n
  {
    if s == [] then 0
    else
      var v := 10 * DigitsValue(s[..|s| - 1]) + DigitValue(s[|s| - 1]);
      assert forall n: nat | s == Decimal(n) :: v == n by {
        forall n: nat | s == Decimal(n)
          ensures v == n
        {
          if n >= 10 {
            assert s[..|s| - 1] == Decimal(n / 10);
          }
        }
      }
      v
  }

  /** String.prototype.split with a one-character separator: the pieces
      between separators, in order, empty pieces included. */
  function Split(s: string, sep: char): (parts: seq<string>)
    ensures |parts| >= 1
    ensures forall k | 0 <= k < |parts| :: sep !in parts[k]
  {
    if s == [] then [[]]
    else
      var rest := Split(s[1..], sep);
      if s[0] == sep then [[]] + rest else [[s[0]] + rest[0]] + rest[1..]
  }

  /** Joining the pieces of Split with the separator gives back the string. */
  function Join(parts: seq<string>, sep: char): string
    requires |parts| >= 1
  {
    if |parts| == 1 then parts[0] else parts[0] + [sep] + Join(parts[1..], sep)
  }

  lemma {:induction false} JoinSplit(s: string, sep: char)
    ensures Join(Split(s, sep), sep) == s
  {
    if s != [] {
      JoinSplit(s[1..], sep);
      var rest := Split(s[1..], sep);
      if s[0] == sep {
        assert Split(s, sep)[1..] == rest;
      } else {
        var parts := Split(s, sep);
        assert parts[1..] == rest[1..];
        if |rest| > 1 {
          assert Join(parts, sep) == [s[0]] + (rest[0] + [sep] + Join(rest[1..], sep));
        }
      }
    }
  }

  /** A string without the separator is a single piece. */
  lemma {:induction false} SplitWithoutSep(s: string, sep: char)
    requires sep !in s
    ensures Split(s, sep) == [s]
  {
    if s != [] {
      SplitWithoutSep(s[1..], sep);
      assert [s[0]] + s[1..] == s;
    }
  }

  /** A piece free of the separator, then the separator, then the rest. */
  lemma {:induction false} SplitAtFirstSep(a: string, sep: char, b: string)
    requires sep !in a
    ensures Split(a + [sep] + b, sep) == [a] + Split(b, sep)
  {
    if a == [] {
      assert [] + [sep] + b == [sep] + b;
      assert ([sep] + b)[1..] == b;
    } else {
      assert (a + [sep] + b)[1..] == a[1..] + [sep] + b;
      SplitAtFirstSep(a[1..], sep, b);
      assert [a[0]] + a[1..] == a;
    }
  }

  /** The key and click argument of cell (y, x), `${y}-${x}`: it splits on
      "-" into exactly the two numerals. */
  function Format(y: nat, x: nat): (s: string)
    ensures Split(s, '-') == [Decimal(y), Decimal(x)]
  {
    SplitAtFirstSep(Decimal(y), '-', Decimal(x));
    SplitWithoutSep(Decimal(x), '-');
    Decimal(y) + "-" + Decimal(x)
  }

  /** coord.split("-").map(Number), destructured into [y, x]. Only pieces
      made of ASCII digits are read; anything else gives None. Pieces after
      the second are ignored, as the destructuring ignores them. Every
      coordinate string the board hands out reads back as its cell. */
  function Parse(coord: string): (r: Option<(nat, nat)>)
    ensures forall y: nat, x: nat | coord == Format(y, x) :: r == Some((y, x))
  {
    var parts := Split(coord, '-');
    if |parts| < 2 || !AllDigits(parts[0]) || !AllDigits(parts[1]) then None
    else Some((DigitsValue(parts[0]), DigitsValue(parts[1])))
  }

  /** Distinct cells get distinct coordinate strings (the cell keys). */
  lemma {:induction false} FormatInjective(y1: nat, x1: nat, y2: nat, x2: nat)
    requires Format(y1, x1) == Format(y2, x2)
    ensures y1 == y2 && x1 == x2
  {
    assert Parse(Format(y1, x1)) == Some((y1, x1));
    assert Parse(Format(y2, x2)) == Some((y2, x2));
  }
}
