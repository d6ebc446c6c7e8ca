/** The textual cell coordinate of the board: the renderer names cell
    (y, x) by the string "y-x", and a click handler reads the two numbers
    back by splitting at '-' and converting each part with `Number`. */
module Coord {

  datatype Option<+T> = None | Some(value: T)

  predicate IsDigit(c: char) {
    '0' <= c <= '9'
  }

  predicate AllDigits(s: string) {
    forall k :: 0 <= k < |s| ==> IsDigit(s[k])
  }

  function DigitChar(d: nat): (c: char)
    requires d < 10
    ensures IsDigit(c)
  {
    ('0' as int + d) as char
  }

  function DigitValue(c: char): (d: nat)
    requires IsDigit(c)
    ensures d < 10 && DigitChar(d) == c
  {
    c as int - '0' as int
  }

  /** Decimal notation of `n` as a template literal interpolates it: at
      least one digit, and no leading zero unless `n` is 0. */
  function NatToString(n: nat): (s: string)
    ensures |s| >= 1 && AllDigits(s)
    ensures s[0] == '0' <==> n == 0
    decreases n
  {
    if n < 10 then [DigitChar(n)] else NatToString(n / 10) + [DigitChar(n % 10)]
  }

  /** The value of a string of decimal digits; the empty string reads 0. */
  function DigitsValue(s: string): (n: nat)
    requires AllDigits(s)
  {
    if s == [] then 0 else DigitsValue(s[..|s| - 1]) * 10 + DigitValue(s[|s| - 1])
  }

  /** `Number(s)` on the strings this model admits: a string of decimal
      digits (the empty one included) reads as its value; any other string
      is `NaN`, here `None`. */
  function Number(s: string): (r: Option<nat>)
    ensures r.Some? <==> AllDigits(s)
  {
    if AllDigits(s) then Some(DigitsValue(s)) else None
  }

  /** Reading back the decimal notation of `n` gives `n`. */
  lemma {:induction false} NumberOfNatToString(n: nat)
    ensures Number(NatToString(n)) == Some(n)
    decreases n
  {
    var s := NatToString(n);
    if n >= 10 {
      NumberOfNatToString(n / 10);
      assert s[..|s| - 1] == NatToString(n / 10);
      assert DigitsValue(s) == DigitsValue(NatToString(n / 10)) * 10 + n % 10;
    }
  }

  /** The parts joined back with '-' between them. */
  function Join(parts: seq<string>): (s: string)
    requires |parts| >= 1
  {
    if |parts| == 1 then parts[0] else parts[0] + "-" + Join(parts[1..])
  }

  /** `s.split("-")`: the maximal '-'-free pieces of `s`, in order, with an
      empty piece before a leading, after a trailing and between two
      adjacent separators. Joining them with '-' gives `s` back. */
  function Split(s: string): (parts: seq<string>)
    ensures |parts| >= 1
    ensures forall k :: 0 <= k < |parts| ==> '-' !in parts[k]
    ensures Join(parts) == s
  {
    if s == [] then [""]
    else if s[0] == '-' then
      var rest := Split(s[1..]);
      assert s == "-" + s[1..];
      [""] + rest
    else
      var rest := Split(s[1..]);
      assert s == [s[0]] + s[1..];
      if |rest| == 1 then [[s[0]] + rest[0]]
      else
        var tail := rest[1..];
        assert Join(rest) == rest[0] + "-" + Join(tail);
        assert ([s[0]] + rest[0]) + "-" + Join(tail) == [s[0]] + (rest[0] + "-" + Join(tail));
        assert ([[s[0]] + rest[0]] + tail)[1..] == tail;
        [[s[0]] + rest[0]] + tail
  }

  /** Splitting a string whose first piece is the '-'-free `a` puts `a`
      in front of the pieces of the rest. */
  lemma {:induction false} SplitAfterPiece(a: string, rest: string)
    requires '-' !in a
    ensures Split(a + "-" + rest) == [a] + Split(rest)
    decreases |a|
  {
    if a == [] {
      assert a + "-" + rest == "-" + rest;
      assert ("-" + rest)[1..] == rest;
    } else {
      var s := a + "-" + rest;
      assert s[0] == a[0] && s[1..] == a[1..] + "-" + rest;
      SplitAfterPiece(a[1..], rest);
      assert [a[0]] + a[1..] == a;
    }
  }

  /** A string without '-' is a single piece. */
  lemma {:induction false} SplitSinglePiece(a: string)
    requires '-' !in a
    ensures Split(a) == [a]
    decreases |a|
  {
    if a != [] {
      SplitSinglePiece(a[1..]);
      assert [a[0]] + a[1..] == a;
    }
  }

  /** Split undoes Join for '-'-free parts. */
  lemma {:induction false} SplitJoin(parts: seq<string>)
    requires |parts| >= 1
    requires forall k :: 0 <= k < |parts| ==> '-' !in parts[k]
    ensures Split(Join(parts)) == parts
    decreases |parts|
  {
    if |parts| == 1 {
      SplitSinglePiece(parts[0]);
    } else {
      SplitJoin(parts[1..]);
      SplitAfterPiece(parts[0], Join(parts[1..]));
    }
  }

  /** The coordinate string of cell (y, x): `${y}-${x}`. It splits at
      '-' into exactly the decimal texts of y and x. */
  function Encode(y: nat, x: nat): (coord: string)
    ensures Split(coord) == [NatToString(y), NatToString(x)]
  {
    var a, b := NatToString(y), NatToString(x);
    assert forall k :: 0 <= k < |a| ==> a[k] != '-';
    assert forall k :: 0 <= k < |b| ==> b[k] != '-';
    SplitJoin([a, b]);
    a + "-" + b
  }

  /** `const [y, x] = coord.split("-").map(Number)`: the first two pieces
      read as numbers. A missing second piece (`undefined`) or a piece that
      is not a number (`NaN`) gives `None`. */
  function Decode(coord: string): (r: Option<(nat, nat)>)
    ensures r.Some? <==> |Split(coord)| >= 2 && AllDigits(Split(coord)[0]) && AllDigits(Split(coord)[1])
    ensures r.Some? ==> Number(Split(coord)[0]) == Some(r.value.0) && Number(Split(coord)[1]) == Some(r.value.1)
  {
    var parts := Split(coord);
    if |parts| < 2 then None
    else
      match (Number(parts[0]), Number(parts[1]))
      case (Some(y), Some(x)) => Some((y, x))
      case _ => None
  }

  /** Decoding the coordinate string of (y, x) yields (y, x). */
  lemma DecodeEncode(y: nat, x: nat)
    ensures Decode(Encode(y, x)) == Some((y, x))
  {
    NumberOfNatToString(y);
    NumberOfNatToString(x);
  }

  /** Different cells get different coordinate strings. */
  lemma EncodeInjective(y: nat, x: nat, y': nat, x': nat)
    ensures Encode(y, x) == Encode(y', x') <==> y == y' && x == x'
  {
    DecodeEncode(y, x);
    DecodeEncode(y', x');
  }
}
