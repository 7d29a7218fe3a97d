/**
 * The two pieces of java.lang text handling that the tend protocol relies on:
 * String.split with a one-character separator, and Integer.parseInt.
 * Each comes with the inverse needed to state a round trip.
 */
module Strings {

  import opened Wrappers

  const INT_MIN: int := -0x8000_0000
  const INT_MAX: int := 0x7fff_ffff

  predicate InInt32(n: int) { INT_MIN <= n <= INT_MAX }

  // ---------------------------------------------------------------- splitting

  /** Every piece between separators, empty pieces included; always at least one piece. */
  function Split(s: string, sep: char): (parts: seq<string>)
    ensures |parts| >= 1
    ensures forall i :: 0 <= i < |parts| ==> sep !in parts[i]
    decreases |s|
  {
    if s == [] then [[]]
    else
      var rest := Split(s[1..], sep);
      if s[0] == sep then [[]] + rest
      else [[s[0]] + rest[0]] + rest[1..]
  }

  /** The pieces glued back together with the separator between neighbours. */
  function Join(parts: seq<string>, sep: char): string
    decreases |parts|
  {
    if parts == [] then []
    else if |parts| == 1 then parts[0]
    else parts[0] + [sep] + Join(parts[1..], sep)
  }

  /** Drops every empty piece at the end, as String.split(regex) does with limit 0. */
  function TrimTrailingEmpty(parts: seq<string>): (r: seq<string>)
    ensures |r| <= |parts| && r == parts[..|r|]
    ensures r != [] ==> r[|r| - 1] != []
    ensures forall i :: |r| <= i < |parts| ==> parts[i] == []
    decreases |parts|
  {
    if parts != [] && parts[|parts| - 1] == [] then TrimTrailingEmpty(parts[..|parts| - 1])
    else parts
  }

  /**
   * Java's String.split for a separator that is not a regular-expression
   * metacharacter: a string without the separator gives itself as the only
   * piece (even when it is empty); otherwise the pieces, minus the empty ones
   * at the end.
   */
  function JavaSplit(s: string, sep: char): (parts: seq<string>)
    ensures forall i :: 0 <= i < |parts| ==> sep !in parts[i]
    ensures sep in s ==> parts == TrimTrailingEmpty(Split(s, sep))
    ensures sep !in s ==> parts == [s]
  {
    if sep !in s then [s] else TrimTrailingEmpty(Split(s, sep))
  }

  /** Splitting and joining again gives back the string. */
  lemma {:induction false} JoinSplit(s: string, sep: char)
    ensures Join(Split(s, sep), sep) == s
    decreases |s|
  {
    if s == [] {
    } else {
      var rest := Split(s[1..], sep);
      JoinSplit(s[1..], sep);
      if s[0] == sep {
        assert Split(s, sep) == [[]] + rest;
        assert ([[]] + rest)[1..] == rest;
      } else {
        var parts := Split(s, sep);
        assert parts == [[s[0]] + rest[0]] + rest[1..];
        if |rest| == 1 {
          assert Join(parts, sep) == [s[0]] + rest[0];
          assert rest[0] == Join(rest, sep);
        } else {
          assert parts[1..] == rest[1..];
          assert Join(rest, sep) == rest[0] + [sep] + Join(rest[1..], sep);
          assert Join(parts, sep) == [s[0]] + rest[0] + [sep] + Join(rest[1..], sep);
        }
      }
    }
  }

  /** Joining pieces that do not contain the separator and splitting again gives back the pieces. */
  lemma {:induction false} SplitJoin(parts: seq<string>, sep: char)
    requires |parts| >= 1
    requires forall i :: 0 <= i < |parts| ==> sep !in parts[i]
    ensures Split(Join(parts, sep), sep) == parts
    decreases |parts|, |parts[0]|
  {
    if |parts| == 1 {
      SplitWithout(parts[0], sep);
    } else if parts[0] == [] {
      assert Join(parts, sep) == [sep] + Join(parts[1..], sep);
      assert ([sep] + Join(parts[1..], sep))[1..] == Join(parts[1..], sep);
      SplitJoin(parts[1..], sep);
      assert parts == [[]] + parts[1..];
    } else {
      var p0 := parts[0];
      assert p0[0] != sep;
      var shorter := [p0[1..]] + parts[1..];
      assert shorter[1..] == parts[1..];
      assert forall i :: 0 <= i < |shorter| ==> sep !in shorter[i];
      var s := Join(parts, sep);
      assert s == p0 + [sep] + Join(parts[1..], sep);
      assert Join(shorter, sep) == p0[1..] + [sep] + Join(parts[1..], sep);
      assert s[1..] == Join(shorter, sep);
      SplitJoin(shorter, sep);
      assert [p0[0]] + p0[1..] == p0;
    }
  }

  /** A string without the separator is a single piece. */
  lemma {:induction false} SplitWithout(s: string, sep: char)
    requires sep !in s
    ensures Split(s, sep) == [s]
    decreases |s|
  {
    if s != [] {
      SplitWithout(s[1..], sep);
      assert [s[0]] + s[1..] == s;
    }
  }

  /** Trimming pieces whose last one is not empty changes nothing. */
  lemma TrimNonEmptyLast(parts: seq<string>)
    requires parts != [] && parts[|parts| - 1] != []
    ensures TrimTrailingEmpty(parts) == parts
  {
  }

  /**
   * Java's split undoes a join whenever no piece holds the separator and the
   * last piece is not empty: exactly the shape of a well-formed list.
   */
  lemma {:induction false} JavaSplitJoin(parts: seq<string>, sep: char)
    requires |parts| >= 1 && parts[|parts| - 1] != []
    requires forall i :: 0 <= i < |parts| ==> sep !in parts[i]
    ensures JavaSplit(Join(parts, sep), sep) == parts
  {
    var s := Join(parts, sep);
    SplitJoin(parts, sep);
    if sep in s {
      TrimNonEmptyLast(parts);
    } else {
      SplitWithout(s, sep);
    }
  }

  // ---------------------------------------------------------------- integers

  predicate IsDigit(c: char) { '0' <= c <= '9' }

  predicate AllDigits(s: string) { forall i :: 0 <= i < |s| ==> IsDigit(s[i]) }

  /** The value of a string of decimal digits, most significant first; None when some character is not a digit. */
  function Digits(s: string): Option<nat>
    decreases |s|
  {
    if s == [] then Some(0)
    else if !IsDigit(s[|s| - 1]) then None
    else match Digits(s[..|s| - 1])
      case None => None
      case Some(v) => Some(v * 10 + (s[|s| - 1] - '0') as int)
  }

  /** Decimal digits of n with no leading zero (the digit "0" for zero). */
  function NatToString(n: nat): (s: string)
    ensures |s| >= 1 && AllDigits(s)
    decreases n
  {
    if n < 10 then [('0' as int + n) as char]
    else NatToString(n / 10) + [('0' as int + n % 10) as char]
  }

  /** What Integer.toString gives for n. */
  function IntToString(n: int): (s: string)
  {
    if n < 0 then "-" + NatToString(-n) else NatToString(n)
  }

  /**
   * Integer.parseInt(s, 10) for ASCII digits: an optional '+' or '-', then at
   * least one digit, and a value that fits in 32 bits; anything else is the
   * NumberFormatException, here None.
   */
  function ParseInt(s: string): (r: Option<int>)
    ensures r.Some? ==> InInt32(r.value)
  {
    if s == [] then None
    else if s[0] == '-' || s[0] == '+' then
      if |s| == 1 || Digits(s[1..]).None? then None
      else
        var magnitude: int := Digits(s[1..]).value;
        var v: int := if s[0] == '-' then -magnitude else magnitude;
        if InInt32(v) then Some(v) else None
    else if Digits(s).None? then None
    else if Digits(s).value <= INT_MAX then Some(Digits(s).value)
    else None
  }

  /** Reading back the digits of n gives n. */
  lemma {:induction false} DigitsRoundTrip(n: nat)
    ensures Digits(NatToString(n)) == Some(n)
    decreases n
  {
    if n >= 10 {
      DigitsRoundTrip(n / 10);
      var s := NatToString(n);
      assert s[..|s| - 1] == NatToString(n / 10);
    }
  }

  /** Integer.parseInt undoes Integer.toString on every 32-bit value. */
  lemma ParseIntRoundTrip(n: int)
    requires InInt32(n)
    ensures ParseInt(IntToString(n)) == Some(n)
  {
    var s := IntToString(n);
    if n < 0 {
      DigitsRoundTrip(-n);
      assert s[0] == '-' && |s| > 1;
      assert s[1..] == NatToString(-n);
      assert Digits(s[1..]) == Some(-n);
    } else {
      DigitsRoundTrip(n);
      assert s == NatToString(n);
      assert IsDigit(s[0]);
      assert Digits(s) == Some(n);
    }
  }

  /** The decimal form of an integer never contains a list or address separator. */
  lemma IntToStringHasNo(n: int, c: char)
    requires !IsDigit(c) && c != '-'
    ensures c !in IntToString(n)
  {
  }
}
