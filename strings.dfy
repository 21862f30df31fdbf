/**
 * String helpers the menu relies on: JavaScript's `String.prototype.split`
 * with a one-character separator, the matching join, and the decimal
 * rendering of a non-negative integer (`'' + n` for the sub-menu counter).
 */
module Strings {

  /** `s.split(sep)`: the maximal runs between separators; never empty. */
  function Split(s: string, sep: char): (parts: seq<string>)
    ensures |parts| >= 1
    ensures forall k :: 0 <= k < |parts| ==> sep !in parts[k]
    decreases |s|
  {
    if s == [] then [""]
    else
      var rest := Split(s[1..], sep);
      if s[0] == sep then [""] + rest
      else [[s[0]] + rest[0]] + rest[1..]
  }

  /** `parts.join(sep)`. */
  function Join(parts: seq<string>, sep: char): string
    requires |parts| >= 1
    decreases |parts|
  {
    if |parts| == 1 then parts[0] else parts[0] + [sep] + Join(parts[1..], sep)
  }

  /** Joining the pieces of a split gives back the original string. */
  lemma {:induction false} JoinSplit(s: string, sep: char)
    ensures Join(Split(s, sep), sep) == s
    decreases |s|
  {
    if s != [] {
      JoinSplit(s[1..], sep);
      var rest := Split(s[1..], sep);
      if s[0] == sep {
        assert Split(s, sep) == [""] + rest;
        assert ([""] + rest)[1..] == rest;
      } else {
        var parts := [[s[0]] + rest[0]] + rest[1..];
        assert Split(s, sep) == parts;
        if |rest| == 1 {
          assert Join(parts, sep) == [s[0]] + rest[0];
        } else {
          assert parts[1..] == rest[1..];
          assert Join(rest, sep) == rest[0] + [sep] + Join(rest[1..], sep);
        }
      }
    }
  }

  /** Splitting a join of separator-free pieces gives back the pieces. */
  lemma {:induction false} SplitJoin(parts: seq<string>, sep: char)
    requires |parts| >= 1
    requires forall k :: 0 <= k < |parts| ==> sep !in parts[k]
    ensures Split(Join(parts, sep), sep) == parts
    decreases |parts|, |parts[0]|
  {
    if parts[0] == [] {
      if |parts| == 1 {
        assert Join(parts, sep) == [];
      } else {
        var tail := parts[1..];
        SplitJoin(tail, sep);
        assert Join(parts, sep) == [sep] + Join(tail, sep);
        assert ([sep] + Join(tail, sep))[1..] == Join(tail, sep);
        assert Split(Join(parts, sep), sep) == [""] + tail;
      }
    } else {
      var c := parts[0][0];
      var shorter := [parts[0][1..]] + parts[1..];
      assert sep !in shorter[0];
      assert forall k :: 1 <= k < |shorter| ==> shorter[k] == parts[k];
      SplitJoin(shorter, sep);
      var j := Join(parts, sep);
      assert j == [c] + Join(shorter, sep) by {
        if |parts| == 1 {
          assert parts[0] == [c] + parts[0][1..];
        } else {
          assert shorter[1..] == parts[1..];
          assert parts[0] == [c] + parts[0][1..];
        }
      }
      assert j[1..] == Join(shorter, sep);
      assert c != sep;
      var rest := Split(j[1..], sep);
      assert rest == shorter;
      assert Split(j, sep) == [[c] + rest[0]] + rest[1..];
      assert [c] + rest[0] == parts[0];
      assert rest[1..] == parts[1..];
    }
  }

  predicate IsDigit(c: char) { '0' as int <= c as int <= '9' as int }

  function DigitChar(d: nat): (c: char)
    requires d < 10
    ensures IsDigit(c) && (c as int) - ('0' as int) == d
  {
    (('0' as int) + d) as char
  }

  /** Decimal rendering of `n`, most significant digit first, no leading zeros. */
  function Decimal(n: nat): (s: string)
    ensures |s| >= 1 && forall k :: 0 <= k < |s| ==> IsDigit(s[k])
  {
    if n < 10 then [DigitChar(n)] else Decimal(n / 10) + [DigitChar(n % 10)]
  }

  /** The value a string of decimal digits denotes. */
  function DecimalValue(s: string): nat
    requires forall k :: 0 <= k < |s| ==> IsDigit(s[k])
  {
    if s == [] then 0
    else
      assert IsDigit(s[|s| - 1]);
      DecimalValue(s[..|s| - 1]) * 10 + ((s[|s| - 1] as int) - ('0' as int))
  }

  /** Reading back a rendered number gives the number. */
  lemma {:induction false} DecimalRoundTrip(n: nat)
    ensures DecimalValue(Decimal(n)) == n
  {
    if n >= 10 {
      DecimalRoundTrip(n / 10);
      var s := Decimal(n);
      assert s[..|s| - 1] == Decimal(n / 10);
    }
  }

  /** Distinct numbers render as distinct strings. */
  lemma DecimalInjective(a: nat, b: nat)
    ensures Decimal(a) == Decimal(b) <==> a == b
  {
    if Decimal(a) == Decimal(b) {
      DecimalRoundTrip(a);
      DecimalRoundTrip(b);
    }
  }
}
