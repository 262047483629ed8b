/** String helpers behind the date column: Python's `str.split(sep)`, `int(...)` on a
    digit string and `str(n)` on a non-negative integer. */
module Text {
  import opened Wrappers

  /** Python `s.split(sep)` with an explicit one-character separator: adjacent or
      trailing separators give empty parts, and the empty string gives [""]. */
  function Split(s: string, sep: char): (parts: seq<string>)
    ensures |parts| >= 1
    decreases |s|
  {
    if |s| == 0 then [""]
    else
      var rest := Split(s[1..], sep);
      if s[0] == sep then [""] + rest
      else [[s[0]] + rest[0]] + rest[1..]
  }

  /** Python `sep.join(parts)`. */
  function Join(parts: seq<string>, sep: char): string
    decreases |parts|
  {
    if |parts| == 0 then ""
    else if |parts| == 1 then parts[0]
    else parts[0] + [sep] + Join(parts[1..], sep)
  }

  function Count(s: string, c: char): nat
    decreases |s|
  {
    if |s| == 0 then 0 else (if s[0] == c then 1 else 0) + Count(s[1..], c)
  }

  /** Splitting and joining back on the same separator gives the original string. */
  lemma {:induction false} JoinSplit(s: string, sep: char)
    ensures Join(Split(s, sep), sep) == s
    decreases |s|
  {
    if |s| > 0 {
      JoinSplit(s[1..], sep);
      var rest := Split(s[1..], sep);
      if s[0] == sep {
        assert Split(s, sep) == [""] + rest;
        assert ([""] + rest)[1..] == rest;
      } else {
        var p := Split(s, sep);
        assert p == [[s[0]] + rest[0]] + rest[1..];
        if |rest| == 1 {
          assert Join(p, sep) == [s[0]] + rest[0];
        } else {
          assert p[1..] == rest[1..];
          assert Join(rest, sep) == rest[0] + [sep] + Join(rest[1..], sep);
          assert s == [s[0]] + s[1..];
        }
      }
    }
  }

  /** No part of a split contains the separator, and there is one more part than
      there are separators in the string. */
  lemma {:induction false} SplitParts(s: string, sep: char)
    ensures |Split(s, sep)| == Count(s, sep) + 1
    ensures forall i :: 0 <= i < |Split(s, sep)| ==> sep !in Split(s, sep)[i]
    decreases |s|
  {
    if |s| > 0 {
      SplitParts(s[1..], sep);
    }
  }

  /** Splitting a join of separator-free parts gives the parts back. */
  lemma {:induction false} SplitJoin(parts: seq<string>, sep: char)
    requires |parts| >= 1
    requires forall i :: 0 <= i < |parts| ==> sep !in parts[i]
    ensures Split(Join(parts, sep), sep) == parts
    decreases |parts|, |parts[0]|
  {
    if |parts[0]| > 0 {
      var p0 := parts[0];
      var tail := [p0[1..]] + parts[1..];
      assert forall i :: 0 <= i < |tail| ==> sep !in tail[i] by {
        forall i | 0 <= i < |tail| ensures sep !in tail[i] {
          if i == 0 {
            assert forall c :: c in p0[1..] ==> c in p0;
          } else {
            assert tail[i] == parts[i];
          }
        }
      }
      SplitJoin(tail, sep);
      assert tail[1..] == parts[1..];
      var j := Join(parts, sep);
      if |parts| == 1 {
        assert j == p0;
      } else {
        assert j == p0 + [sep] + Join(parts[1..], sep);
        assert Join(tail, sep) == p0[1..] + [sep] + Join(parts[1..], sep);
      }
      assert j == [p0[0]] + Join(tail, sep);
      assert j[0] == p0[0] && j[1..] == Join(tail, sep);
      assert p0[0] != sep by { assert p0[0] in p0; }
      assert [p0[0]] + p0[1..] == p0;
      assert [p0] + parts[1..] == parts;
    } else if |parts| > 1 {
      SplitJoin(parts[1..], sep);
      var j := Join(parts, sep);
      assert j == [sep] + Join(parts[1..], sep);
      assert j[1..] == Join(parts[1..], sep);
      assert parts == [""] + parts[1..];
    }
  }

  predicate IsDigit(c: char) {
    '0' <= c <= '9'
  }

  predicate AllDigits(s: string) {
    forall i :: 0 <= i < |s| ==> IsDigit(s[i])
  }

  /** Value of a string of decimal digits, most significant first. */
  function DigitsValue(s: string): nat
    requires AllDigits(s)
    decreases |s|
  {
    if |s| == 0 then 0
    else DigitsValue(s[..|s| - 1]) * 10 + (s[|s| - 1] as int - '0' as int)
  }

  /** `int(s)` on plain decimal digits: a non-empty digit string (leading zeros
      allowed) gives its value, anything else gives None. This differs from Python's
      `int()` both ways: `int()` also accepts surrounding whitespace, a sign, `_`
      separators and non-ASCII digits, but rejects strings of more than 4300 digits,
      which this model parses. */
  function ParseDecimal(s: string): (r: Option<nat>)
    ensures r.Some? <==> |s| > 0 && AllDigits(s)
  {
    if |s| > 0 && AllDigits(s) then Some(DigitsValue(s)) else None
  }

  function DigitChar(d: nat): (c: char)
    requires d < 10
    ensures IsDigit(c) && c as int - '0' as int == d
  {
    (d + '0' as int) as char
  }

  /** Python `str(n)` for n >= 0: decimal digits without padding. */
  function ShowNat(n: nat): (s: string)
    ensures |s| >= 1 && AllDigits(s)
    ensures n < 10 <==> |s| == 1
    decreases n
  {
    if n < 10 then [DigitChar(n)] else ShowNat(n / 10) + [DigitChar(n % 10)]
  }

  /** `str(n)` is a non-empty digit string with no leading zero (unless n is 0),
      and it never has more digits than needed. */
  lemma {:induction false} ShowNatShape(n: nat)
    ensures |ShowNat(n)| >= 1 && AllDigits(ShowNat(n))
    ensures n > 0 ==> ShowNat(n)[0] != '0'
    ensures n < 10 <==> |ShowNat(n)| == 1
    ensures 10 <= n < 100 <==> |ShowNat(n)| == 2
    decreases n
  {
    if n >= 10 {
      ShowNatShape(n / 10);
      if n >= 100 {
        ShowNatShape(n / 10 / 10);
        assert |ShowNat(n / 10)| >= 2;
      }
    }
  }

  /** Parsing what `str(n)` prints gives n back. */
  lemma {:induction false} ParseShowNat(n: nat)
    ensures ParseDecimal(ShowNat(n)) == Some(n)
    decreases n
  {
    ShowNatShape(n);
    if n >= 10 {
      ParseShowNat(n / 10);
      ShowNatShape(n / 10);
      var s := ShowNat(n);
      assert s[..|s| - 1] == ShowNat(n / 10);
      assert s[|s| - 1] == DigitChar(n % 10);
      assert DigitsValue(s) == DigitsValue(ShowNat(n / 10)) * 10 + n % 10;
      assert DigitsValue(ShowNat(n / 10)) == n / 10;
    }
  }
}
