/** Hexadecimal digit strings. */
module Hex {
  datatype Option<+T> = None | Some(value: T)

  function HexDigit(c: char): Option<nat> {
    if '0' <= c <= '9' then Some((c - '0') as nat)
    else if 'a' <= c <= 'f' then Some((c - 'a') as nat + 10)
    else if 'A' <= c <= 'F' then Some((c - 'A') as nat + 10)
    else None
  }

  /** `int(s, 16)` on plain digit strings; `None` where it raises. */
  function HexVal(s: string): Option<nat> {
    if s == "" then None
    else
      var d := HexDigit(s[|s| - 1]);
      if d.None? then None
      else if |s| == 1 then d
      else
        var front := HexVal(s[..|s| - 1]);
        if front.None? then None else Some(16 * front.value + d.value)
  }

  const LOWER := "0123456789abcdef"
  const UPPER := "0123456789ABCDEF"

  /** The sixteen digits in either case stand for their places in the row of digits, and nothing else is a digit. */
  lemma DigitValues(c: char, i: nat)
    ensures HexDigit(c) == Some(i) <==> i < 16 && (LOWER[i] == c || UPPER[i] == c)
  {
    if i < 16 {
      RowOfDigits(i);
    }
  }

  lemma RowOfDigits(i: nat)
    requires i < 16
    ensures LOWER[i] as int == (if i < 10 then '0' as int + i else 'a' as int + i - 10)
    ensures UPPER[i] as int == (if i < 10 then '0' as int + i else 'A' as int + i - 10)
  {
  }

  lemma {:induction false} AllDigits(s: string)
    ensures HexVal(s).Some? <==> s != "" && forall i :: 0 <= i < |s| ==> HexDigit(s[i]).Some?
  {
    if |s| > 1 {
      var front := s[..|s| - 1];
      AllDigits(front);
      assert forall i :: 0 <= i < |front| ==> front[i] == s[i];
    }
  }

  function Pow16(n: nat): nat {
    if n == 0 then 1 else 16 * Pow16(n - 1)
  }

  /** One digit is worth itself, and digits in front of `n` others are worth 16 to the `n` times as much. */
  lemma {:induction false} Positional(s: string, t: string)
    requires HexVal(s).Some? && HexVal(t).Some?
    ensures HexVal(s + t) == Some(HexVal(s).value * Pow16(|t|) + HexVal(t).value)
    ensures |t| == 1 ==> HexVal(t) == HexDigit(t[0])
  {
    var n := |t| - 1;
    assert (s + t)[..|s| + n] == s + t[..n];
    assert Pow16(|t|) == 16 * Pow16(n);
    if n == 0 {
      assert s + t[..0] == s;
    } else {
      Positional(s, t[..n]);
      ShiftPlace(HexVal(s).value, Pow16(n));
    }
  }

  lemma ShiftPlace(a: nat, p: nat)
    ensures a * (16 * p) == 16 * (a * p)
  {
  }
}
