/** String helpers that stand for the JavaScript built-ins the core relies on:
    `String(n)` for integers, `padStart(2, '0')`, the remainder operator `%`,
    `Array.prototype.join` and `String.prototype.split`. Each comes with the
    inverse that shows it loses no information where the core needs that. */
module Text {
  import opened Types

  predicate IsDigit(c: char) {
    '0' <= c <= '9'
  }

  predicate AllDigits(s: string) {
    forall k :: 0 <= k < |s| ==> IsDigit(s[k])
  }

  function DigitChar(d: nat): (c: char)
    requires d < 10
    ensures IsDigit(c) && c as int - '0' as int == d
  {
    ('0' as int + d) as char
  }

  function DigitValue(c: char): (d: nat)
    requires IsDigit(c)
    ensures d < 10
  {
    c as int - '0' as int
  }

  /** The decimal digits of `n` without leading zeros: JavaScript `String(n)` for n >= 0. */
  function NatToString(n: nat): (s: string)
    ensures 1 <= |s| && AllDigits(s)
    ensures n < 10 <==> |s| == 1
    decreases n
  {
    if n < 10 then [DigitChar(n)] else NatToString(n / 10) + [DigitChar(n % 10)]
  }

  /** JavaScript `String(i)` (or `i.toString()`) for an integer value. */
  function IntToString(i: int): (s: string)
    ensures 1 <= |s|
    ensures i >= 0 ==> AllDigits(s)
    ensures i < 0 ==> s[0] == '-'
  {
    if i < 0 then "-" + NatToString(-i) else NatToString(i)
  }

  /** The value of a string of decimal digits (the empty string reads as 0). */
  function ParseNat(s: string): nat
    requires AllDigits(s)
  {
    if s == [] then 0 else ParseNat(s[..|s| - 1]) * 10 + DigitValue(s[|s| - 1])
  }

  lemma {:induction false} ParseNatToString(n: nat)
    ensures ParseNat(NatToString(n)) == n
  {
    if n >= 10 {
      var s := NatToString(n);
      assert s[..|s| - 1] == NatToString(n / 10);
      ParseNatToString(n / 10);
    }
  }

  lemma {:induction false} ParseNatLeadingZero(s: string)
    requires AllDigits(s)
    ensures AllDigits("0" + s) && ParseNat("0" + s) == ParseNat(s)
  {
    if s != [] {
      var t := "0" + s;
      assert t[..|t| - 1] == "0" + s[..|s| - 1];
      ParseNatLeadingZero(s[..|s| - 1]);
    }
  }

  /** JavaScript `s.padStart(2, '0')`. */
  function PadStart2(s: string): (r: string)
    ensures |s| >= 2 ==> r == s
    ensures |s| < 2 ==> |r| == 2 && r[2 - |s|..] == s && forall k :: 0 <= k < 2 - |s| ==> r[k] == '0'
  {
    if |s| >= 2 then s else if |s| == 1 then "0" + s else "00"
  }

  lemma ParseNatPadStart2(s: string)
    requires AllDigits(s) && 1 <= |s|
    ensures AllDigits(PadStart2(s)) && ParseNat(PadStart2(s)) == ParseNat(s)
  {
    if |s| == 1 {
      ParseNatLeadingZero(s);
    }
  }

  /** JavaScript `a % b` for a positive divisor: the remainder of division
      truncated toward zero, so it takes the sign of `a`. (Dafny's `%` is
      Euclidean and never negative.) */
  function JsRem(a: int, b: int): (r: int)
    requires b > 0
    ensures a >= 0 ==> r == a % b
    ensures a < 0 ==> -r == (-a) % b
    ensures -b < r < b && (r < 0 ==> a < 0)
  {
    if a >= 0 then a % b else -((-a) % b)
  }

  /** `parts.join(sep)`. */
  function Join(parts: seq<string>, sep: string): string
  {
    if |parts| == 0 then ""
    else if |parts| == 1 then parts[0]
    else Join(parts[..|parts| - 1], sep) + sep + parts[|parts| - 1]
  }

  /** `s.split(c)` for a one-character separator: the maximal pieces between
      occurrences of `c`, always at least one. */
  function Split(s: string, c: char): (parts: seq<string>)
    ensures |parts| >= 1
  {
    if |s| == 0 then [""]
    else
      var rest := Split(s[..|s| - 1], c);
      if s[|s| - 1] == c then rest + [""]
      else rest[..|rest| - 1] + [rest[|rest| - 1] + [s[|s| - 1]]]
  }

  /** Splitting after one more separator adds an empty last piece. */
  lemma SplitSeparator(s: string, c: char)
    ensures Split(s + [c], c) == Split(s, c) + [""]
  {
    var x := s + [c];
    assert x[..|x| - 1] == s;
  }

  /** Splitting after one more ordinary character extends the last piece. */
  lemma SplitOther(s: string, ch: char, c: char)
    requires ch != c
    ensures var p := Split(s, c);
            Split(s + [ch], c) == p[..|p| - 1] + [p[|p| - 1] + [ch]]
  {
    var x := s + [ch];
    assert x[..|x| - 1] == s;
  }

  lemma {:induction false} SplitAppendFree(s: string, t: string, c: char)
    requires c !in t
    ensures var p := Split(s, c);
            Split(s + t, c) == p[..|p| - 1] + [p[|p| - 1] + t]
    decreases |t|
  {
    if t == [] {
      SplitAppendNothing(s, c);
    } else {
      var t', ch := t[..|t| - 1], t[|t| - 1];
      SplitAppendFree(s, t', c);
      SplitAppendStep(s, t', ch, c);
      assert t' + [ch] == t;
    }
  }

  lemma SplitAppendNothing(s: string, c: char)
    ensures var p := Split(s, c);
            Split(s + [], c) == p[..|p| - 1] + [p[|p| - 1] + []]
  {
    var p := Split(s, c);
    assert s + [] == s;
    assert p[|p| - 1] + [] == p[|p| - 1];
    assert p[..|p| - 1] + [p[|p| - 1]] == p;
  }

  lemma SplitAppendStep(s: string, t: string, ch: char, c: char)
    requires ch != c
    requires var p := Split(s, c);
             Split(s + t, c) == p[..|p| - 1] + [p[|p| - 1] + t]
    ensures var p := Split(s, c);
            Split(s + (t + [ch]), c) == p[..|p| - 1] + [p[|p| - 1] + (t + [ch])]
  {
    var p := Split(s, c);
    assert s + (t + [ch]) == (s + t) + [ch];
    SplitOther(s + t, ch, c);
    var q := Split(s + t, c);
    assert q[..|q| - 1] == p[..|p| - 1];
    assert q[|q| - 1] + [ch] == p[|p| - 1] + (t + [ch]);
  }

  lemma {:induction false} SplitJoin(parts: seq<string>, c: char)
    requires |parts| >= 1
    requires forall k :: 0 <= k < |parts| ==> c !in parts[k]
    ensures Split(Join(parts, [c]), c) == parts
  {
    if |parts| == 1 {
      SplitAppendFree([], parts[0], c);
      assert [] + parts[0] == parts[0];
    } else {
      var front, last := parts[..|parts| - 1], parts[|parts| - 1];
      SplitJoin(front, c);
      SplitJoinStep(front, last, c);
      assert front + [last] == parts;
    }
  }

  lemma SplitJoinStep(front: seq<string>, last: string, c: char)
    requires |front| >= 1 && c !in last
    requires Split(Join(front, [c]), c) == front
    ensures Split(Join(front + [last], [c]), c) == front + [last]
  {
    var parts := front + [last];
    assert parts[..|parts| - 1] == front;
    var j := Join(front, [c]);
    SplitSeparator(j, c);
    var jc := j + [c];
    SplitAppendFree(jc, last, c);
    assert Join(parts, [c]) == jc + last;
    var p := Split(jc, c);
    assert p[..|p| - 1] == front && p[|p| - 1] + last == last;
  }
}
