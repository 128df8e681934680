/** Python string helpers the converter relies on: `str.split`, `str.join`,
    `str(int)`, `int(str)`, `str.lower()` and the built-in order on `str`. */
module Text {
  import opened Wrappers

  /** `sep.join(parts)` for a one-character separator. */
  function Join(parts: seq<string>, sep: char): string
  {
    if |parts| == 0 then ""
    else if |parts| == 1 then parts[0]
    else parts[0] + [sep] + Join(parts[1..], sep)
  }

  /** `s.split(sep)` for a one-character separator: always at least one part,
      no part holds the separator, and joining the parts gives `s` back. */
  function Split(s: string, sep: char): (parts: seq<string>)
    ensures |parts| >= 1
    ensures forall i :: 0 <= i < |parts| ==> sep !in parts[i]
    ensures Join(parts, sep) == s
  {
    if |s| == 0 then [""]
    else
      var rest := Split(s[1..], sep);
      if s[0] == sep then
        assert ([""] + rest)[1..] == rest;
        [""] + rest
      else
        var parts := [[s[0]] + rest[0]] + rest[1..];
        assert parts[1..] == rest[1..];
        assert Join(parts, sep) == [s[0]] + Join(rest, sep) by {
          if |rest| > 1 {
            assert Join(rest, sep) == rest[0] + [sep] + Join(rest[1..], sep);
          }
        }
        assert s == [s[0]] + s[1..];
        parts
  }

  lemma {:induction false} SplitAtSeparator(a: string, t: string, sep: char)
    requires sep !in a
    ensures Split(a + [sep] + t, sep) == [a] + Split(t, sep)
    decreases |a|
  {
    if |a| == 0 {
      assert (a + [sep] + t)[1..] == t;
    } else {
      assert (a + [sep] + t)[1..] == a[1..] + [sep] + t;
      SplitAtSeparator(a[1..], t, sep);
      assert [a[0]] + a[1..] == a;
    }
  }

  /** Lines written one after another, each ended by a newline. */
  function Lines(ls: seq<string>): string
  {
    if |ls| == 0 then "" else ls[0] + "\n" + Lines(ls[1..])
  }

  lemma LinesCons(a: string, rest: seq<string>)
    ensures Lines([a] + rest) == a + "\n" + Lines(rest)
  {
    assert ([a] + rest)[1..] == rest;
  }

  lemma {:induction false} LinesAppend(a: seq<string>, b: seq<string>)
    ensures Lines(a + b) == Lines(a) + Lines(b)
    decreases |a|
  {
    if |a| == 0 {
      assert a + b == b;
    } else {
      assert (a + b)[1..] == a[1..] + b;
      LinesAppend(a[1..], b);
    }
  }

  /** Newline-free lines, written one per line and split at newlines, come
      back followed by the empty text after the last newline. */
  lemma {:induction false} SplitLines(ls: seq<string>)
    requires forall i :: 0 <= i < |ls| ==> '\n' !in ls[i]
    ensures Split(Lines(ls), '\n') == ls + [""]
    decreases |ls|
  {
    if |ls| > 0 {
      SplitAtSeparator(ls[0], Lines(ls[1..]), '\n');
      SplitLines(ls[1..]);
      assert ls == [ls[0]] + ls[1..];
    }
  }

  lemma {:induction false} SplitWithoutSeparator(a: string, sep: char)
    requires sep !in a
    ensures Split(a, sep) == [a]
    decreases |a|
  {
    if |a| > 0 {
      SplitWithoutSeparator(a[1..], sep);
      assert [a[0]] + a[1..] == a;
    }
  }

  /** Splitting at a last separator: the part after it is the last part. */
  lemma {:induction false} SplitBeforeLast(a: string, t: string, sep: char)
    requires sep !in t
    ensures Split(a + [sep] + t, sep) == Split(a, sep) + [t]
    decreases |a|
  {
    if |a| == 0 {
      assert (a + [sep] + t)[1..] == t;
      SplitWithoutSeparator(t, sep);
    } else {
      assert (a + [sep] + t)[1..] == a[1..] + [sep] + t;
      assert (a + [sep] + t)[0] == a[0];
      SplitBeforeLast(a[1..], t, sep);
      var pre := Split(a[1..], sep);
      if a[0] == sep {
        assert ([""] + pre) + [t] == [""] + (pre + [t]);
      } else {
        assert (pre + [t])[0] == pre[0];
        assert (pre + [t])[1..] == pre[1..] + [t];
      }
    }
  }

  /** A join ends with its last part. */
  lemma {:induction false} JoinEndsWithLast(parts: seq<string>, sep: char)
    requires |parts| >= 1
    ensures var j, last := Join(parts, sep), parts[|parts| - 1];
      |last| <= |j| && j[|j| - |last|..] == last
    ensures var j, last := Join(parts, sep), parts[|parts| - 1];
      |last| == |j| || j[|j| - |last| - 1] == sep
    decreases |parts|
  {
    if |parts| > 1 {
      JoinEndsWithLast(parts[1..], sep);
      var j := Join(parts, sep);
      var rest := Join(parts[1..], sep);
      var last := parts[|parts| - 1];
      assert j == parts[0] + [sep] + rest;
      assert j[|j| - |rest|..] == rest;
      if |last| == |rest| {
        assert j[|j| - |last| - 1] == j[|parts[0]|] == sep;
      } else {
        assert j[|j| - |last| - 1] == rest[|rest| - |last| - 1];
      }
    }
  }

  /** Splitting a join gives the parts back when no part holds the separator. */
  lemma {:induction false} SplitJoin(parts: seq<string>, sep: char)
    requires |parts| >= 1
    requires forall i :: 0 <= i < |parts| ==> sep !in parts[i]
    ensures Split(Join(parts, sep), sep) == parts
    decreases |parts|
  {
    if |parts| == 1 {
      SplitWithoutSeparator(parts[0], sep);
    } else {
      SplitJoin(parts[1..], sep);
      SplitAtSeparator(parts[0], Join(parts[1..], sep), sep);
      assert [parts[0]] + parts[1..] == parts;
    }
  }

  // ---------------------------------------------------------------------
  // Decimal integers

  predicate IsDigit(c: char) {
    '0' <= c <= '9'
  }

  predicate AllDigits(s: string) {
    forall i :: 0 <= i < |s| ==> IsDigit(s[i])
  }

  function DigitChar(d: int): (c: char)
    requires 0 <= d < 10
    ensures IsDigit(c)
  {
    ('0' as int + d) as char
  }

  function DigitValue(c: char): (d: int)
    requires IsDigit(c)
    ensures 0 <= d < 10
  {
    c as int - '0' as int
  }

  /** The value of a string of decimal digits, most significant first. */
  function DigitsValue(s: string): nat
    requires AllDigits(s)
  {
    if |s| == 0 then 0 else DigitsValue(s[..|s| - 1]) * 10 + DigitValue(s[|s| - 1])
  }

  /** `str(n)` for a non-negative integer. */
  function NatToString(n: nat): (s: string)
    ensures |s| >= 1 && AllDigits(s)
    decreases n
  {
    if n < 10 then [DigitChar(n)] else NatToString(n / 10) + [DigitChar(n % 10)]
  }

  lemma {:induction false} NatToStringValue(n: nat)
    ensures DigitsValue(NatToString(n)) == n
    decreases n
  {
    if n >= 10 {
      NatToStringValue(n / 10);
      var s := NatToString(n);
      assert s[..|s| - 1] == NatToString(n / 10);
    }
  }

  function Pow10(k: nat): (p: nat)
    ensures p >= 1
  {
    if k == 0 then 1 else 10 * Pow10(k - 1)
  }

  /** A number below 10^k has at most k digits. */
  lemma {:induction false} NatToStringLength(n: nat, k: nat)
    requires k >= 1 && n < Pow10(k)
    ensures |NatToString(n)| <= k
    decreases n
  {
    if n >= 10 {
      assert k >= 2;
      NatToStringLength(n / 10, k - 1);
    }
  }

  /** Different numbers have different decimal texts. */
  lemma NatToStringInjective(m: nat, n: nat)
    requires NatToString(m) == NatToString(n)
    ensures m == n
  {
    NatToStringValue(m);
    NatToStringValue(n);
  }

  /** `str(n)` for any integer. */
  function IntToString(n: int): string
  {
    if n < 0 then "-" + NatToString(-n) else NatToString(n)
  }

  /** The whitespace Python's `int()` strips (ASCII part). */
  predicate IsSpace(c: char) {
    c == ' ' || c == '\t' || c == '\n' || c == '\r' || c as int == 11 || c as int == 12
  }

  function StripLeft(s: string): (r: string)
    ensures |r| <= |s|
    ensures |r| > 0 ==> !IsSpace(r[0])
  {
    if |s| > 0 && IsSpace(s[0]) then StripLeft(s[1..]) else s
  }

  function StripRight(s: string): (r: string)
    ensures |r| <= |s|
    ensures |r| > 0 ==> !IsSpace(r[|r| - 1])
  {
    if |s| > 0 && IsSpace(s[|s| - 1]) then StripRight(s[..|s| - 1]) else s
  }

  /** Python's `int(s)` on a string without underscores: surrounding whitespace,
      an optional sign, then one or more decimal digits; anything else raises,
      which is `None` here. */
  function ParseInt(s: string): (r: Option<int>)
    ensures r.Some? ==> |s| > 0
  {
    ParseSigned(StripRight(StripLeft(s)))
  }

  /** An optional sign, then the digits. */
  function ParseSigned(t: string): (r: Option<int>)
    ensures r.Some? ==> |t| > 0
  {
    if |t| == 0 then None
    else
      var negative := t[0] == '-';
      var digits := if t[0] == '-' || t[0] == '+' then t[1..] else t;
      var magnitude :- ParseDigits(digits);
      Some(if negative then -(magnitude as int) else magnitude as int)
  }

  /** One or more decimal digits. */
  function ParseDigits(d: string): (r: Option<nat>)
    ensures r.Some? <==> |d| > 0 && AllDigits(d)
    ensures r.Some? ==> r.value == DigitsValue(d)
  {
    if |d| == 0 || !AllDigits(d) then None else Some(DigitsValue(d))
  }

  /** Stripping whitespace keeps every other character. */
  lemma {:induction false} StripLeftKeeps(s: string, c: char)
    requires c in s && !IsSpace(c)
    ensures c in StripLeft(s)
    decreases |s|
  {
    if |s| > 0 && IsSpace(s[0]) {
      assert c in s[1..];
      StripLeftKeeps(s[1..], c);
    }
  }

  lemma {:induction false} StripRightKeeps(s: string, c: char)
    requires c in s && !IsSpace(c)
    ensures c in StripRight(s)
    decreases |s|
  {
    if |s| > 0 && IsSpace(s[|s| - 1]) {
      assert c in s[..|s| - 1];
      StripRightKeeps(s[..|s| - 1], c);
    }
  }

  /** Every character of a text `int()` accepts is whitespace, a sign or a digit. */
  lemma ParseIntCharacters(s: string, c: char)
    requires ParseInt(s).Some? && c in s
    ensures IsSpace(c) || IsDigit(c) || c == '-' || c == '+'
  {
    if !IsSpace(c) {
      StripLeftKeeps(s, c);
      StripRightKeeps(StripLeft(s), c);
      var t := StripRight(StripLeft(s));
      var digits := if t[0] == '-' || t[0] == '+' then t[1..] else t;
      if c != t[0] {
        assert c in digits;
      }
    }
  }

  lemma ParseIntToString(n: int)
    ensures ParseInt(IntToString(n)) == Some(n)
  {
    var m: nat := if n < 0 then -n else n;
    NatToStringValue(m);
    var digits := NatToString(m);
    if n < 0 {
      assert IntToString(n) == ['-'] + digits;
      ParseSignedDigits(digits);
    } else {
      ParsePlainDigits(digits);
    }
  }

  /** A digit string without sign reads as its value. */
  lemma ParsePlainDigits(digits: string)
    requires |digits| > 0 && AllDigits(digits)
    ensures ParseInt(digits) == Some(DigitsValue(digits) as int)
  {
    assert IsDigit(digits[0]) && IsDigit(digits[|digits| - 1]);
    Unstripped(digits);
    assert ParseSigned(digits) == ParseDigits(digits);
  }

  /** A minus sign and a digit string read as the negated value. */
  lemma ParseSignedDigits(digits: string)
    requires |digits| > 0 && AllDigits(digits)
    ensures ParseInt(['-'] + digits) == Some(-(DigitsValue(digits) as int))
  {
    var s := ['-'] + digits;
    assert IsDigit(s[|s| - 1]);
    Unstripped(s);
    NegativeDigits(digits);
  }

  lemma NegativeDigits(digits: string)
    requires |digits| > 0 && AllDigits(digits)
    ensures ParseSigned(['-'] + digits) == Some(-(DigitsValue(digits) as int))
  {
    var t := ['-'] + digits;
    assert t[1..] == digits;
  }

  /** Stripping leaves alone a text that starts and ends with non-space. */
  lemma Unstripped(s: string)
    requires |s| > 0 && !IsSpace(s[0]) && !IsSpace(s[|s| - 1])
    ensures StripRight(StripLeft(s)) == s
  {
    assert StripLeft(s) == s;
  }

  /** `int(c)` of one character is its digit value, and fails on a non-digit. */
  lemma ParseOneChar(c: char)
    ensures IsDigit(c) ==> ParseInt([c]) == Some(DigitValue(c))
    ensures !IsDigit(c) ==> ParseInt([c]).None?
  {
    if IsDigit(c) {
      assert StripLeft([c]) == [c];
      assert StripRight([c]) == [c];
      assert [c][..0] == [];
      assert DigitsValue([c]) == DigitValue(c);
    } else if IsSpace(c) {
      assert StripLeft([c]) == StripLeft([c][1..]);
    }
  }

  // ---------------------------------------------------------------------
  // Case and order

  /** `str.lower()` restricted to ASCII letters. */
  function LowerAscii(s: string): (r: string)
    ensures |r| == |s|
    ensures forall i :: 0 <= i < |s| ==> (r[i] != s[i] <==> 'A' <= s[i] <= 'Z')
  {
    seq(|s|, i requires 0 <= i < |s| => if 'A' <= s[i] <= 'Z' then (s[i] as int + 32) as char else s[i])
  }

  /** Python's `a < b` on strings: code-point order, a proper prefix first. */
  predicate StrLess(a: string, b: string)
  {
    if |a| == 0 then |b| > 0
    else if |b| == 0 then false
    else if a[0] != b[0] then a[0] < b[0]
    else StrLess(a[1..], b[1..])
  }

  lemma {:induction false} StrLessIrreflexive(a: string)
    ensures !StrLess(a, a)
    decreases |a|
  {
    if |a| > 0 {
      StrLessIrreflexive(a[1..]);
    }
  }

  lemma {:induction false} StrLessTransitive(a: string, b: string, c: string)
    requires StrLess(a, b) && StrLess(b, c)
    ensures StrLess(a, c)
    decreases |a|
  {
    if |a| > 0 && |b| > 0 && |c| > 0 && a[0] == b[0] && b[0] == c[0] {
      StrLessTransitive(a[1..], b[1..], c[1..]);
    }
  }

  lemma {:induction false} StrLessConnected(a: string, b: string)
    requires a != b
    ensures StrLess(a, b) || StrLess(b, a)
    decreases |a|
  {
    if |a| > 0 && |b| > 0 && a[0] == b[0] {
      assert a == [a[0]] + a[1..] && b == [b[0]] + b[1..];
      StrLessConnected(a[1..], b[1..]);
    }
  }
}
