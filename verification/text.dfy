/** The few Python string built-ins the adapter relies on, over ASCII:
    `str.strip()`, `str.upper()`, `str.lower()`, `str.split(sep)`,
    `str.split(sep, 1)` and `int(str)`. */
module Text {
  import opened Wrappers

  /** The ASCII characters for which Python 3's `str.isspace()` holds:
      tab, line feed, vertical tab, form feed, carriage return, the four
      information separators 0x1C..0x1F, and space. */
  predicate IsSpace(c: char) {
    c == ' ' || c == '\t' || c == '\n' || c == '\r' || c == '\U{B}' || c == '\U{C}'
    || ('\U{1C}' <= c <= '\U{1F}')
  }

  predicate AllSpace(s: string) {
    forall i :: 0 <= i < |s| ==> IsSpace(s[i])
  }

  /** Neither end of `s` is whitespace. */
  predicate Trimmed(s: string) {
    s == [] || (!IsSpace(s[0]) && !IsSpace(s[|s| - 1]))
  }

  /** Index of the first non-whitespace character at or after `i`. */
  function SkipSpaces(s: string, i: nat): (j: nat)
    requires i <= |s|
    ensures i <= j <= |s|
    ensures AllSpace(s[i..j])
    ensures j == |s| || !IsSpace(s[j])
    decreases |s| - i
  {
    if i < |s| && IsSpace(s[i]) then SkipSpaces(s, i + 1) else i
  }

  /** Index just past the last non-whitespace character at or before `j`,
      never going below `i`. */
  function SkipSpacesBack(s: string, i: nat, j: nat): (k: nat)
    requires i <= j <= |s|
    ensures i <= k <= j
    ensures AllSpace(s[k..j])
    ensures k == i || !IsSpace(s[k - 1])
    decreases j
  {
    if i < j && IsSpace(s[j - 1]) then
      var k := SkipSpacesBack(s, i, j - 1);
      assert s[k..j] == s[k..j - 1] + [s[j - 1]];
      k
    else
      j
  }

  /** Python's `str.strip()` with no argument: `s` with its leading and
      trailing whitespace removed, and nothing else. */
  function Strip(s: string): (r: string)
    ensures |r| <= |s|
    ensures Trimmed(r)
    ensures Trimmed(s) ==> r == s
    ensures AllSpace(s) ==> r == []
  {
    var i := SkipSpaces(s, 0);
    var j := SkipSpacesBack(s, i, |s|);
    assert Trimmed(s) && |s| > 0 ==> i == 0 && j == |s|;
    s[i..j]
  }

  /** What `Strip` removes is whitespace at the two ends and nothing else. */
  lemma StripRemovesEdgeSpaces(s: string)
    ensures exists i, j :: 0 <= i <= j <= |s| && Strip(s) == s[i..j] && AllSpace(s[..i]) && AllSpace(s[j..])
  {
    var i := SkipSpaces(s, 0);
    var j := SkipSpacesBack(s, i, |s|);
    assert AllSpace(s[..i]) by { assert s[..i] == s[0..i]; }
    assert AllSpace(s[j..]) by { assert s[j..] == s[j..|s|]; }
    assert Strip(s) == s[i..j];
  }

  /** One leading space in front of a trimmed string is stripped away. */
  lemma StripLeadingSpace(v: string)
    requires Trimmed(v)
    ensures Strip(" " + v) == v
  {
    var s := " " + v;
    assert SkipSpaces(s, 0) == SkipSpaces(s, 1);
    if |v| > 0 {
      assert !IsSpace(s[1]);
      assert SkipSpacesBack(s, 1, |s|) == |s|;
    }
    assert s[1..] == v;
  }

  function UpperChar(c: char): char {
    if 'a' <= c <= 'z' then (c as int - 32) as char else c
  }

  function LowerChar(c: char): char {
    if 'A' <= c <= 'Z' then (c as int + 32) as char else c
  }

  /** Python's `str.upper()` restricted to ASCII letters. */
  function Upper(s: string): (r: string)
    ensures |r| == |s|
    ensures forall i :: 0 <= i < |s| ==> !('a' <= r[i] <= 'z')
    ensures forall i :: 0 <= i < |s| ==>
              if 'a' <= s[i] <= 'z' then r[i] as int == s[i] as int - 32 && 'A' <= r[i] <= 'Z' else r[i] == s[i]
  {
    seq(|s|, i requires 0 <= i < |s| => UpperChar(s[i]))
  }

  /** Python's `str.lower()` restricted to ASCII letters. */
  function Lower(s: string): (r: string)
    ensures |r| == |s|
    ensures forall i :: 0 <= i < |s| ==> !('A' <= r[i] <= 'Z')
    ensures forall i :: 0 <= i < |s| ==>
              if 'A' <= s[i] <= 'Z' then r[i] as int == s[i] as int + 32 && 'a' <= r[i] <= 'z' else r[i] == s[i]
  {
    seq(|s|, i requires 0 <= i < |s| => LowerChar(s[i]))
  }

  /** Index of the first occurrence of `c` in `s` (`s.index(c)`). */
  function IndexOf<T(==)>(s: seq<T>, c: T): (i: nat)
    requires c in s
    ensures i < |s| && s[i] == c && c !in s[..i]
  {
    if s[0] == c then 0
    else
      assert c in s[1..] by { var k :| 0 <= k < |s| && s[k] == c; assert s[1..][k - 1] == c; }
      var i := 1 + IndexOf(s[1..], c);
      assert s[..i] == [s[0]] + s[1..][..i - 1];
      i
  }

  /** `"sep".join(parts)`, used as the inverse of `Split`. */
  function Join(parts: seq<string>, sep: char): string {
    if |parts| == 0 then ""
    else if |parts| == 1 then parts[0]
    else parts[0] + [sep] + Join(parts[1..], sep)
  }

  lemma JoinThree(a: string, b: string, c: string, sep: char)
    ensures Join([a, b, c], sep) == a + [sep] + b + [sep] + c
  {
    assert [a, b, c][1..] == [b, c];
    assert [b, c][1..] == [c];
    assert Join([b, c], sep) == b + [sep] + c;
  }

  /** Python's `s.split(sep)` for a one-character separator: the pieces of
      `s` between separators, empty pieces included, so there is always at
      least one piece. */
  function Split(s: string, sep: char): (parts: seq<string>)
    ensures |parts| >= 1
    ensures forall i :: 0 <= i < |parts| ==> sep !in parts[i]
    ensures Join(parts, sep) == s
    decreases |s|
  {
    if sep in s then
      var i := IndexOf(s, sep);
      var rest := Split(s[i + 1..], sep);
      assert Join([s[..i]] + rest, sep) == s[..i] + [sep] + Join(rest, sep) by {
        assert ([s[..i]] + rest)[1..] == rest;
      }
      assert s == s[..i] + [sep] + s[i + 1..];
      [s[..i]] + rest
    else
      [s]
  }

  lemma IndexOfAfterPrefix(a: string, c: char, b: string)
    requires c !in a
    ensures c in a + [c] + b
    ensures IndexOf(a + [c] + b, c) == |a|
    decreases |a|
  {
    var s := a + [c] + b;
    assert s[|a|] == c;
    if |a| > 0 {
      assert s[1..] == a[1..] + [c] + b;
      IndexOfAfterPrefix(a[1..], c, b);
    }
  }

  /** Splitting text that starts with a separator-free piece and a
      separator gives that piece, then the pieces of the remainder. */
  lemma SplitAfterPiece(a: string, sep: char, b: string)
    requires sep !in a
    ensures Split(a + [sep] + b, sep) == [a] + Split(b, sep)
  {
    var s := a + [sep] + b;
    IndexOfAfterPrefix(a, sep, b);
    assert s[..|a|] == a;
    assert s[|a| + 1..] == b;
  }

  /** `Split` undoes `Join` when no piece contains the separator. */
  lemma {:induction false} SplitJoin(parts: seq<string>, sep: char)
    requires |parts| >= 1
    requires forall i :: 0 <= i < |parts| ==> sep !in parts[i]
    ensures Split(Join(parts, sep), sep) == parts
    decreases |parts|
  {
    if |parts| > 1 {
      var rest := parts[1..];
      assert Join(parts, sep) == parts[0] + [sep] + Join(rest, sep);
      SplitAfterPiece(parts[0], sep, Join(rest, sep));
      SplitJoin(rest, sep);
      assert parts == [parts[0]] + rest;
    }
  }

  /** Python's `line.split(sep, 1)` unpacked into two names: the text
      before the first `sep` and the text after it, or `None` where Python
      raises `ValueError` because there is no `sep` to split on. */
  function SplitFirst(line: string, sep: char): (r: Option<(string, string)>)
    ensures r.None? <==> sep !in line
    ensures r.Some? ==> sep !in r.value.0 && line == r.value.0 + [sep] + r.value.1
  {
    if sep in line then
      var i := IndexOf(line, sep);
      assert line == line[..i] + [sep] + line[i + 1..];
      Some((line[..i], line[i + 1..]))
    else
      None
  }

  predicate IsDigit(c: char) {
    '0' <= c <= '9'
  }

  predicate AllDigits(s: string) {
    forall i :: 0 <= i < |s| ==> IsDigit(s[i])
  }

  function DigitValue(c: char): nat
    requires IsDigit(c)
  {
    c as int - '0' as int
  }

  function DigitChar(d: nat): char
    requires d < 10
  {
    ('0' as int + d) as char
  }

  /** The value of a string of decimal digits, most significant first. */
  function DigitsValue(s: string): nat
    requires AllDigits(s)
  {
    if |s| == 0 then 0 else DigitsValue(s[..|s| - 1]) * 10 + DigitValue(s[|s| - 1])
  }

  /** Canonical decimal rendering of a natural number (no leading zeros). */
  function DecimalString(n: nat): (s: string)
    ensures |s| >= 1 && AllDigits(s)
    ensures s[0] != '0' || n == 0
  {
    if n < 10 then [DigitChar(n)] else DecimalString(n / 10) + [DigitChar(n % 10)]
  }

  /** Decimal rendering of an integer, with a leading `-` when negative. */
  function IntString(n: int): string {
    if n < 0 then "-" + DecimalString(-n) else DecimalString(n)
  }

  /** What `int()` accepts after stripping: an optional sign and one or
      more ASCII digits. */
  predicate IsIntLiteral(t: string) {
    || (|t| > 0 && AllDigits(t))
    || (|t| > 1 && (t[0] == '+' || t[0] == '-') && AllDigits(t[1..]))
  }

  /** Python's `int(s)` on a string: `None` where Python raises
      `ValueError`. Surrounding whitespace and a sign are accepted, leading
      zeros are allowed. */
  function ParseInt(s: string): (r: Option<int>)
    ensures r.Some? <==> IsIntLiteral(Strip(s))
  {
    var t := Strip(s);
    if |t| > 1 && (t[0] == '+' || t[0] == '-') && AllDigits(t[1..]) then
      var magnitude: int := DigitsValue(t[1..]);
      Some(if t[0] == '-' then -magnitude else magnitude)
    else if |t| > 0 && AllDigits(t) then
      Some(DigitsValue(t))
    else
      None
  }

  /** `"0" * z`. */
  function Zeros(z: nat): (s: string)
    ensures |s| == z && forall i :: 0 <= i < z ==> s[i] == '0'
  {
    if z == 0 then "" else Zeros(z - 1) + "0"
  }

  /** Leading zeros do not change the value of a digit string. */
  lemma {:induction false} DigitsValueZeros(z: nat, s: string)
    requires AllDigits(s)
    ensures AllDigits(Zeros(z) + s)
    ensures DigitsValue(Zeros(z) + s) == DigitsValue(s)
    decreases |s|, z
  {
    var t := Zeros(z) + s;
    if |s| > 0 {
      assert t[..|t| - 1] == Zeros(z) + s[..|s| - 1];
      DigitsValueZeros(z, s[..|s| - 1]);
    } else if z > 0 {
      assert t == Zeros(z - 1) + "0";
      assert t[..|t| - 1] == Zeros(z - 1) + s;
      DigitsValueZeros(z - 1, s);
    }
  }

  /** The whitespace before position `j` is skipped up to `j`. */
  lemma {:induction false} SkipSpacesTo(s: string, i: nat, j: nat)
    requires i <= j < |s|
    requires AllSpace(s[i..j]) && !IsSpace(s[j])
    ensures SkipSpaces(s, i) == j
    decreases j - i
  {
    if i < j {
      assert IsSpace(s[i..j][0]);
      assert s[i + 1..j] == s[i..j][1..];
      SkipSpacesTo(s, i + 1, j);
    }
  }

  /** The whitespace after position `k` is skipped back down to `k`. */
  lemma {:induction false} SkipSpacesBackTo(s: string, i: nat, k: nat, j: nat)
    requires i < k <= j <= |s|
    requires AllSpace(s[k..j]) && !IsSpace(s[k - 1])
    ensures SkipSpacesBack(s, i, j) == k
    decreases j
  {
    if k < j {
      assert IsSpace(s[k..j][j - 1 - k]);
      assert s[k..j - 1] == s[k..j][..j - 1 - k];
      SkipSpacesBackTo(s, i, k, j - 1);
    }
  }

  /** `strip()` of a text with no whitespace at its ends, surrounded by
      whitespace, is that text. */
  lemma StripSurrounded(lead: string, core: string, trail: string)
    requires AllSpace(lead) && AllSpace(trail)
    requires |core| > 0 && !IsSpace(core[0]) && !IsSpace(core[|core| - 1])
    ensures Strip(lead + core + trail) == core
  {
    var s := lead + core + trail;
    var i, k := |lead|, |lead| + |core|;
    assert s[0..i] == lead;
    assert s[k..|s|] == trail;
    assert s[i] == core[0] && s[k - 1] == core[|core| - 1];
    SkipSpacesTo(s, 0, i);
    SkipSpacesBackTo(s, i, k, |s|);
    assert s[i..k] == core;
  }

  /** The spellings `int()` reads as a number of magnitude `m`: whitespace
      around it, an optional sign, leading zeros, then the digits. */
  function Spelled(lead: string, sign: string, zeros: nat, m: nat, trail: string): string {
    lead + sign + Zeros(zeros) + DecimalString(m) + trail
  }

  /** A magnitude with its sign applied. */
  function Signed(sign: string, m: nat): int {
    var v: int := m;
    if sign == "-" then -v else v
  }

  /** A spelling with no whitespace and no sign is its digits. */
  lemma SpelledBare(zeros: nat, m: nat)
    ensures Spelled("", "", zeros, m, "") == Zeros(zeros) + DecimalString(m)
  {
  }

  /** `int()` of a text that strips to an optional sign and digits. */
  lemma ParseIntSigned(s: string, sign: string, digits: string)
    requires sign == "" || sign == "+" || sign == "-"
    requires |digits| > 0 && AllDigits(digits) && Strip(s) == sign + digits
    ensures ParseInt(s) == Some(Signed(sign, DigitsValue(digits)))
  {
    var t := Strip(s);
    if sign == "" {
      assert t == digits;
      assert IsDigit(t[0]);
      assert ParseInt(s) == Some(DigitsValue(t));
    } else {
      assert t[0] == sign[0] && t[1..] == digits;
    }
  }

  /** `int()` reads every such spelling as its number: `" 007"` as 7,
      `"+12"` as 12, `"-0"` as 0. */
  lemma ParseIntSpelled(lead: string, sign: string, zeros: nat, m: nat, trail: string)
    requires AllSpace(lead) && AllSpace(trail)
    requires sign == "" || sign == "+" || sign == "-"
    ensures ParseInt(Spelled(lead, sign, zeros, m, trail)) == Some(Signed(sign, m))
  {
    var digits := Zeros(zeros) + DecimalString(m);
    assert Spelled(lead, sign, zeros, m, trail) == lead + (sign + digits) + trail;
    SpelledDigits(zeros, m);
    SignedDigitsTrimmed(sign, digits);
    StripSurrounded(lead, sign + digits, trail);
    ParseIntSigned(lead + (sign + digits) + trail, sign, digits);
  }

  /** The digits of a spelling are worth its magnitude. */
  lemma SpelledDigits(zeros: nat, m: nat)
    ensures var digits := Zeros(zeros) + DecimalString(m);
            |digits| > 0 && AllDigits(digits) && DigitsValue(digits) == m
  {
    DigitsValueZeros(zeros, DecimalString(m));
    DigitsValueDecimal(m);
  }

  /** A sign followed by digits has no whitespace at either end. */
  lemma SignedDigitsTrimmed(sign: string, digits: string)
    requires sign == "" || sign == "+" || sign == "-"
    requires |digits| > 0 && AllDigits(digits)
    ensures var core := sign + digits;
            |core| > 0 && !IsSpace(core[0]) && !IsSpace(core[|core| - 1])
  {
    var core := sign + digits;
    assert core[|core| - 1] == digits[|digits| - 1];
    assert IsDigit(digits[|digits| - 1]);
    if sign == "" {
      assert core[0] == digits[0] && IsDigit(digits[0]);
    }
  }

  /** A digit string with no superfluous leading zero. */
  predicate Canonical(r: string) {
    |r| > 0 && AllDigits(r) && (r[0] != '0' || |r| == 1)
  }

  lemma {:induction false} DigitsValuePositive(r: string)
    requires |r| > 0 && AllDigits(r) && r[0] != '0'
    ensures DigitsValue(r) >= 1
    decreases |r|
  {
    if |r| > 1 {
      DigitsValuePositive(r[..|r| - 1]);
    }
  }

  /** A canonical digit string is the rendering of its own value. */
  lemma {:induction false} CanonicalIsDecimal(r: string)
    requires Canonical(r)
    ensures DecimalString(DigitsValue(r)) == r
    decreases |r|
  {
    var c := r[|r| - 1];
    assert DigitChar(DigitValue(c)) == c;
    if |r| > 1 {
      var front := r[..|r| - 1];
      assert front[0] == r[0];
      CanonicalIsDecimal(front);
      DigitsValuePositive(front);
      var v := DigitsValue(r);
      assert v == DigitsValue(front) * 10 + DigitValue(c);
      assert v / 10 == DigitsValue(front) && v % 10 == DigitValue(c);
      assert r == front + [c];
    } else {
      assert r == [c];
    }
  }

  /** Every digit string is some leading zeros before a canonical one. */
  lemma {:induction false} SplitLeadingZeros(d: string)
    requires |d| > 0 && AllDigits(d)
    ensures exists z: nat, r :: d == Zeros(z) + r && Canonical(r)
    decreases |d|
  {
    if d[0] != '0' || |d| == 1 {
      assert d == Zeros(0) + d && Canonical(d);
    } else {
      SplitLeadingZeros(d[1..]);
      var z: nat, r :| d[1..] == Zeros(z) + r && Canonical(r);
      assert Zeros(z + 1) == "0" + Zeros(z);
      assert d == Zeros(z + 1) + r;
    }
  }

  /** Every digit string is a spelling of its value. */
  lemma DigitsSpelled(d: string)
    requires |d| > 0 && AllDigits(d)
    ensures exists z: nat :: d == Zeros(z) + DecimalString(DigitsValue(d))
  {
    SplitLeadingZeros(d);
    var z: nat, r :| d == Zeros(z) + r && Canonical(r);
    CanonicalIsDecimal(r);
    DigitsValueZeros(z, r);
  }

  /** Whatever `int()` accepts is a spelling of the number it returns:
      with `ParseIntSpelled`, `int()` succeeds exactly on the spellings. */
  lemma ParseIntReadsSpelling(s: string)
    requires ParseInt(s).Some?
    ensures exists lead, sign, zeros: nat, m: nat, trail ::
              && AllSpace(lead) && AllSpace(trail) && (sign == "" || sign == "+" || sign == "-")
              && s == Spelled(lead, sign, zeros, m, trail)
              && ParseInt(s) == Some(Signed(sign, m))
  {
    var t := Strip(s);
    StripSplit(s);
    var lead, trail :| AllSpace(lead) && AllSpace(trail) && s == lead + t + trail;
    IntLiteralParts(t);
    var sign, digits :| (sign == "" || sign == "+" || sign == "-") && |digits| > 0 && AllDigits(digits) && t == sign + digits;
    DigitsSpelled(digits);
    var z: nat :| digits == Zeros(z) + DecimalString(DigitsValue(digits));
    var m := DigitsValue(digits);
    ParseIntSpelled(lead, sign, z, m, trail);
    assert s == lead + (sign + (Zeros(z) + DecimalString(m))) + trail;
    Regroup(lead, sign, Zeros(z), DecimalString(m), trail);
  }

  lemma Regroup(a: string, b: string, c: string, d: string, e: string)
    ensures a + (b + (c + d)) + e == a + b + c + d + e
  {
  }

  /** A text is its strip with whitespace around it. */
  lemma StripSplit(s: string)
    ensures exists lead, trail :: AllSpace(lead) && AllSpace(trail) && s == lead + Strip(s) + trail
  {
    var i, j :| 0 <= i <= j <= |s| && Strip(s) == s[i..j] && AllSpace(s[..i]) && AllSpace(s[j..]);
    ThreeSlices(s, i, j);
  }

  lemma ThreeSlices(s: string, i: nat, j: nat)
    requires i <= j <= |s|
    ensures s == s[..i] + s[i..j] + s[j..]
  {
    assert s[..i] + s[i..j] == s[..j];
  }

  /** What `int()` accepts after stripping is an optional sign and digits. */
  lemma IntLiteralParts(t: string)
    requires IsIntLiteral(t)
    ensures exists sign, digits :: (sign == "" || sign == "+" || sign == "-") && |digits| > 0 && AllDigits(digits) && t == sign + digits
  {
    if |t| > 0 && AllDigits(t) {
      assert t == "" + t;
    } else {
      assert t == [t[0]] + t[1..];
    }
  }

  /** Reading back a rendered number gives the number. */
  lemma {:induction false} DigitsValueDecimal(n: nat)
    ensures DigitsValue(DecimalString(n)) == n
  {
    if n >= 10 {
      var s := DecimalString(n);
      assert s[..|s| - 1] == DecimalString(n / 10);
      DigitsValueDecimal(n / 10);
    }
  }

  /** `int()` inverts the decimal rendering of every integer. */
  lemma ParseIntString(n: int)
    ensures ParseInt(IntString(n)) == Some(n)
  {
    var s := IntString(n);
    var d := DecimalString(if n < 0 then -n else n);
    assert Trimmed(s);
    DigitsValueDecimal(if n < 0 then -n else n);
    if n < 0 {
      assert s[1..] == d;
    } else {
      assert !IsDigit('-') && !IsDigit('+');
    }
  }
}
