/** The operations of Java's `String`, `Character` and `java.util.regex` classes that the
    comic tools rely on, stated over `string`.  Case mapping covers the ASCII letters and
    the Latin-1 letters U+00C0 to U+00FE; every other character is its own lower and
    upper case. */
module Text {

  datatype Option<T> = None | Some(value: T)

  /** `\s` of a Java regular expression: [ \t\n\x0B\f\r]. */
  predicate IsSpace(c: char) {
    c == ' ' || c == '\t' || c == '\n' || c == '\U{B}' || c == '\U{C}' || c == '\r'
  }

  /** `\d` of a Java regular expression: the ASCII digits. */
  predicate IsDigit(c: char) {
    '0' <= c <= '9'
  }

  /** What `String.trim` removes: every character up to U+0020. */
  predicate IsTrimmable(c: char) {
    c <= ' '
  }

  /** The characters the regex `.` does not match (Java's line terminators). */
  predicate IsLineTerminator(c: char) {
    c == '\n' || c == '\r' || c == '\U{85}' || c == '\U{2028}' || c == '\U{2029}'
  }

  predicate IsUpperLetter(c: char) {
    'A' <= c <= 'Z' || ('\U{C0}' <= c <= '\U{DE}' && c != '\U{D7}')
  }

  predicate IsLowerLetter(c: char) {
    'a' <= c <= 'z' || ('\U{E0}' <= c <= '\U{FE}' && c != '\U{F7}')
  }

  /** `Character.toLowerCase`. */
  function ToLower(c: char): (r: char)
    ensures IsUpperLetter(c) ==> IsLowerLetter(r) && r as int == c as int + 32
    ensures !IsUpperLetter(c) ==> r == c
  {
    if IsUpperLetter(c) then (c as int + 32) as char else c
  }

  /** `Character.toTitleCase`, which `StringUtils.capitalize` applies to a first letter. */
  function ToTitle(c: char): (r: char)
    ensures IsLowerLetter(c) ==> IsUpperLetter(r) && r as int == c as int - 32
    ensures !IsLowerLetter(c) ==> r == c
  {
    if IsLowerLetter(c) then (c as int - 32) as char else c
  }

  /** `String.toLowerCase`, character by character. */
  function LowerStr(s: string): (r: string)
    ensures |r| == |s| && forall i :: 0 <= i < |s| ==> r[i] == ToLower(s[i])
  {
    seq(|s|, i requires 0 <= i < |s| => ToLower(s[i]))
  }

  lemma LowerStrConcat(a: string, b: string)
    ensures LowerStr(a + b) == LowerStr(a) + LowerStr(b)
  {
    assert forall i :: 0 <= i < |a + b| ==> LowerStr(a + b)[i] == (LowerStr(a) + LowerStr(b))[i];
  }

  lemma LowerStrTwice(s: string)
    ensures LowerStr(LowerStr(s)) == LowerStr(s)
  {
  }

  /** Lower-casing keeps what `trim` would remove, so a trimmed string stays trimmed. */
  lemma LowerStrTrimmed(s: string)
    requires s == [] || (!IsTrimmable(s[0]) && !IsTrimmable(s[|s| - 1]))
    ensures Trim(LowerStr(s)) == LowerStr(s)
  {
    TrimNoOp(LowerStr(s));
  }

  function Replace(s: string, from: char, to: char): (r: string)
    ensures |r| == |s| && forall i :: 0 <= i < |s| ==> r[i] == if s[i] == from then to else s[i]
  {
    seq(|s|, i requires 0 <= i < |s| => if s[i] == from then to else s[i])
  }

  lemma ReplaceConcat(a: string, b: string, from: char, to: char)
    ensures Replace(a + b, from, to) == Replace(a, from, to) + Replace(b, from, to)
  {
    assert forall i :: 0 <= i < |a + b| ==> Replace(a + b, from, to)[i] == (Replace(a, from, to) + Replace(b, from, to))[i];
  }

  /** `String.lastIndexOf(c)`: the position of the last `c`, or -1. */
  function LastIndexOf(s: string, c: char): (k: int)
    ensures -1 <= k < |s|
    ensures k == -1 <==> c !in s
    ensures k >= 0 ==> s[k] == c && forall i :: k < i < |s| ==> s[i] != c
  {
    LastIndexBefore(s, c, |s|)
  }

  /** Nothing after the last `c` is a `c`. */
  lemma AfterLastIndexOf(s: string, c: char)
    requires c in s
    ensures c !in s[LastIndexOf(s, c) + 1..]
  {
    var k := LastIndexOf(s, c);
    var t := s[k + 1..];
    assert forall i :: 0 <= i < |t| ==> t[i] == s[k + 1 + i];
  }

  /** The position of the last `c` before position `e`, or -1. */
  function LastIndexBefore(s: string, c: char, e: nat): (k: int)
    requires e <= |s|
    ensures -1 <= k < e
    ensures k == -1 <==> forall i :: 0 <= i < e ==> s[i] != c
    ensures k >= 0 ==> s[k] == c && forall i :: k < i < e ==> s[i] != c
  {
    if e == 0 then -1
    else if s[e - 1] == c then e - 1
    else LastIndexBefore(s, c, e - 1)
  }

  /** A `c` with no `c` after it is the last one. */
  lemma LastIndexOfAt(s: string, c: char, k: nat)
    requires k < |s| && s[k] == c && forall i :: k < i < |s| ==> s[i] != c
    ensures LastIndexOf(s, c) == k
  {
  }

  /** `String.indexOf(c)`, for a character known to occur. */
  function IndexOf(s: string, c: char): (k: nat)
    requires c in s
    ensures k < |s| && s[k] == c && forall i :: 0 <= i < k ==> s[i] != c
  {
    IndexFrom(s, c, 0)
  }

  /** The position of the first `c` at or after position `b`. */
  function IndexFrom(s: string, c: char, b: nat): (k: nat)
    requires b <= |s| && exists i :: b <= i < |s| && s[i] == c
    ensures b <= k < |s| && s[k] == c && forall i :: b <= i < k ==> s[i] != c
    decreases |s| - b
  {
    if s[b] == c then b else IndexFrom(s, c, b + 1)
  }

  /** How many trimmable characters start `s`. */
  function LeadingTrimmable(s: string): (n: nat)
    ensures n <= |s|
    ensures forall i :: 0 <= i < n ==> IsTrimmable(s[i])
    ensures n < |s| ==> !IsTrimmable(s[n])
  {
    TrimmableFrom(s, 0)
  }

  function TrimmableFrom(s: string, b: nat): (n: nat)
    requires b <= |s|
    ensures b + n <= |s|
    ensures forall i :: b <= i < b + n ==> IsTrimmable(s[i])
    ensures b + n < |s| ==> !IsTrimmable(s[b + n])
    decreases |s| - b
  {
    if b == |s| || !IsTrimmable(s[b]) then 0 else 1 + TrimmableFrom(s, b + 1)
  }

  /** How many trimmable characters end `s`. */
  function TrailingTrimmable(s: string): (n: nat)
    ensures n <= |s|
    ensures forall i :: |s| - n <= i < |s| ==> IsTrimmable(s[i])
    ensures n < |s| ==> !IsTrimmable(s[|s| - n - 1])
  {
    TrimmableBefore(s, |s|)
  }

  function TrimmableBefore(s: string, e: nat): (n: nat)
    requires e <= |s|
    ensures n <= e
    ensures forall i :: e - n <= i < e ==> IsTrimmable(s[i])
    ensures n < e ==> !IsTrimmable(s[e - n - 1])
  {
    if e == 0 || !IsTrimmable(s[e - 1]) then 0 else 1 + TrimmableBefore(s, e - 1)
  }

  /** How many characters `String.trim` drops from the front of `s`. */
  function TrimOffset(s: string): nat
  {
    LeadingTrimmable(s)
  }

  /** `String.trim`: the infix of `s` left after dropping trimmable characters at both ends. */
  function Trim(s: string): (r: string)
    ensures r == [] || (!IsTrimmable(r[0]) && !IsTrimmable(r[|r| - 1]))
    ensures TrimOffset(s) + |r| <= |s|
    ensures r == s[TrimOffset(s)..TrimOffset(s) + |r|]
    ensures forall i :: 0 <= i < TrimOffset(s) ==> IsTrimmable(s[i])
    ensures forall i :: TrimOffset(s) + |r| <= i < |s| ==> IsTrimmable(s[i])
  {
    var o := LeadingTrimmable(s);
    if o == |s| then []
    else
      var e := |s| - TrailingTrimmable(s);
      assert o < e;
      s[o..e]
  }

  /** `trim` brings in no character. */
  lemma TrimAvoids(s: string, c: char)
    requires c !in s
    ensures c !in Trim(s)
  {
    var r := Trim(s);
    assert forall i :: 0 <= i < |r| ==> r[i] == s[TrimOffset(s) + i];
  }

  lemma TrimNoOp(s: string)
    requires s == [] || (!IsTrimmable(s[0]) && !IsTrimmable(s[|s| - 1]))
    ensures Trim(s) == s
  {
  }

  /** The length of the run of digits that ends at position `e` of `s`. */
  function DigitsBefore(s: string, e: nat): (n: nat)
    requires e <= |s|
    ensures n <= e
    ensures forall i :: e - n <= i < e ==> IsDigit(s[i])
    ensures n < e ==> !IsDigit(s[e - n - 1])
  {
    if e == 0 || !IsDigit(s[e - 1]) then 0 else 1 + DigitsBefore(s, e - 1)
  }

  /** The length of the maximal run of digits that ends `s`. */
  function TrailingDigits(s: string): (n: nat)
    ensures n <= |s|
    ensures forall i :: |s| - n <= i < |s| ==> IsDigit(s[i])
    ensures n < |s| ==> !IsDigit(s[|s| - n - 1])
  {
    DigitsBefore(s, |s|)
  }

  predicate AllDigits(s: string) {
    forall i :: 0 <= i < |s| ==> IsDigit(s[i])
  }

  /** The three facts of the contract of `TrailingDigits` single out its value. */
  lemma TrailingDigitsUnique(s: string, n: nat)
    requires n <= |s|
    requires forall i :: |s| - n <= i < |s| ==> IsDigit(s[i])
    requires n < |s| ==> !IsDigit(s[|s| - n - 1])
    ensures TrailingDigits(s) == n
  {
  }

  /** The trailing digit run of `p + d` is `d` when `p` does not end in a digit. */
  lemma TrailingDigitsOf(p: string, d: string)
    requires AllDigits(d)
    requires p == [] || !IsDigit(p[|p| - 1])
    ensures TrailingDigits(p + d) == |d|
  {
    var s := p + d;
    assert forall i :: |s| - |d| <= i < |s| ==> s[i] == d[i - |p|];
    if |d| < |s| {
      assert s[|s| - |d| - 1] == p[|p| - 1];
    }
    TrailingDigitsUnique(s, |d|);
  }

  function Join(sep: string, parts: seq<string>): (r: string)
  {
    if parts == [] then ""
    else if |parts| == 1 then parts[0]
    else parts[0] + sep + Join(sep, parts[1..])
  }

  lemma {:induction false} JoinLength(sep: string, parts: seq<string>)
    requires parts != []
    ensures |Join(sep, parts)| >= |parts[0]|
    ensures Join(sep, parts)[..|parts[0]|] == parts[0]
  {
  }

  lemma ConcatAssoc(a: string, b: string, c: string)
    ensures a + (b + c) == a + b + c
  {
  }

  /** A sequence with a fixed prefix is determined by what follows it. */
  lemma ConcatSame(a: string, b: string, c: string)
    ensures a + b == a + c <==> b == c
  {
    if a + b == a + c {
      assert b == (a + b)[|a|..];
    }
  }

  predicate StartsWith(s: string, prefix: string) {
    |prefix| <= |s| && s[..|prefix|] == prefix
  }

  /** `String.endsWith`. */
  predicate EndsWith(s: string, suffix: string) {
    |suffix| <= |s| && s[|s| - |suffix|..] == suffix
  }

  // ---- decimal numerals ----

  function DigitChar(d: nat): (c: char)
    requires d < 10
    ensures IsDigit(c) && c as int - '0' as int == d
  {
    (d + '0' as int) as char
  }

  function DigitValue(c: char): (d: nat)
    requires IsDigit(c)
    ensures d < 10 && DigitChar(d) == c
  {
    c as int - '0' as int
  }

  /** The decimal digits of `n`, without leading zeros. */
  function Digits(n: nat): (s: string)
    ensures 1 <= |s| && AllDigits(s)
    ensures |s| > 1 ==> s[0] != '0'
  {
    if n < 10 then [DigitChar(n)] else Digits(n / 10) + [DigitChar(n % 10)]
  }

  /** `Integer.toString` and `%d`. */
  function DecimalString(n: int): (s: string)
  {
    if n < 0 then "-" + Digits(-n) else Digits(n)
  }

  /** The value of a string of decimal digits, as `Integer.parseInt` reads it. */
  function Value(s: string): (v: nat)
    requires AllDigits(s)
  {
    if s == [] then 0 else 10 * Value(s[..|s| - 1]) + DigitValue(s[|s| - 1])
  }

  lemma {:induction false} ValueOfDigits(n: nat)
    ensures Value(Digits(n)) == n
  {
    if n >= 10 {
      var s := Digits(n);
      assert s[..|s| - 1] == Digits(n / 10);
      ValueOfDigits(n / 10);
    }
  }

  function Zeros(n: nat): (s: string)
    ensures |s| == n && AllDigits(s) && forall i :: 0 <= i < n ==> s[i] == '0'
  {
    seq(n, i => '0')
  }

  lemma {:induction false} ValueLeadingZeros(n: nat, s: string)
    requires AllDigits(s)
    ensures Value(Zeros(n) + s) == Value(s)
  {
    if s == [] {
      assert Zeros(n) + s == Zeros(n);
      ZerosValue(n);
    } else {
      assert (Zeros(n) + s)[..|Zeros(n) + s| - 1] == Zeros(n) + s[..|s| - 1];
      ValueLeadingZeros(n, s[..|s| - 1]);
    }
  }

  lemma {:induction false} ZerosValue(n: nat)
    ensures Value(Zeros(n)) == 0
  {
    if n > 0 {
      assert Zeros(n)[..n - 1] == Zeros(n - 1);
      ZerosValue(n - 1);
    }
  }

  /** Larger numbers never have fewer digits. */
  lemma {:induction false} DigitsMonotone(a: nat, b: nat)
    requires a <= b
    ensures |Digits(a)| <= |Digits(b)|
  {
    if a >= 10 {
      DigitsMonotone(a / 10, b / 10);
    }
  }

  /** Every number below ten has a single digit. */
  lemma DigitsBelowTen(n: nat)
    requires n < 10
    ensures |Digits(n)| == 1
  {
  }
}
