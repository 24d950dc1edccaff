/** The page-file naming of `PdfService`: images dumped from a PDF are first written as
    `image_<n>.<format>` with `n` taken from a counter, and then renamed with the number
    padded with zeros to the width of the image count, so that the names sort in page
    order. */
module PdfService {
  import opened Text

  /** The bounds of a Java `int`. */
  const IntMax: int := 0x7fff_ffff
  const IntMin: int := -0x8000_0000

  predicate IsInt(n: int) {
    IntMin <= n <= IntMax
  }

  /** `n + 1` on a Java `int`: past the largest value it wraps to the smallest. */
  function IntIncrement(n: int): (r: int)
    requires IsInt(n)
    ensures IsInt(r)
    ensures n < IntMax ==> r == n + 1
    ensures n == IntMax ==> r == IntMin
  {
    if n == IntMax then IntMin else n + 1
  }

  /** The counter that numbers the images of a document. */
  class Counter {
    var counter: int

    /** The field holds a Java `int`. */
    predicate Valid()
      reads this
    {
      IsInt(counter)
    }

    constructor()
      ensures Valid() && counter == 1
    {
      counter := 1;
    }

    /** `postIncrease`: the current value, and the field goes up by one. */
    method PostIncrease() returns (r: int)
      requires Valid()
      modifies this
      ensures Valid()
      ensures r == old(counter)
      ensures counter == IntIncrement(old(counter))
    {
      r := counter;
      counter := IntIncrement(counter);
    }
  }

  /** `String.format("image_%d.%s", n, format)`. */
  function TemporalName(n: int, format: string): string
  {
    "image_" + DecimalString(n) + "." + format
  }

  /** `calculateTemporalFilename`: the name for the next image, numbered by the
      counter. */
  method CalculateTemporalFilename(counter: Counter, format: string) returns (name: string)
    requires counter.Valid()
    modifies counter
    ensures counter.Valid()
    ensures name == TemporalName(old(counter.counter), format)
    ensures counter.counter == IntIncrement(old(counter.counter))
  {
    var n := counter.PostIncrease();
    name := TemporalName(n, format);
  }

  /** The temporary names of the first `count` images of a document, taken from one
      fresh counter: `image_1`, `image_2`, ..., none padded. */
  method TemporalNames(count: nat, format: string) returns (names: seq<string>)
    requires count <= IntMax
    ensures |names| == count
    ensures forall i :: 0 <= i < count ==> names[i] == TemporalName(i + 1, format)
  {
    var counter := new Counter();
    names := [];
    for i := 0 to count
      invariant counter.counter == IntIncrement(i)
      invariant |names| == i
      invariant forall j :: 0 <= j < i ==> names[j] == TemporalName(j + 1, format)
    {
      var name := CalculateTemporalFilename(counter, format);
      AppendTemporalName(names, name, format);
      names := names + [name];
    }
  }

  lemma AppendTemporalName(names: seq<string>, name: string, format: string)
    requires forall j :: 0 <= j < |names| ==> names[j] == TemporalName(j + 1, format)
    requires name == TemporalName(|names| + 1, format)
    ensures forall j :: 0 <= j < |names| + 1 ==> (names + [name])[j] == TemporalName(j + 1, format)
  {
  }

  // ---- extractIndex ----

  /** `s` holds `t` at position `i`. */
  predicate HoldsAt(s: string, t: string, i: nat) {
    i + |t| <= |s| && s[i..i + |t|] == t
  }

  /** The length of the run of digits of `s` that starts at `b`. */
  function DigitsFrom(s: string, b: nat): (n: nat)
    requires b <= |s|
    ensures b + n <= |s|
    ensures forall k :: b <= k < b + n ==> IsDigit(s[k])
    ensures b + n == |s| || !IsDigit(s[b + n])
    decreases |s| - b
  {
    if b == |s| || !IsDigit(s[b]) then 0 else 1 + DigitsFrom(s, b + 1)
  }

  /** The regex `image_(\d+)\.<format>` matches at `i`: `image_`, a run of digits, a
      dot and the format.  The greedy `\d+` takes the whole run, and a shorter run would
      be followed by a digit rather than the dot, so the run is the maximal one. */
  predicate MatchAt(s: string, format: string, i: nat) {
    HoldsAt(s, "image_", i) &&
    var n := DigitsFrom(s, i + 6);
    n > 0 && HoldsAt(s, "." + format, i + 6 + n)
  }

  /** The leftmost match at or after `i`: what `Matcher.find` reports. */
  function FirstMatch(s: string, format: string, i: nat): (m: Option<nat>)
    ensures m.Some? ==> i <= m.value && MatchAt(s, format, m.value)
    ensures m.Some? ==> forall j :: i <= j < m.value ==> !MatchAt(s, format, j)
    ensures m.None? ==> forall j :: i <= j ==> !MatchAt(s, format, j)
    decreases |s| - i
  {
    if i + 6 > |s| then None
    else if MatchAt(s, format, i) then Some(i)
    else FirstMatch(s, format, i + 1)
  }

  /** What `extractIndex` gives: a value (-1 when nothing matches), or the
      `NumberFormatException` of `Integer.parseInt` on a number too large for an
      `int`. */
  datatype Extracted = Index(value: int) | TooLarge

  /** The digits captured by the match at `i`. */
  function Captured(s: string, i: nat): (d: string)
    requires i + 6 <= |s|
    ensures AllDigits(d)
  {
    s[i + 6..i + 6 + DigitsFrom(s, i + 6)]
  }

  /** `extractIndex`. */
  function ExtractIndex(name: string, format: string): (r: Extracted)
    ensures r == Index(-1) <==> forall j :: 0 <= j ==> !MatchAt(name, format, j)
    ensures r.Index? && r.value != -1 ==> exists i :: 0 <= i && MatchAt(name, format, i) && r.value == Value(Captured(name, i))
    ensures r.Index? ==> r.value >= -1 && IsInt(r.value)
    ensures forall i :: FirstMatch(name, format, 0) == Some(i) ==>
      (r == TooLarge <==> Value(Captured(name, i)) > IntMax) &&
      (r.Index? ==> r.value == Value(Captured(name, i)))
  {
    match FirstMatch(name, format, 0)
    case None => Index(-1)
    case Some(i) =>
      var v := Value(Captured(name, i));
      if v <= IntMax then Index(v) else TooLarge
  }

  /** The number of a temporary name reads back from it. */
  lemma {:induction false} TemporalNameRoundTrip(n: int, format: string)
    requires 0 <= n <= IntMax
    ensures ExtractIndex(TemporalName(n, format), format) == Index(n)
  {
    var d := Digits(n);
    NumberedNameMatches(d, format);
    ValueOfDigits(n);
  }

  /** `image_<digits>.<format>` matches at its start and captures the digits. */
  lemma NumberedNameMatches(d: string, format: string)
    requires d != [] && AllDigits(d)
    ensures var s := "image_" + d + "." + format;
      FirstMatch(s, format, 0) == Some(0) && Captured(s, 0) == d
  {
    var s := "image_" + d + "." + format;
    assert s[0..6] == "image_";
    DigitRunOf(d, format);
    assert s[6 + |d|..6 + |d| + |"." + format|] == "." + format;
    assert MatchAt(s, format, 0);
    assert s[6..6 + |d|] == d;
  }

  /** The digit run of `image_<digits>.<rest>` is the digits. */
  lemma {:induction false} DigitRunOf(d: string, rest: string)
    requires AllDigits(d)
    ensures DigitsFrom("image_" + d + "." + rest, 6) == |d|
  {
    var s := "image_" + d + "." + rest;
    assert s[6 + |d|] == '.';
    assert forall k :: 0 <= k < |d| ==> s[6 + k] == d[k];
  }

  // ---- calculateFilePath ----

  /** `String.format("%0<width>d", i)`: the decimal digits of `i` padded on the left
      with zeros to `width` characters, after the sign of a negative number. */
  function Padded(i: int, width: nat): (s: string)
  {
    var magnitude := Digits(if i < 0 then -i else i);
    var sign := if i < 0 then "-" else "";
    var pad := width - |sign| - |magnitude|;
    sign + Zeros(if pad > 0 then pad else 0) + magnitude
  }

  /** `Integer.toString(total).length()`. */
  function Width(total: int): nat
  {
    |DecimalString(total)|
  }

  /** The final name of image `i` of `total`: `calculateFilePath`. */
  function FileName(i: int, total: int, format: string): string
  {
    "image_" + Padded(i, Width(total)) + "." + format
  }

  /** A page number up to the total is padded to exactly the width of the total, with
      digits that read back as the number. */
  lemma {:induction false} PaddedField(i: nat, total: nat)
    requires i <= total
    ensures |Padded(i, Width(total))| == Width(total)
    ensures AllDigits(Padded(i, Width(total))) && Value(Padded(i, Width(total))) == i
  {
    DigitsMonotone(i, total);
    var w := Width(total);
    assert w == |Digits(total)|;
    var z, m := Zeros(w - |Digits(i)|), Digits(i);
    assert Padded(i, w) == "" + z + m;
    assert "" + z + m == z + m;
    assert forall k :: 0 <= k < |z + m| ==> IsDigit((z + m)[k]) by {
      forall k | 0 <= k < |z + m|
        ensures IsDigit((z + m)[k])
      {
        if k < |z| {
          assert (z + m)[k] == z[k];
        } else {
          assert (z + m)[k] == m[k - |z|];
        }
      }
    }
    ValueOfDigits(i);
    ValueLeadingZeros(w - |m|, m);
  }

  /** The number of a final name reads back from it. */
  lemma FileNameRoundTrip(i: nat, total: nat, format: string)
    requires i <= total <= IntMax
    ensures ExtractIndex(FileName(i, total, format), format) == Index(i)
  {
    PaddedField(i, total);
    var d := Padded(i, Width(total));
    assert d != [] by {
      assert |Digits(i)| >= 1;
    }
    NumberedNameMatches(d, format);
  }

  /** With fewer than ten images no number is padded: the final names are the temporary
      names. */
  lemma FewImagesKeepTheirNames(i: nat, total: nat, format: string)
    requires i <= total < 10
    ensures FileName(i, total, format) == TemporalName(i, format)
  {
    DigitsBelowTen(total);
    DigitsBelowTen(i);
    assert Width(total) == 1;
    assert Padded(i, 1) == "" + Zeros(0) + Digits(i);
    assert Zeros(0) == [];
    assert "" + Zeros(0) + Digits(i) == DecimalString(i);
  }
}
