/** Colombian tax identifiers (NIT): cleaning the written form, splitting off the
    verification digit, and computing that digit with the modulo-11 weighted sum. */
module Nit {
  import opened Wrappers
  import opened Text
  import opened Values

  /** `clean_nit`: a falsy value gives the empty string; otherwise the value's text
      is stripped and every `.` and every ASCII blank is deleted. Other characters,
      hyphens included, are kept in order. */
  function CleanNit(v: Value, show: real -> string): (r: string)
    ensures !Truthy(v) ==> r == ""
    ensures '.' !in r && ' ' !in r
    ensures |r| <= |ValueText(v, show)|
  {
    if !Truthy(v) then ""
    else
      var t := Remove(Strip(ValueText(v, show)), '.');
      RemoveOnlyDeletes(t, ' ', '.');
      Remove(t, ' ')
  }

  /** Cleaning keeps every character other than `.` and blank, as often as the
      stripped text holds it. */
  lemma CleanNitKeeps(v: Value, show: real -> string, c: char)
    requires Truthy(v) && c != '.' && c != ' '
    ensures Count(CleanNit(v, show), c) == Count(Strip(ValueText(v, show)), c)
  {
    var t := Strip(ValueText(v, show));
    CountRemoveOther(Remove(t, '.'), ' ', c);
    CountRemoveOther(t, '.', c);
  }

  /** Text that is already clean is a fixed point. */
  lemma CleanNitFixed(s: string, show: real -> string)
    requires s != "" && '.' !in s && ' ' !in s && !IsSpace(s[0]) && !IsSpace(s[|s| - 1])
    ensures CleanNit(Str(s), show) == s
  {
    StripPlain(s);
  }

  /** Cleaning twice is cleaning once, unless deleting the dots and blanks left
      some other whitespace at an end of the text (`".\t5"` cleans to `"\t5"`,
      which cleans again to `"5"`). */
  lemma CleanNitIdempotent(v: Value, show: real -> string)
    requires CleanNit(v, show) == "" || (!IsSpace(CleanNit(v, show)[0])
      && !IsSpace(CleanNit(v, show)[|CleanNit(v, show)| - 1]))
    ensures CleanNit(Str(CleanNit(v, show)), show) == CleanNit(v, show)
  {
    var r := CleanNit(v, show);
    if r != "" {
      CleanNitFixed(r, show);
    }
  }

  // The examples the repository's format tests check for `clean_nit`.

  lemma CleanNitVectorDotted(show: real -> string)
    ensures CleanNit(Str("900.123.456-1"), show) == "900123456-1"
  {
    SpellDotted();
    CleanGroups3("900", "123", "456-1", '.', show);
  }

  lemma SpellDotted()
    ensures "900.123.456-1" == "900" + ['.'] + "123" + ['.'] + "456-1"
    ensures "900" + "123" + "456-1" == "900123456-1"
    ensures Groups3("900", "123", "456-1")
  {
  }

  lemma CleanNitVectorGroups(show: real -> string)
    ensures CleanNit(Str("1.032.443.194"), show) == "1032443194"
  {
    SpellGroups();
    CleanGroups4("1", "032", "443", "194", '.', show);
  }

  lemma SpellGroups()
    ensures "1.032.443.194" == "1" + ['.'] + "032" + ['.'] + "443" + ['.'] + "194"
    ensures "1" + "032" + "443" + "194" == "1032443194"
    ensures Groups3("1", "032", "443") && Groups3("1", "032", "194")
  {
  }

  lemma CleanNitVectorPlain(show: real -> string)
    ensures CleanNit(Str("901464705"), show) == "901464705"
  {
    SpellPlain();
    CleanNitFixed("901464705", show);
  }

  lemma SpellPlain()
    ensures Groups3("901464705", "", "901464705")
  {
  }

  lemma CleanNitVectorBlanks(show: real -> string)
    ensures CleanNit(Str("800 123 456"), show) == "800123456"
  {
    SpellBlanks();
    CleanGroups3("800", "123", "456", ' ', show);
  }

  lemma SpellBlanks()
    ensures "800 123 456" == "800" + [' '] + "123" + [' '] + "456"
    ensures "800" + "123" + "456" == "800123456"
    ensures Groups3("800", "123", "456")
  {
  }

  lemma CleanNitVectorPadded(show: real -> string)
    ensures CleanNit(Str(" 123.456 "), show) == "123456"
  {
    SpellPadded();
    CleanPadded("123", "456", show);
  }

  lemma SpellPadded()
    ensures " 123.456 " == " " + ("123" + ['.'] + "456") + " "
    ensures "123" + "456" == "123456"
    ensures Groups3("123", "", "456")
  {
  }

  /** No dot and no blank: the characters `clean_nit` deletes. */
  predicate NoSeparator(s: string) {
    '.' !in s && ' ' !in s
  }

  /** Groups of a written NIT: none holds a separator, and the text they make
      starts and ends with a character that is not whitespace. */
  predicate Groups3(a: string, b: string, d: string) {
    && a != "" && d != "" && !IsSpace(a[0]) && !IsSpace(d[|d| - 1])
    && NoSeparator(a) && NoSeparator(b) && NoSeparator(d)
  }

  /** Deleting the separators of `x`, then of `x` followed by a separator and a
      separator-free `y`, only appends `y`. */
  lemma CleanAppend(x: string, y: string, c: char)
    requires (c == '.' || c == ' ') && NoSeparator(y)
    ensures Remove(Remove(x + [c] + y, '.'), ' ') == Remove(Remove(x, '.'), ' ') + y
  {
    var x' := Remove(x, '.');
    if c == '.' {
      RemoveJoin(x, y, '.');
      RemoveAppend(x', y, ' ');
    } else {
      RemoveAppend(x + [c], y, '.');
      RemoveAppend(x, [c], '.');
      assert Remove([c], '.') == [c];
      RemoveJoin(x', y, ' ');
    }
  }

  /** A text with no whitespace at its ends is cleaned by deleting its separators. */
  lemma CleanPlainEnds(s: string, show: real -> string)
    requires s != "" && !IsSpace(s[0]) && !IsSpace(s[|s| - 1])
    ensures CleanNit(Str(s), show) == Remove(Remove(s, '.'), ' ')
  {
    StripPlain(s);
  }

  /** Cleaning `a c b c d`, with `c` a dot or a blank, joins the groups. */
  lemma CleanGroups3(a: string, b: string, d: string, c: char, show: real -> string)
    requires (c == '.' || c == ' ') && Groups3(a, b, d)
    ensures CleanNit(Str(a + [c] + b + [c] + d), show) == a + b + d
  {
    var s := a + [c] + b + [c] + d;
    assert s[0] == a[0] && s[|s| - 1] == d[|d| - 1];
    CleanPlainEnds(s, show);
    CleanAppend(a + [c] + b, d, c);
    CleanAppend(a, b, c);
  }

  /** Cleaning `a c b c d c e` joins the four groups. */
  lemma CleanGroups4(a: string, b: string, d: string, e: string, c: char, show: real -> string)
    requires (c == '.' || c == ' ') && Groups3(a, b, d) && Groups3(a, b, e)
    ensures CleanNit(Str(a + [c] + b + [c] + d + [c] + e), show) == a + b + d + e
  {
    var s := a + [c] + b + [c] + d + [c] + e;
    assert s[0] == a[0] && s[|s| - 1] == e[|e| - 1];
    CleanPlainEnds(s, show);
    CleanAppend(a + [c] + b + [c] + d, e, c);
    CleanAppend(a + [c] + b, d, c);
    CleanAppend(a, b, c);
  }

  /** Cleaning `a.b` padded with a blank on each side strips the blanks and
      deletes the dot. */
  lemma CleanPadded(a: string, b: string, show: real -> string)
    requires Groups3(a, "", b)
    ensures CleanNit(Str(" " + (a + ['.'] + b) + " "), show) == a + b
  {
    var t := a + ['.'] + b;
    assert t[0] == a[0] && t[|t| - 1] == b[|b| - 1];
    StripPadded(t);
    CleanAppend(a, b, '.');
  }

  lemma CleanNitVectorEmpty(show: real -> string)
    ensures CleanNit(Null, show) == ""
    ensures CleanNit(Str(""), show) == ""
  {
  }

  /** Whitespace other than the blank is kept inside the text: only the ends are
      stripped. */
  lemma CleanNitVectorTab(raw: string, show: real -> string)
    requires raw == "12\t-3"
    ensures CleanNit(Str(raw), show) == raw
  {
    assert raw[0] == '1' && raw[|raw| - 1] == '3';
    assert !IsSpace(raw[0]) && !IsSpace(raw[|raw| - 1]);
    assert '.' !in raw && ' ' !in raw;
    CleanNitFixed(raw, show);
  }

  // ---------------------------------------------------------------------------

  /** The number and verification digit of a cleaned NIT: with a hyphen, the text
      before the first hyphen and the text after the last one; without, the whole
      text and no digit. */
  datatype NitParts = NitParts(number: string, digit: Option<string>)

  function SplitNit(raw: string): (p: NitParts)
    ensures '-' !in p.number
    ensures p.digit.None? <==> '-' !in raw
    ensures p.digit.Some? ==> '-' !in p.digit.value && EndsWith(raw, "-" + p.digit.value)
    ensures StartsWith(raw, p.number)
  {
    if '-' in raw then
      var k := AfterLast(raw, '-');
      assert raw[k - 1..] == "-" + raw[k..];
      NitParts(raw[..IndexOf(raw, '-')], Some(raw[k..]))
    else NitParts(raw, None)
  }

  /** The number part holds no character the whole text does not hold. */
  lemma SplitNumberWithin(raw: string, c: char)
    requires c !in raw
    ensures c !in SplitNit(raw).number
  {
    var n := SplitNit(raw).number;
    assert forall k :: 0 <= k < |n| ==> n[k] == raw[k];
  }

  /** Joining a number and a digit with a hyphen and splitting gives both back. */
  lemma SplitJoined(n: string, d: string)
    requires '-' !in n && '-' !in d
    ensures SplitNit(n + "-" + d) == NitParts(n, Some(d))
  {
    var raw := n + "-" + d;
    assert raw[|n|] == '-';
    assert raw[..|n|] == n;
    assert raw[|n| + 1..] == d;
    assert forall j :: 0 <= j < |n| ==> raw[j] == n[j];
    assert forall j :: |n| < j < |raw| ==> raw[j] == d[j - |n| - 1];
    assert IndexOf(raw, '-') == |n|;
    assert AfterLast(raw, '-') == |n| + 1;
  }

  /** Without a hyphen the cleaned text is the number and no digit is extracted. */
  lemma SplitUnhyphenated(raw: string)
    requires '-' !in raw
    ensures SplitNit(raw) == NitParts(raw, None)
  {
  }

  /** With more than one hyphen the middle part is dropped. */
  lemma SplitDropsMiddle()
    ensures SplitNit("123-456-1") == NitParts("123", Some("1"))
  {
    var raw := "123-456-1";
    assert raw[3] == '-' && raw[7] == '-';
    assert '-' !in raw[..3];
    assert '-' !in raw[8..];
    assert raw[..3] == "123" && raw[8..] == "1";
  }

  // ---------------------------------------------------------------------------

  /** The fifteen weights, as written for a fifteen-digit number (left to right). */
  const Primes: seq<nat> := [71, 67, 59, 53, 47, 43, 41, 37, 29, 23, 19, 17, 13, 7, 3]
  const MaxNitDigits: nat := 15

  /** The weights for an `n`-digit number: the last `n` of the fifteen, so that the
      rightmost digit is always weighted 3. */
  function Weights(n: nat): (w: seq<nat>)
    requires 1 <= n <= MaxNitDigits
    ensures |w| == n && w[n - 1] == 3
  {
    Primes[MaxNitDigits - n..]
  }

  /** Sum of each digit times the weight at the same position. */
  function WeightedSum(s: string, w: seq<nat>): nat
    requires AllDigits(s) && |w| == |s|
  {
    if |s| == 0 then 0 else DigitValue(s[0]) * w[0] + WeightedSum(s[1..], w[1..])
  }

  /** Appending a digit and its weight adds their product: the sum can be
      accumulated left to right, as the source loop does. */
  lemma {:induction false} WeightedSumSnoc(s: string, w: seq<nat>, c: char, x: nat)
    requires AllDigits(s) && |w| == |s| && IsDigit(c)
    ensures AllDigits(s + [c])
    ensures WeightedSum(s + [c], w + [x]) == WeightedSum(s, w) + DigitValue(c) * x
  {
    if |s| > 0 {
      assert (s + [c])[1..] == s[1..] + [c];
      assert (w + [x])[1..] == w[1..] + [x];
      WeightedSumSnoc(s[1..], w[1..], c, x);
    }
  }

  /** The sum over the first `i + 1` digits extends the sum over the first `i`. */
  lemma WeightedSumPrefix(s: string, w: seq<nat>, i: nat)
    requires AllDigits(s) && |w| == |s| && i < |s|
    ensures AllDigits(s[..i]) && AllDigits(s[..i + 1])
    ensures WeightedSum(s[..i + 1], w[..i + 1]) == WeightedSum(s[..i], w[..i]) + DigitValue(s[i]) * w[i]
  {
    assert s[..i + 1] == s[..i] + [s[i]];
    assert w[..i + 1] == w[..i] + [w[i]];
    WeightedSumSnoc(s[..i], w[..i], s[i], w[i]);
  }

  /** Remainders 0 and 1 are the digit; any other remainder `v` gives `11 - v`. */
  function DigitFromRemainder(v: nat): (d: nat)
    requires v < 11
    ensures d < 10
  {
    if v > 1 then 11 - v else v
  }

  /** `calculate_nit_verification_digit`: the empty string when the input is not a
      non-empty digit string; `?` for more than fifteen digits; otherwise the
      single verification digit. */
  function CheckDigit(nit: string): (r: string)
    ensures r == "" <==> !IsDigits(nit)
    ensures r == "?" <==> IsDigits(nit) && |nit| > MaxNitDigits
    ensures IsDigits(nit) && |nit| <= MaxNitDigits ==> |r| == 1 && IsDigit(r[0])
  {
    if !IsDigits(nit) then ""
    else if |nit| > MaxNitDigits then "?"
    else [DigitChar(DigitFromRemainder(WeightedSum(nit, Weights(|nit|)) % 11))]
  }

  /** The source's loop: strip (a no-op on digits), bound the length, then
      accumulate the weighted sum digit by digit. The loop's own `?` for a
      non-digit character cannot be reached once the whole text passed the
      digit test, so it is not repeated here. */
  method ComputeCheckDigit(nit: string) returns (r: string)
    ensures r == CheckDigit(nit)
  {
    if |nit| == 0 || !AllDigits(nit) {
      return "";
    }
    var s := Strip(nit);
    assert s == nit by {
      StripDigits(nit);
    }
    if |s| > MaxNitDigits {
      return "?";
    }
    r := ShortCheckDigit(s);
  }

  /** The weighted-sum part, for a number of at most fifteen digits. */
  method ShortCheckDigit(s: string) returns (r: string)
    requires IsDigits(s) && |s| <= MaxNitDigits
    ensures r == CheckDigit(s)
  {
    var total := WeightedTotal(s, Weights(|s|));
    r := RemainderDigit(total);
    assert r == CheckDigit(s) by {
      CheckDigitOfTotal(s, total);
    }
  }

  /** Stripping a digit string leaves it as it is. */
  lemma StripDigits(nit: string)
    requires AllDigits(nit)
    ensures Strip(nit) == nit
  {
    forall i | 0 <= i < |nit| ensures !IsSpace(nit[i]) {
      DigitNotSpace(nit[i]);
    }
    StripNoSpace(nit);
  }

  /** The remainder of the weighted sum, replaced by its complement to 11 when
      it is above 1, as a one-character string. */
  method RemainderDigit(total: nat) returns (r: string)
    ensures r == [DigitChar(DigitFromRemainder(total % 11))]
  {
    var v := total % 11;
    if v > 1 {
      v := 11 - v;
    }
    r := [DigitChar(v)];
  }

  /** The check digit of a number of at most fifteen digits, from its weighted sum. */
  lemma CheckDigitOfTotal(nit: string, total: nat)
    requires IsDigits(nit) && |nit| <= MaxNitDigits
    requires total == WeightedSum(nit, Weights(|nit|))
    ensures CheckDigit(nit) == [DigitChar(DigitFromRemainder(total % 11))]
  {
  }

  /** The accumulation loop of the check digit. */
  method WeightedTotal(s: string, w: seq<nat>) returns (total: nat)
    requires AllDigits(s) && |w| == |s|
    ensures total == WeightedSum(s, w)
  {
    total := 0;
    for i := 0 to |s|
      invariant total == WeightedSum(s[..i], w[..i])
    {
      WeightedSumPrefix(s, w, i);
      total := total + DigitValue(s[i]) * w[i];
    }
    assert s[..|s|] == s && w[..|w|] == w;
  }

  // ---------------------------------------------------------------------------

  /** The rule as the tax authority states it: the rightmost digit is weighted 3,
      the next 7, then 13, 17, 19, 23, 29, 37, 41, 43, 47, 53, 59, 67 and 71. */
  const RightToLeftWeights: seq<nat> := [3, 7, 13, 17, 19, 23, 29, 37, 41, 43, 47, 53, 59, 67, 71]

  /** Weighted sum with the `k`-th digit from the right weighted by `q[k0 + k]`. */
  function RightSum(s: string, q: seq<nat>, k0: nat): nat
    requires AllDigits(s) && |s| + k0 <= |q|
    decreases |s|
  {
    if |s| == 0 then 0
    else DigitValue(s[|s| - 1]) * q[k0] + RightSum(s[..|s| - 1], q, k0 + 1)
  }

  lemma WeightsAreSuffix(n: nat)
    requires 1 <= n <= MaxNitDigits
    ensures Primes[MaxNitDigits - n..MaxNitDigits] == Weights(n)
  {
    assert Primes[..MaxNitDigits] == Primes;
  }

  /** The authority's list is the fifteen weights read backwards. */
  lemma ReversedWeights()
    ensures |RightToLeftWeights| == |Primes|
    ensures forall k :: 0 <= k < |Primes| ==> RightToLeftWeights[k] == Primes[|Primes| - 1 - k]
  {
  }

  /** Weights `p` read left to right and aligned to the right end of the number
      give the same sum as their reverse `q` read from the right. */
  lemma {:induction false} RightAlignedWeights(s: string, p: seq<nat>, q: seq<nat>, k0: nat)
    requires AllDigits(s) && |q| == |p| && |s| + k0 <= |p|
    requires forall k :: 0 <= k < |p| ==> q[k] == p[|p| - 1 - k]
    ensures WeightedSum(s, p[|p| - k0 - |s|..|p| - k0]) == RightSum(s, q, k0)
    decreases |s|
  {
    if |s| > 0 {
      var lo, hi := |p| - k0 - |s|, |p| - k0;
      var s', c := s[..|s| - 1], s[|s| - 1];
      var w' := p[lo..hi - 1];
      assert p[lo..hi] == w' + [p[hi - 1]];
      RightAlignedWeights(s', p, q, k0 + 1);
      assert s == s' + [c];
      WeightedSumSnoc(s', w', c, p[hi - 1]);
    }
  }

  /** Aligning the fifteen left-to-right weights to the right end of the number is
      the same as weighting from the right with 3, 7, 13, ... */
  lemma CheckDigitIsRightToLeft(nit: string)
    requires IsDigits(nit) && |nit| <= MaxNitDigits
    ensures CheckDigit(nit) == [DigitChar(DigitFromRemainder(RightSum(nit, RightToLeftWeights, 0) % 11))]
  {
    AuthoritySum(nit);
    CheckDigitOfTotal(nit, RightSum(nit, RightToLeftWeights, 0));
  }

  /** The weighted sum of the model is the sum the authority's rule prescribes. */
  lemma AuthoritySum(nit: string)
    requires IsDigits(nit) && |nit| <= MaxNitDigits
    ensures WeightedSum(nit, Weights(|nit|)) == RightSum(nit, RightToLeftWeights, 0)
  {
    ReversedWeights();
    RightAlignedWeights(nit, Primes, RightToLeftWeights, 0);
    WeightsAreSuffix(|nit|);
  }

  /** The weighted sum from position `i` on, indexed rather than sliced, so that
      it can be evaluated on a written-out number one digit at a time. */
  function SumFrom(s: string, w: seq<nat>, i: nat): nat
    requires AllDigits(s) && |w| == |s| && i <= |s|
    decreases |s| - i
  {
    if i == |s| then 0 else DigitValue(s[i]) * w[i] + SumFrom(s, w, i + 1)
  }

  lemma {:induction false} SumFromIsWeighted(s: string, w: seq<nat>, i: nat)
    requires AllDigits(s) && |w| == |s| && i <= |s|
    ensures AllDigits(s[i..])
    ensures WeightedSum(s[i..], w[i..]) == SumFrom(s, w, i)
    decreases |s| - i
  {
    if i < |s| {
      SumFromIsWeighted(s, w, i + 1);
      assert s[i..][1..] == s[i + 1..];
      assert w[i..][1..] == w[i + 1..];
    }
  }

  /** The check digit follows from the weighted sum. */
  lemma CheckDigitFromSum(nit: string, w: seq<nat>, total: nat)
    requires IsDigits(nit) && |nit| <= MaxNitDigits && Weights(|nit|) == w
    requires SumFrom(nit, w, 0) == total
    ensures CheckDigit(nit) == [DigitChar(DigitFromRemainder(total % 11))]
  {
    SumFromIsWeighted(nit, w, 0);
    assert nit[0..] == nit && w[0..] == w;
    CheckDigitOfTotal(nit, total);
  }

  // The examples the repository's format tests check.

  lemma CheckDigitVectorBancolombia()
    ensures CheckDigit("890903938") == "8"
  {
    assert 1081 % 11 == 3;
    assert DigitFromRemainder(3) == 8;
    assert DigitChar(8) == '8';
    var w: seq<nat> := [41, 37, 29, 23, 19, 17, 13, 7, 3];
    SumBancolombia();
    assert Weights(9) == w;
    CheckDigitFromSum("890903938", w, 1081);
  }

  lemma SumBancolombia()
    ensures SumFrom("890903938", [41, 37, 29, 23, 19, 17, 13, 7, 3], 0) == 1081
  {
    var s := "890903938";
    var w: seq<nat> := [41, 37, 29, 23, 19, 17, 13, 7, 3];
    assert SumFrom(s, w, 8) == 24 + 0;
    assert SumFrom(s, w, 7) == 21 + 24;
    assert SumFrom(s, w, 6) == 117 + 45;
    assert SumFrom(s, w, 5) == 51 + 162;
    assert SumFrom(s, w, 4) == 0 + 213;
    assert SumFrom(s, w, 3) == 207 + 213;
    assert SumFrom(s, w, 2) == 0 + 420;
    assert SumFrom(s, w, 1) == 333 + 420;
    assert SumFrom(s, w, 0) == 328 + 753;
  }

  lemma CheckDigitVectorStandardTest()
    ensures CheckDigit("860000001") == "8"
  {
    assert 553 % 11 == 3;
    assert DigitFromRemainder(3) == 8;
    assert DigitChar(8) == '8';
    var w: seq<nat> := [41, 37, 29, 23, 19, 17, 13, 7, 3];
    SumStandardTest();
    assert Weights(9) == w;
    CheckDigitFromSum("860000001", w, 553);
  }

  lemma SumStandardTest()
    ensures SumFrom("860000001", [41, 37, 29, 23, 19, 17, 13, 7, 3], 0) == 553
  {
    var s := "860000001";
    var w: seq<nat> := [41, 37, 29, 23, 19, 17, 13, 7, 3];
    assert SumFrom(s, w, 8) == 3 + 0;
    assert SumFrom(s, w, 7) == 0 + 3;
    assert SumFrom(s, w, 6) == 0 + 3;
    assert SumFrom(s, w, 5) == 0 + 3;
    assert SumFrom(s, w, 4) == 0 + 3;
    assert SumFrom(s, w, 3) == 0 + 3;
    assert SumFrom(s, w, 2) == 0 + 3;
    assert SumFrom(s, w, 1) == 222 + 3;
    assert SumFrom(s, w, 0) == 328 + 225;
  }

  lemma CheckDigitVectorEnvigado()
    ensures CheckDigit("800220154") == "1"
  {
    assert 472 % 11 == 10;
    assert DigitFromRemainder(10) == 1;
    assert DigitChar(1) == '1';
    var w: seq<nat> := [41, 37, 29, 23, 19, 17, 13, 7, 3];
    SumEnvigado();
    assert Weights(9) == w;
    CheckDigitFromSum("800220154", w, 472);
  }

  lemma SumEnvigado()
    ensures SumFrom("800220154", [41, 37, 29, 23, 19, 17, 13, 7, 3], 0) == 472
  {
    var s := "800220154";
    var w: seq<nat> := [41, 37, 29, 23, 19, 17, 13, 7, 3];
    assert SumFrom(s, w, 8) == 12 + 0;
    assert SumFrom(s, w, 7) == 35 + 12;
    assert SumFrom(s, w, 6) == 13 + 47;
    assert SumFrom(s, w, 5) == 0 + 60;
    assert SumFrom(s, w, 4) == 38 + 60;
    assert SumFrom(s, w, 3) == 46 + 98;
    assert SumFrom(s, w, 2) == 0 + 144;
    assert SumFrom(s, w, 1) == 0 + 144;
    assert SumFrom(s, w, 0) == 328 + 144;
  }

  lemma CheckDigitVectorAuthority()
    ensures CheckDigit("800197268") == "4"
  {
    assert 733 % 11 == 7;
    assert DigitFromRemainder(7) == 4;
    assert DigitChar(4) == '4';
    var w: seq<nat> := [41, 37, 29, 23, 19, 17, 13, 7, 3];
    SumAuthority();
    assert Weights(9) == w;
    CheckDigitFromSum("800197268", w, 733);
  }

  lemma SumAuthority()
    ensures SumFrom("800197268", [41, 37, 29, 23, 19, 17, 13, 7, 3], 0) == 733
  {
    var s := "800197268";
    var w: seq<nat> := [41, 37, 29, 23, 19, 17, 13, 7, 3];
    assert SumFrom(s, w, 8) == 24 + 0;
    assert SumFrom(s, w, 7) == 42 + 24;
    assert SumFrom(s, w, 6) == 26 + 66;
    assert SumFrom(s, w, 5) == 119 + 92;
    assert SumFrom(s, w, 4) == 171 + 211;
    assert SumFrom(s, w, 3) == 23 + 382;
    assert SumFrom(s, w, 2) == 0 + 405;
    assert SumFrom(s, w, 1) == 0 + 405;
    assert SumFrom(s, w, 0) == 328 + 405;
  }

  lemma CheckDigitVectorShort()
    ensures CheckDigit("123") == "8"
  {
    assert 36 % 11 == 3;
    assert DigitFromRemainder(3) == 8;
    assert DigitChar(8) == '8';
    var w: seq<nat> := [13, 7, 3];
    SumShort();
    assert Weights(3) == w;
    CheckDigitFromSum("123", w, 36);
  }

  lemma SumShort()
    ensures SumFrom("123", [13, 7, 3], 0) == 36
  {
    var s := "123";
    var w: seq<nat> := [13, 7, 3];
    assert SumFrom(s, w, 2) == 9 + 0;
    assert SumFrom(s, w, 1) == 14 + 9;
    assert SumFrom(s, w, 0) == 13 + 23;
  }
}
