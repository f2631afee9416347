/** Colombian amount parsing and the low-total heuristic (utils.py:68-108, 203-216). */
module Amounts {
  import opened Wrappers
  import opened Text
  import opened Values

  /** The characters kept by the filter `[^\d.,-]` -> "". */
  predicate IsAmountChar(c: char) {
    IsDigit(c) || c == '.' || c == ',' || c == '-'
  }

  predicate AmountText(s: string) {
    forall i :: 0 <= i < |s| ==> IsAmountChar(s[i])
  }

  /** Text left after the rewrite: only digits, `.` and `-`. */
  predicate DecimalText(s: string) {
    forall i :: 0 <= i < |s| ==> IsDigit(s[i]) || s[i] == '.' || s[i] == '-'
  }

  function KeepAmountChars(s: string): (r: string)
    ensures AmountText(r)
    ensures |r| <= |s|
    ensures AmountText(s) ==> r == s
  {
    if |s| == 0 then ""
    else (if IsAmountChar(s[0]) then [s[0]] else "") + KeepAmountChars(s[1..])
  }

  /** The separator heuristic: with both `.` and `,` the dots are thousands
      separators and the comma is the decimal point; with only dots every dot is a
      thousands separator; with only commas each comma is a decimal point. */
  function RewriteSeparators(t: string): (r: string)
    requires AmountText(t)
    ensures DecimalText(r)
    ensures ',' !in r
  {
    if '.' in t && ',' in t then
      RemoveKeeps(t, '.');
      ReplaceChar(Remove(t, '.'), ',', '.')
    else if '.' in t then
      RemoveKeeps(t, '.');
      Remove(t, '.')
    else if ',' in t then ReplaceChar(t, ',', '.')
    else t
  }

  lemma {:induction false} RemoveKeeps(t: string, c: char)
    ensures AmountText(t) ==> AmountText(Remove(t, c))
    ensures NoDigit(t) ==> NoDigit(Remove(t, c))
    ensures forall d :: d !in t ==> d !in Remove(t, c)
  {
    if |t| > 0 {
      RemoveKeeps(t[1..], c);
    }
  }

  predicate NoDigit(s: string) {
    forall i :: 0 <= i < |s| ==> !IsDigit(s[i])
  }

  lemma {:induction false} RemoveAfterReplace(s: string, a: char, b: char)
    requires b !in s && a != b
    ensures Remove(ReplaceChar(s, a, b), b) == Remove(s, a)
  {
    if |s| > 0 {
      var r := ReplaceChar(s, a, b);
      assert r == [r[0]] + r[1..];
      assert r[1..] == ReplaceChar(s[1..], a, b);
      assert s == [s[0]] + s[1..];
      RemoveAfterReplace(s[1..], a, b);
      RemoveAppend([r[0]], r[1..], b);
      RemoveAppend([s[0]], s[1..], a);
    }
  }

  lemma {:induction false} ReplaceCount(s: string, a: char, b: char)
    requires b !in s && a != b
    ensures Count(ReplaceChar(s, a, b), b) == Count(s, a)
  {
    if |s| > 0 {
      var r := ReplaceChar(s, a, b);
      assert r[1..] == ReplaceChar(s[1..], a, b);
      ReplaceCount(s[1..], a, b);
    }
  }

  /** The rewrite only deletes separators or turns commas into points: with the
      separators removed nothing else changed, and the points that remain are
      exactly the former commas. */
  lemma RewriteKeepsDigits(t: string)
    requires AmountText(t)
    ensures Remove(RewriteSeparators(t), '.') == Remove(Remove(t, '.'), ',')
    ensures Count(RewriteSeparators(t), '.') == Count(t, ',')
  {
    var r := RewriteSeparators(t);
    if '.' in t && ',' in t {
      RemoveAfterReplace(Remove(t, '.'), ',', '.');
      ReplaceCount(Remove(t, '.'), ',', '.');
      CountRemoveOther(t, '.', ',');
    } else if '.' in t {
      CountAbsent(t, ',');
      CountAbsent(r, '.');
      assert Remove(t, ',') == t;
    } else if ',' in t {
      RemoveAfterReplace(t, ',', '.');
      ReplaceCount(t, ',', '.');
    } else {
      CountAbsent(t, ',');
      CountAbsent(t, '.');
    }
  }

  /** Number of leading digits of `t`. */
  function LeadingDigits(t: string): (k: nat)
    ensures k <= |t|
    ensures AllDigits(t[..k])
    ensures k < |t| ==> !IsDigit(t[k])
  {
    if |t| > 0 && IsDigit(t[0]) then 1 + LeadingDigits(t[1..]) else 0
  }

  /** Python's `float()` on unsigned text over `[0-9.]`: `D+(.D*)? | .D+`. */
  function ParseUnsigned(t: string): Option<real> {
    var k := LeadingDigits(t);
    if k == |t| then
      (if k > 0 then Some(DigitsValue(t) as real) else None)
    else if t[k] == '.' && AllDigits(t[k + 1..]) && (k > 0 || k + 1 < |t|) then
      Some(DigitsValue(t[..k]) as real
           + DigitsValue(t[k + 1..]) as real / Pow10(|t| - k - 1) as real)
    else None
  }

  /** Python's `float()` on text over `[0-9.-]`, the only text it ever sees here:
      an optional leading minus, then an unsigned decimal. */
  function ParseDecimal(t: string): Option<real> {
    if |t| > 0 && t[0] == '-' then
      match ParseUnsigned(t[1..])
      case Some(x) => Some(-x)
      case None => None
    else ParseUnsigned(t)
  }

  /** `clean_colombian_number`: `None` is 0.0, a number passes through, text is
      filtered, rewritten and parsed, and anything unparsable is 0.0. */
  function ParseAmount(v: Value): (r: real)
    ensures v.Null? ==> r == 0.0
    ensures v.Num? ==> r == v.x
  {
    match v
    case Null => 0.0
    case Num(x) => x
    case Str(s) =>
      var t := KeepAmountChars(Strip(s));
      if t == "" then 0.0 else ParseDecimal(RewriteSeparators(t)).GetOr(0.0)
  }

  lemma {:induction false} ParseUnsignedNeedsDigit(t: string)
    requires forall i :: 0 <= i < |t| ==> !IsDigit(t[i])
    ensures ParseUnsigned(t) == None
  {
    var k := LeadingDigits(t);
    if |t| > 0 {
      assert !IsDigit(t[0]);
    }
    assert k == 0;
  }

  lemma {:induction false} KeepNoDigit(s: string)
    requires NoDigit(s)
    ensures NoDigit(KeepAmountChars(s))
  {
    if |s| > 0 {
      KeepNoDigit(s[1..]);
    }
  }

  lemma StripNoDigit(s: string)
    requires NoDigit(s)
    ensures NoDigit(Strip(s))
  {
    var a := TrimStart(s);
    assert a == s[|s| - |a|..];
    var b := TrimEnd(a);
    assert b == a[..|b|];
  }

  lemma RewriteNoDigit(t: string)
    requires AmountText(t) && NoDigit(t)
    ensures NoDigit(RewriteSeparators(t))
  {
    RemoveKeeps(t, '.');
  }

  /** Text with no digit at all never yields an amount: it parses as 0.0. */
  lemma NoDigitsNoAmount(s: string)
    requires NoDigit(s)
    ensures ParseAmount(Str(s)) == 0.0
  {
    StripNoDigit(s);
    KeepNoDigit(Strip(s));
    var t := KeepAmountChars(Strip(s));
    if t != "" {
      RewriteNoDigit(t);
      var r := RewriteSeparators(t);
      if |r| > 0 && r[0] == '-' {
        ParseUnsignedNeedsDigit(r[1..]);
      } else {
        ParseUnsignedNeedsDigit(r);
      }
    }
  }

  lemma AllDigitsParse(d: string)
    requires IsDigits(d)
    ensures ParseDecimal(d) == Some(DigitsValue(d) as real)
  {
    var k := LeadingDigits(d);
    assert k == |d|;
    assert d[0] != '-';
  }

  lemma {:induction false} PointParse(d: string, f: string)
    requires IsDigits(d) && AllDigits(f)
    ensures ParseDecimal(d + "." + f)
         == Some(DigitsValue(d) as real + DigitsValue(f) as real / Pow10(|f|) as real)
  {
    var t := d + "." + f;
    var k := LeadingDigits(t);
    assert t[..|d|] == d;
    assert k >= |d| by {
      LeadingAtLeast(t, |d|);
    }
    assert t[|d|] == '.';
    assert k == |d|;
    assert t[k + 1..] == f;
    assert t[0] == d[0];
  }

  lemma {:induction false} LeadingAtLeast(t: string, n: nat)
    requires n <= |t| && AllDigits(t[..n])
    ensures LeadingDigits(t) >= n
    decreases n
  {
    if n > 0 {
      assert IsDigit(t[0]);
      assert t[1..][..n - 1] == t[..n][1..];
      LeadingAtLeast(t[1..], n - 1);
    }
  }

  // ---------------------------------------------------------------------------
  // The Colombian way of writing an amount, as the parser's partner.

  function Pad2(k: nat): (r: string)
    requires k < 100
    ensures |r| == 2 && AllDigits(r)
    ensures DigitsValue(r) == k
  {
    var r := [DigitChar(k / 10), DigitChar(k % 10)];
    assert r[..1] == [DigitChar(k / 10)];
    assert r[..1][..0] == [];
    assert DigitsValue(r[..1]) == k / 10;
    r
  }

  function Pad3(k: nat): (r: string)
    requires k < 1000
    ensures |r| == 3 && AllDigits(r)
    ensures DigitsValue(r) == k
  {
    var r := [DigitChar(k / 100), DigitChar(k / 10 % 10), DigitChar(k % 10)];
    assert r[..2] == [DigitChar(k / 100), DigitChar(k / 10 % 10)];
    assert r[..2][..1] == [DigitChar(k / 100)];
    assert r[..2][..1][..0] == [];
    assert DigitsValue(r[..2][..1]) == k / 100;
    assert DigitsValue(r[..2]) == k / 10;
    r
  }

  /** A whole amount with a `.` between every group of three digits, e.g. 33.613. */
  function Grouped(n: nat): (r: string)
    ensures |r| > 0 && IsDigit(r[0])
    ensures forall i :: 0 <= i < |r| ==> IsDigit(r[i]) || r[i] == '.'
    ensures n < 1000 ==> '.' !in r
    ensures n >= 1000 ==> '.' in r
    decreases n
  {
    if n < 1000 then NatText(n)
    else
      var hi := Grouped(n / 1000);
      var r := hi + "." + Pad3(n % 1000);
      assert r[|hi|] == '.';
      r
  }

  /** Deleting the thousands dots leaves the decimal digits of the amount. */
  lemma {:induction false} GroupedValue(n: nat)
    ensures IsDigits(Remove(Grouped(n), '.'))
    ensures DigitsValue(Remove(Grouped(n), '.')) == n
    decreases n
  {
    if n < 1000 {
      NatTextValue(n);
      assert '.' !in NatText(n);
    } else {
      var hi := Grouped(n / 1000);
      var lo := Pad3(n % 1000);
      GroupedValue(n / 1000);
      GroupedSplit(n, hi, lo);
      DigitsValueAppend(Remove(hi, '.'), lo);
      assert Pow10(|lo|) == 1000;
      assert DigitsValue(lo) == n % 1000;
      assert DigitsValue(Remove(hi, '.')) == n / 1000;
      DivMod1000(n);
    }
  }

  lemma DivMod1000(n: nat)
    ensures n / 1000 * 1000 + n % 1000 == n
  {
  }

  lemma GroupedSplit(n: nat, hi: string, lo: string)
    requires n >= 1000 && hi == Grouped(n / 1000) && lo == Pad3(n % 1000)
    ensures Remove(Grouped(n), '.') == Remove(hi, '.') + lo
  {
    assert Grouped(n) == hi + "." + lo;
    RemoveAppend(hi + ".", lo, '.');
    RemoveDotSuffix(hi);
    assert '.' !in lo by {
      assert AllDigits(lo);
    }
  }

  lemma RemoveDotSuffix(hi: string)
    ensures Remove(hi + ".", '.') == Remove(hi, '.')
  {
    RemoveAppend(hi, ".", '.');
    assert Remove(".", '.') == "";
  }

  lemma GroupedIsAmountText(n: nat)
    ensures AmountText(Grouped(n)) && NoSpace(Grouped(n)) && ',' !in Grouped(n)
  {
    var g := Grouped(n);
    forall i | 0 <= i < |g| ensures !IsSpace(g[i]) {
      DigitNotSpace(g[i]);
    }
  }

  lemma RewriteWithoutComma(t: string)
    requires AmountText(t) && ',' !in t
    ensures RewriteSeparators(t) == Remove(t, '.')
  {
  }

  lemma ParseAmountText(s: string)
    requires AmountText(s) && NoSpace(s) && s != ""
    ensures ParseAmount(Str(s)) == ParseDecimal(RewriteSeparators(s)).GetOr(0.0)
  {
    StripNoSpace(s);
  }

  /** Round trip: a whole amount written with thousands dots parses back to itself. */
  lemma GroupedRoundTrip(n: nat)
    ensures ParseAmount(Str(Grouped(n))) == n as real
  {
    var g := Grouped(n);
    GroupedIsAmountText(n);
    ParseAmountText(g);
    RewriteWithoutComma(g);
    GroupedValue(n);
    AllDigitsParse(Remove(g, '.'));
  }

  lemma ReplaceSingleComma(d: string, p: string)
    requires ',' !in d && ',' !in p
    ensures ReplaceChar(d + "," + p, ',', '.') == d + "." + p
  {
    var s := d + "," + p;
    var r := ReplaceChar(s, ',', '.');
    var t := d + "." + p;
    forall i | 0 <= i < |t| ensures r[i] == t[i] {
      if i < |d| {
        assert s[i] == d[i] && t[i] == d[i];
      } else if i > |d| {
        assert s[i] == p[i - |d| - 1] && t[i] == p[i - |d| - 1];
      }
    }
    assert r == t;
  }

  lemma RemoveDotsAroundComma(g: string, p: string)
    requires '.' !in p
    ensures Remove(g + "," + p, '.') == Remove(g, '.') + "," + p
  {
    RemoveAppend(g + ",", p, '.');
    RemoveAppend(g, ",", '.');
    assert Remove(",", '.') == ",";
  }

  lemma CentsRewrite(n: nat, c: nat)
    requires c < 100
    ensures AmountText(Grouped(n) + "," + Pad2(c))
    ensures RewriteSeparators(Grouped(n) + "," + Pad2(c)) == Remove(Grouped(n), '.') + "." + Pad2(c)
  {
    var g := Grouped(n);
    var p := Pad2(c);
    var s := g + "," + p;
    GroupedIsAmountText(n);
    assert AmountText(s);
    var d := Remove(g, '.');
    assert ',' !in d by {
      RemoveKeeps(g, '.');
    }
    assert ',' !in p && '.' !in p by {
      assert AllDigits(p);
    }
    assert s[|g|] == ',';
    if '.' in g {
      assert '.' in s;
      RemoveDotsAroundComma(g, p);
      ReplaceSingleComma(d, p);
    } else {
      assert d == g;
      assert '.' !in s;
      ReplaceSingleComma(g, p);
    }
  }

  /** Round trip: an amount written `33.613,45` (thousands dots, decimal comma,
      two cents digits) parses back to its value. */
  lemma GroupedCentsRoundTrip(n: nat, c: nat)
    requires c < 100
    ensures ParseAmount(Str(Grouped(n) + "," + Pad2(c))) == n as real + c as real / 100.0
  {
    var s := Grouped(n) + "," + Pad2(c);
    var d := Remove(Grouped(n), '.');
    var p := Pad2(c);
    CentsRewrite(n, c);
    CentsNoSpace(n, c);
    ParseAmountText(s);
    assert ParseAmount(Str(s)) == ParseDecimal(d + "." + p).GetOr(0.0);
    GroupedValue(n);
    PointParse(d, p);
    var x, y, q := DigitsValue(d), DigitsValue(p), Pow10(|p|);
    assert x == n && y == c;
    assert q == 100 by {
      assert |p| == 2;
    }
    CentsArithmetic(x, y, q);
  }

  lemma CentsArithmetic(x: nat, y: nat, q: nat)
    requires q == 100
    ensures x as real + y as real / q as real == x as real + y as real / 100.0
  {
  }

  lemma CentsNoSpace(n: nat, c: nat)
    requires c < 100
    ensures NoSpace(Grouped(n) + "," + Pad2(c))
  {
    var s := Grouped(n) + "," + Pad2(c);
    CentsRewrite(n, c);
    forall i | 0 <= i < |s| ensures !IsSpace(s[i]) {
      DigitNotSpace(s[i]);
    }
  }

  // ---------------------------------------------------------------------------

  const LowTotalThreshold: real := 500.0
  const LowTotalFactor: real := 1000.0

  /** `correct_suspicious_low_total`: a number strictly between 0 and 500 is taken
      to have lost its thousands and is multiplied by 1000; every other value,
      numeric or not, comes back unchanged. */
  function CorrectLowTotal(v: Value): (r: Value)
    ensures r.Num? <==> v.Num?
    ensures !v.Num? ==> r == v
    ensures v.Num? && (v.x <= 0.0 || v.x >= LowTotalThreshold) ==> r == v
    ensures v.Num? && 0.0 < v.x < LowTotalThreshold ==> r.x == v.x * LowTotalFactor && r.x > v.x
  {
    match v
    case Num(x) => if 0.0 < x < LowTotalThreshold then Num(x * LowTotalFactor) else v
    case _ => v
  }

  /** The correction is idempotent exactly for amounts outside (0, 0.5): there a
      second pass multiplies again (0.1 -> 100 -> 100000). */
  lemma LowTotalTwiceIff(x: real)
    ensures CorrectLowTotal(CorrectLowTotal(Num(x))) == CorrectLowTotal(Num(x))
        <==> !(0.0 < x < 0.5)
  {
    if 0.0 < x < 0.5 {
      assert CorrectLowTotal(Num(x)) == Num(x * 1000.0);
      assert x * 1000.0 < 500.0;
      assert CorrectLowTotal(Num(x * 1000.0)) == Num(x * 1000.0 * 1000.0);
      assert x * 1000.0 * 1000.0 != x * 1000.0;
    } else if 0.5 <= x < 500.0 {
      assert x * 1000.0 >= 500.0;
    }
  }

  lemma LowTotalNotIdempotent()
    ensures CorrectLowTotal(Num(0.1)) == Num(100.0)
    ensures CorrectLowTotal(CorrectLowTotal(Num(0.1))) == Num(100000.0)
  {
  }

  /** The examples the repository's format tests check. */
  lemma AmountVectorCents()
    ensures ParseAmount(Str("33.613,45")) == 33613.45
  {
    assert Grouped(33) == "33";
    assert Pad3(613) == "613";
    assert Grouped(33613) == "33.613";
    assert Pad2(45) == "45";
    assert Grouped(33613) + "," + Pad2(45) == "33.613,45";
    GroupedCentsRoundTrip(33613, 45);
  }

  lemma AmountVectorThousands()
    ensures ParseAmount(Str("40.000")) == 40000.0
  {
    assert Grouped(40000) == "40.000" by {
      assert Grouped(40) == "40";
      assert Pad3(0) == "000";
    }
    GroupedRoundTrip(40000);
  }

  lemma AmountVectorSmallThousands()
    ensures ParseAmount(Str("1.500")) == 1500.0
  {
    assert Grouped(1500) == "1.500" by {
      assert Grouped(1) == "1";
      assert Pad3(500) == "500";
    }
    GroupedRoundTrip(1500);
  }

  lemma AmountVectorDecimalComma()
    ensures ParseAmount(Str("1,50")) == 1.5
  {
    assert Grouped(1) + "," + Pad2(50) == "1,50" by {
      assert Grouped(1) == "1";
      assert Pad2(50) == "50";
    }
    GroupedCentsRoundTrip(1, 50);
  }

  lemma AmountVectorZeroCents()
    ensures ParseAmount(Str("40.000,00")) == 40000.0
  {
    assert Grouped(40000) + "," + Pad2(0) == "40.000,00" by {
      assert Grouped(40000) == "40.000" by {
        assert Grouped(40) == "40";
        assert Pad3(0) == "000";
      }
      assert Pad2(0) == "00";
    }
    GroupedCentsRoundTrip(40000, 0);
  }

  lemma {:induction false} KeepAppend(a: string, b: string)
    ensures KeepAmountChars(a + b) == KeepAmountChars(a) + KeepAmountChars(b)
  {
    if |a| == 0 {
      assert a + b == b;
    } else {
      var head := if IsAmountChar(a[0]) then [a[0]] else "";
      assert (a + b)[0] == a[0] && (a + b)[1..] == a[1..] + b;
      KeepAppend(a[1..], b);
      assert KeepAmountChars(a + b) == head + (KeepAmountChars(a[1..]) + KeepAmountChars(b));
      assert head + (KeepAmountChars(a[1..]) + KeepAmountChars(b))
          == (head + KeepAmountChars(a[1..])) + KeepAmountChars(b);
    }
  }

  /** A prefix with no amount characters (a currency code or sign and the blank
      after it) does not change the parsed amount. */
  lemma IgnoredPrefix(prefix: string, body: string)
    requires KeepAmountChars(prefix) == "" && AmountText(body) && |body| > 0
    requires |prefix| > 0 && !IsSpace(prefix[0])
    ensures ParseAmount(Str(prefix + body)) == ParseAmount(Str(body))
  {
    var s := prefix + body;
    assert s[|s| - 1] == body[|body| - 1];
    assert IsAmountChar(body[|body| - 1]);
    DigitNotSpace(body[|body| - 1]);
    DigitNotSpace(body[0]);
    StripPlain(s);
    StripPlain(body);
    KeepAppend(prefix, body);
    assert KeepAmountChars(Strip(s)) == body by {
      assert "" + body == body;
    }
    assert KeepAmountChars(Strip(body)) == body;
  }

  lemma Grouped20000Cents()
    ensures Grouped(20000) + "," + Pad2(0) == "20.000,00"
  {
    assert Grouped(20) == "20";
    assert Pad3(0) == "000";
    assert Pad2(0) == "00";
  }

  lemma Amount20000()
    ensures AmountText("20.000,00") && ParseAmount(Str("20.000,00")) == 20000.0
  {
    Grouped20000Cents();
    GroupedCentsRoundTrip(20000, 0);
    CentsRewrite(20000, 0);
  }

  lemma Amount50000()
    ensures AmountText("50.000") && ParseAmount(Str("50.000")) == 50000.0
  {
    assert Grouped(50000) == "50.000" by {
      assert Grouped(50) == "50";
      assert Pad3(0) == "000";
    }
    GroupedRoundTrip(50000);
    GroupedIsAmountText(50000);
  }

  lemma CurrencyCodeText()
    ensures "COP " + "20.000,00" == "COP 20.000,00"
    ensures KeepAmountChars("COP ") == ""
  {
  }

  lemma CurrencySignText()
    ensures "$ " + "50.000" == "$ 50.000"
    ensures KeepAmountChars("$ ") == ""
  {
  }

  lemma CurrencyCodeIgnored()
    ensures ParseAmount(Str("COP 20.000,00")) == ParseAmount(Str("20.000,00"))
  {
    CurrencyCodeText();
    PrefixIgnored("COP ", "20.000,00", "COP 20.000,00");
  }

  lemma CurrencySignIgnored()
    ensures ParseAmount(Str("$ 50.000")) == ParseAmount(Str("50.000"))
  {
    CurrencySignText();
    PrefixIgnored("$ ", "50.000", "$ 50.000");
  }

  lemma PrefixIgnored(prefix: string, body: string, whole: string)
    requires whole == prefix + body && KeepAmountChars(prefix) == ""
    requires AmountText(body) && |body| > 0 && |prefix| > 0 && !IsSpace(prefix[0])
    ensures ParseAmount(Str(whole)) == ParseAmount(Str(body))
  {
    IgnoredPrefix(prefix, body);
  }

  /** Currency markers and spaces are filtered out before parsing. */
  lemma AmountVectorCurrencyCode()
    ensures ParseAmount(Str("COP 20.000,00")) == 20000.0
  {
    CurrencyCodeIgnored();
    Amount20000();
  }

  lemma AmountVectorCurrencySign()
    ensures ParseAmount(Str("$ 50.000")) == 50000.0
  {
    CurrencySignIgnored();
    Amount50000();
  }

  lemma AmountVectorPlain()
    ensures ParseAmount(Str("100")) == 100.0
    ensures ParseAmount(Num(200.5)) == 200.5
    ensures ParseAmount(Null) == 0.0
    ensures ParseAmount(Str("")) == 0.0
  {
    assert Grouped(100) == "100";
    GroupedRoundTrip(100);
  }

  lemma LowTotalVectors()
    ensures CorrectLowTotal(Num(6.8)) == Num(6800.0)
    ensures CorrectLowTotal(Num(11.9)) == Num(11900.0)
    ensures CorrectLowTotal(Num(50000.0)) == Num(50000.0)
  {
  }
}
