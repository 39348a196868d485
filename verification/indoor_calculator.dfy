/** `IndoorHumidityCalculator`: the two input sanitisers that sit between
    the text fields and the view model, and the choice of message under
    them. */
module IndoorCalculator {
  import opened Wrappers
  import opened Text
  import opened HumidityMath
  import opened WeatherViewModel

  /* ---------------- Temperature field ---------------- */

  /** Commas become dots. */
  function CommasToDots(s: string): (r: string)
    ensures |r| == |s| && ',' !in r
    ensures forall i :: 0 <= i < |s| ==> r[i] == (if s[i] == ',' then '.' else s[i])
  {
    if |s| == 0 then "" else [if s[0] == ',' then '.' else s[0]] + CommasToDots(s[1..])
  }

  /** Only digits and dots survive, in order: a single character is kept
      exactly when it is a digit or a dot, and filtering distributes over
      concatenation (`KeepDecimalCharsAppend`). */
  function KeepDecimalChars(s: string): (r: string)
    ensures forall i :: 0 <= i < |r| ==> IsDecimalChar(r[i])
    ensures (forall i :: 0 <= i < |s| ==> IsDecimalChar(s[i])) ==> r == s
    ensures |s| == 1 ==> r == (if IsDecimalChar(s[0]) then s else "")
    ensures |r| <= |s|
  {
    if |s| == 0 then ""
    else (if IsDecimalChar(s[0]) then [s[0]] else []) + KeepDecimalChars(s[1..])
  }

  lemma {:induction false} KeepDecimalCharsAppend(a: string, b: string)
    ensures KeepDecimalChars(a + b) == KeepDecimalChars(a) + KeepDecimalChars(b)
  {
    if |a| > 0 {
      assert (a + b)[1..] == a[1..] + b;
      KeepDecimalCharsAppend(a[1..], b);
    } else {
      assert a + b == b;
    }
  }

  /** `s` with every `c` taken out. */
  function WithoutChar(s: string, c: char): (r: string)
    ensures c !in r && |r| <= |s|
    ensures c !in s ==> r == s
  {
    if |s| == 0 then "" else (if s[0] == c then [] else [s[0]]) + WithoutChar(s[1..], c)
  }

  /** The regular expression `(?<=.)\.(?=.*\.)` replaced by nothing, on a
      string that follows a character: a dot goes when another dot follows
      it anywhere. */
  function DropDotsBeforeDots(t: string): (r: string)
    ensures (forall i :: 0 <= i < |t| ==> IsDecimalChar(t[i])) ==> forall i :: 0 <= i < |r| ==> IsDecimalChar(r[i])
    ensures Count(r, '.') <= 1
    ensures Count(t, '.') <= 1 ==> r == t
    ensures '.' !in t ==> '.' !in r
  {
    if |t| == 0 then ""
    else
      var rest := DropDotsBeforeDots(t[1..]);
      var keep := t[0] != '.' || '.' !in t[1..];
      var r := (if keep then [t[0]] else []) + rest;
      CountAppend(if keep then [t[0]] else [], rest, '.');
      assert Count(t, '.') <= 1 ==> Count(t[1..], '.') <= 1;
      assert Count(t, '.') <= 1 && t[0] == '.' ==> '.' !in t[1..];
      r
  }

  /** Of the dots, only the last survives: everything before it loses its
      dots and keeps every other character, and the text after it is kept
      whole. */
  lemma {:induction false} DropDotsBeforeLastDot(a: string, b: string)
    requires '.' !in b
    ensures DropDotsBeforeDots(a + "." + b) == WithoutChar(a, '.') + "." + b
  {
    var t := a + "." + b;
    if |a| == 0 {
      assert t[0] == '.' && t[1..] == b;
      assert DropDotsBeforeDots(t) == [t[0]] + DropDotsBeforeDots(b);
      assert DropDotsBeforeDots(b) == b by { assert Count(b, '.') == 0; }
    } else {
      var t1 := a[1..] + "." + b;
      assert t[0] == a[0] && t[1..] == t1;
      assert '.' in t1 by { assert t1[|a| - 1] == '.'; }
      var head := if a[0] == '.' then [] else [a[0]];
      assert DropDotsBeforeDots(t) == head + DropDotsBeforeDots(t1);
      assert WithoutChar(a, '.') == head + WithoutChar(a[1..], '.');
      DropDotsBeforeLastDot(a[1..], b);
      DotRegroup(head, WithoutChar(a[1..], '.'), b);
    }
  }

  lemma DotRegroup(h: string, w: string, b: string)
    ensures h + (w + "." + b) == (h + w) + "." + b
  {
  }

  /** The whole regular-expression step: the dot at the very start has no
      character before it and stays; every other dot stays only when no dot
      follows it.  At most one dot remains after the first character. */
  function RemoveExtraDots(s: string): (r: string)
    ensures (forall i :: 0 <= i < |s| ==> IsDecimalChar(s[i])) ==> forall i :: 0 <= i < |r| ==> IsDecimalChar(r[i])
    ensures |r| > 0 <==> |s| > 0
    ensures |s| > 0 ==> r[0] == s[0]
    ensures |r| > 0 ==> Count(r[1..], '.') <= 1
    ensures Count(s, '.') <= 1 ==> r == s
  {
    if |s| == 0 then ""
    else
      var r := [s[0]] + DropDotsBeforeDots(s[1..]);
      assert r[1..] == DropDotsBeforeDots(s[1..]);
      assert Count(s, '.') <= 1 ==> Count(s[1..], '.') <= 1;
      r
  }

  /** When a dot follows the first character, the first character stays,
      the last dot stays with everything after it, and in between only the
      dots go. */
  lemma RemoveExtraDotsKeepsLastDot(c: char, a: string, b: string)
    requires '.' !in b
    ensures RemoveExtraDots([c] + a + "." + b) == [c] + WithoutChar(a, '.') + "." + b
  {
    var rest := a + "." + b;
    DotRegroup([c], a, b);
    assert ([c] + rest)[1..] == rest;
    assert RemoveExtraDots([c] + rest) == [c] + DropDotsBeforeDots(rest);
    DropDotsBeforeLastDot(a, b);
    DotRegroup([c], WithoutChar(a, '.'), b);
  }

  /** At most the first `n` characters. */
  function Prefix(s: string, n: nat): (r: string)
    ensures |r| == (if |s| <= n then |s| else n)
    ensures r == s[..|r|]
  {
    if |s| <= n then s else s[..n]
  }

  /** Digits with at most one dot and at most two characters after it. */
  predicate DecimalShaped(t: string) {
    && Count(t, '.') <= 1
    && forall i :: 0 <= i < |t| && t[i] == '.' ==> |t| - i - 1 <= 2
  }

  /** `m` is the longest decimal-shaped prefix of `f`: it is a prefix, it is
      shaped, and one more character of `f` would break the shape. */
  predicate LongestShapedPrefix(m: string, f: string) {
    && |m| <= |f| && m == f[..|m|]
    && DecimalShaped(m)
    && (|m| < |f| ==> !DecimalShaped(f[..|m| + 1]))
  }

  /** Every prefix of a shaped text is shaped. */
  lemma ShapedPrefixShaped(t: string, n: nat)
    requires DecimalShaped(t) && n <= |t|
    ensures DecimalShaped(t[..n])
  {
    assert t == t[..n] + t[n..];
    CountAppend(t[..n], t[n..], '.');
  }

  /** There is only one longest shaped prefix, so the predicate pins down
      the text it describes. */
  lemma LongestShapedPrefixUnique(m1: string, m2: string, f: string)
    requires LongestShapedPrefix(m1, f) && LongestShapedPrefix(m2, f)
    ensures m1 == m2
  {
    if |m1| < |m2| {
      assert f[..|m1| + 1] == m2[..|m1| + 1];
      ShapedPrefixShaped(m2, |m1| + 1);
    } else if |m2| < |m1| {
      assert f[..|m2| + 1] == m1[..|m2| + 1];
      ShapedPrefixShaped(m1, |m2| + 1);
    }
  }

  /** `temperatureProxy`'s setter: commas to dots, keep digits and dots,
      drop surplus dots, keep the part before the first dot and at most two
      digits after it, and put a "0" before a leading dot. */
  function TemperatureProxy(input: string): (r: string)
    ensures forall i :: 0 <= i < |r| ==> IsDecimalChar(r[i])
    ensures DecimalShaped(r)
    ensures |r| > 0 ==> r[0] != '.'
  {
    LeadingZero(LimitDecimals(FilterTemperature(input)))
  }

  /** The three filtering steps, up to the regular expression. */
  function FilterTemperature(input: string): (r: string)
    ensures forall i :: 0 <= i < |r| ==> IsDecimalChar(r[i])
  {
    RemoveExtraDots(KeepDecimalChars(CommasToDots(input)))
  }

  /** `components[0]`, then "." and at most two characters of
      `components[1]` when there is a second component. */
  function LimitDecimals(filtered: string): (r: string)
    requires forall i :: 0 <= i < |filtered| ==> IsDecimalChar(filtered[i])
    ensures forall i :: 0 <= i < |r| ==> IsDecimalChar(r[i])
    ensures DecimalShaped(r)
  {
    var parts := Split(filtered, '.');
    DecimalPiecesAreDigits(filtered, 0);
    NoDotInDigits(parts[0]);
    if |parts| > 1 then
      DecimalPiecesAreDigits(filtered, 1);
      var decimals := Prefix(parts[1], 2);
      DotJoin(parts[0], decimals);
      parts[0] + "." + decimals
    else
      parts[0]
  }

  /** What is kept is the longest prefix of the filtered text that has at
      most one dot and at most two digits after it: the text before the
      first dot, and the dot with up to two digits when there is one. */
  lemma LimitDecimalsLongestPrefix(f: string)
    requires forall i :: 0 <= i < |f| ==> IsDecimalChar(f[i])
    ensures LongestShapedPrefix(LimitDecimals(f), f)
  {
    var parts := Split(f, '.');
    SplitJoin(f, '.');
    if |parts| > 1 {
      JoinStartsWithFirst(parts[1..], '.');
      assert f == parts[0] + "." + Join(parts[1..], '.');
      assert LimitDecimals(f) == parts[0] + "." + Prefix(parts[1], 2);
      DecimalsAfterFirstDot(parts[0], Join(parts[1..], '.'), parts[1]);
    }
  }

  /** The prefix kept after the first dot: `a` and the dot, then at most
      two characters of the dot-free piece `p` that starts `rest`; a dot
      ends `rest`'s first piece whenever more text follows it. */
  lemma DecimalsAfterFirstDot(a: string, rest: string, p: string)
    requires '.' !in p
    requires |rest| >= |p| && rest[..|p|] == p
    requires |rest| > |p| ==> rest[|p|] == '.'
    requires DecimalShaped(a + "." + Prefix(p, 2))
    ensures LongestShapedPrefix(a + "." + Prefix(p, 2), a + "." + rest)
  {
    var f := a + "." + rest;
    var d := Prefix(p, 2);
    var r := a + "." + d;
    assert r == f[..|r|] by {
      assert d == rest[..|d|];
      assert f[..|r|] == a + "." + rest[..|d|];
    }
    if |r| < |f| {
      var t := f[..|r| + 1];
      if |d| < 2 {
        assert t == r + "." by { assert f[|r|] == rest[|d|]; }
        CountAppend(r, ".", '.');
        assert r[|a|] == '.';
      } else {
        assert t[|a|] == '.' && |t| - |a| - 1 == 3;
      }
    }
  }

  /** A leading dot gets a "0" in front; any other text is left alone. */
  function LeadingZero(final: string): (r: string)
    requires forall i :: 0 <= i < |final| ==> IsDecimalChar(final[i])
    requires DecimalShaped(final)
    ensures forall i :: 0 <= i < |r| ==> IsDecimalChar(r[i])
    ensures DecimalShaped(r)
    ensures |r| > 0 ==> r[0] != '.'
    ensures |final| > 0 && final[0] == '.' ==> r == "0" + final
    ensures !(|final| > 0 && final[0] == '.') ==> r == final
  {
    if |final| > 0 && final[0] == '.' then
      var r := "0" + final;
      assert forall i :: 1 <= i < |r| ==> r[i] == final[i - 1];
      CountAppend("0", final, '.');
      r
    else final
  }

  /** The sanitised temperature is the longest decimal-shaped prefix of the
      filtered text, with a "0" in front when that text starts with a dot. */
  lemma TemperatureProxyMeaning(input: string)
    ensures var f := FilterTemperature(input);
            var r := TemperatureProxy(input);
            if |f| > 0 && f[0] == '.' then |r| > 0 && r[0] == '0' && LongestShapedPrefix(r[1..], f)
            else LongestShapedPrefix(r, f)
  {
    var f := FilterTemperature(input);
    var m := LimitDecimals(f);
    LimitDecimalsLongestPrefix(f);
    if |f| > 0 {
      assert |m| > 0 by {
        assert DecimalShaped(f[..1]);
      }
      assert m[0] == f[0];
    }
  }

  /** Every digit typed survives the three filtering steps, in order: the
      filters only ever take out commas, other non-digits and dots. */
  lemma FilterKeepsDigits(input: string)
    ensures KeepDigits(FilterTemperature(input)) == KeepDigits(input)
  {
    CommasToDotsKeepsDigits(input);
    KeepDecimalCharsKeepsDigits(CommasToDots(input));
    RemoveExtraDotsKeepsDigits(KeepDecimalChars(CommasToDots(input)));
  }

  /** The digits of `[c] + s` are `c`'s, if it is one, then those of `s`. */
  lemma KeepDigitsCons(c: char, s: string)
    ensures KeepDigits([c] + s) == KeepDigits([c]) + KeepDigits(s)
  {
    KeepDigitsAppend([c], s);
  }

  lemma {:induction false} CommasToDotsKeepsDigits(s: string)
    ensures KeepDigits(CommasToDots(s)) == KeepDigits(s)
  {
    if |s| > 0 {
      var c := if s[0] == ',' then '.' else s[0];
      assert CommasToDots(s) == [c] + CommasToDots(s[1..]);
      assert s == [s[0]] + s[1..];
      KeepDigitsCons(c, CommasToDots(s[1..]));
      KeepDigitsCons(s[0], s[1..]);
      assert KeepDigits([c]) == KeepDigits([s[0]]);
      CommasToDotsKeepsDigits(s[1..]);
    }
  }

  lemma {:induction false} KeepDecimalCharsKeepsDigits(s: string)
    ensures KeepDigits(KeepDecimalChars(s)) == KeepDigits(s)
  {
    if |s| > 0 {
      var head := if IsDecimalChar(s[0]) then [s[0]] else [];
      assert KeepDecimalChars(s) == head + KeepDecimalChars(s[1..]);
      assert s == [s[0]] + s[1..];
      KeepDigitsAppend(head, KeepDecimalChars(s[1..]));
      KeepDigitsCons(s[0], s[1..]);
      assert KeepDigits(head) == KeepDigits([s[0]]);
      KeepDecimalCharsKeepsDigits(s[1..]);
    }
  }

  lemma {:induction false} DropDotsKeepsDigits(t: string)
    ensures KeepDigits(DropDotsBeforeDots(t)) == KeepDigits(t)
  {
    if |t| > 0 {
      var keep := t[0] != '.' || '.' !in t[1..];
      var head := if keep then [t[0]] else [];
      assert DropDotsBeforeDots(t) == head + DropDotsBeforeDots(t[1..]);
      assert t == [t[0]] + t[1..];
      KeepDigitsAppend(head, DropDotsBeforeDots(t[1..]));
      KeepDigitsCons(t[0], t[1..]);
      assert KeepDigits(head) == KeepDigits([t[0]]);
      DropDotsKeepsDigits(t[1..]);
    }
  }

  lemma RemoveExtraDotsKeepsDigits(s: string)
    ensures KeepDigits(RemoveExtraDots(s)) == KeepDigits(s)
  {
    if |s| > 0 {
      assert s == [s[0]] + s[1..];
      KeepDigitsCons(s[0], s[1..]);
      KeepDigitsCons(s[0], DropDotsBeforeDots(s[1..]));
      DropDotsKeepsDigits(s[1..]);
    }
  }

  /** Two digit strings joined by a dot: one dot, at the seam. */
  lemma DotJoin(a: string, b: string)
    requires AllDigits(a) && AllDigits(b)
    ensures var r := a + "." + b;
            && (forall i :: 0 <= i < |r| ==> IsDecimalChar(r[i]))
            && Count(r, '.') == 1
            && (forall i :: 0 <= i < |r| && r[i] == '.' ==> i == |a|)
  {
    var r := a + "." + b;
    NoDotInDigits(a);
    NoDotInDigits(b);
    CountAppend(a + ".", b, '.');
    CountAppend(a, ".", '.');
    forall i | 0 <= i < |r| ensures IsDecimalChar(r[i]) && (r[i] == '.' ==> i == |a|) {
      if i < |a| { assert r[i] == a[i]; }
      if i > |a| { assert r[i] == b[i - |a| - 1]; }
    }
  }

  /** The shape the temperature sanitiser produces. */
  predicate WellFormedTemperature(r: string) {
    && (forall i :: 0 <= i < |r| ==> IsDecimalChar(r[i]))
    && DecimalShaped(r)
    && (|r| > 0 ==> r[0] != '.')
  }

  /** A string with exactly one dot splits into the text before and after it. */
  lemma SplitAtOnlyDot(r: string)
    requires Count(r, '.') == 1
    ensures '.' in r
    ensures var i := IndexOf(r, '.');
            Split(r, '.') == [r[..i], r[i + 1..]]
  {
    NothingAfterOnlyDot(r);
    var i := IndexOf(r, '.');
    AroundIndex(r, i);
    SplitOneDot(r[..i], r[i + 1..]);
  }

  /** A text is what comes before a position, the character there, and
      what follows. */
  lemma AroundIndex(r: string, i: nat)
    requires i < |r|
    ensures r == r[..i] + [r[i]] + r[i + 1..]
  {
  }

  /** No dot follows the only dot. */
  lemma NothingAfterOnlyDot(r: string)
    requires Count(r, '.') == 1
    ensures '.' in r && '.' !in r[IndexOf(r, '.') + 1..]
  {
    var i := IndexOf(r, '.');
    assert r[..i + 1] + r[i + 1..] == r;
    assert r[..i] + [r[i]] == r[..i + 1];
    CountAppend(r[..i + 1], r[i + 1..], '.');
    CountAppend(r[..i], [r[i]], '.');
  }

  /** Text already made of digits and at most one dot goes through the first
      three steps untouched. */
  lemma CleanTextPassesFilters(r: string)
    requires forall i :: 0 <= i < |r| ==> IsDecimalChar(r[i])
    requires Count(r, '.') <= 1
    ensures RemoveExtraDots(KeepDecimalChars(CommasToDots(r))) == r
  {
    var dotted := CommasToDots(r);
    forall i | 0 <= i < |r| ensures dotted[i] == r[i] {
      assert IsDecimalChar(r[i]);
    }
    assert dotted == r;
    var kept := KeepDecimalChars(r);
    assert kept == r;
    assert RemoveExtraDots(kept) == r;
  }

  /** Limiting the decimals of a well-formed temperature changes nothing. */
  lemma LimitDecimalsKeepsWellFormed(r: string)
    requires WellFormedTemperature(r)
    ensures LimitDecimals(r) == r
  {
    if Count(r, '.') == 1 {
      SplitAtOnlyDot(r);
      var i := IndexOf(r, '.');
      var parts := Split(r, '.');
      assert parts == [r[..i], r[i + 1..]];
      assert Prefix(parts[1], 2) == parts[1];
      assert r == parts[0] + "." + parts[1];
    } else {
      SplitWithoutSeparator(r, '.');
    }
  }

  /** A third decimal is cut off, and a bare leading dot gets its "0". */
  lemma ExampleDecimalsCut()
    ensures LimitDecimals("1.234") == "1.23"
    ensures LeadingZero(".5") == "0.5"
  {
    LimitDecimalsLongestPrefix("1.234");
    TwoDecimalsLongest();
    LongestShapedPrefixUnique(LimitDecimals("1.234"), "1.23", "1.234");
  }

  lemma TwoDecimalsLongest()
    ensures LongestShapedPrefix("1.23", "1.234")
  {
    var m := "1.23";
    assert Count(m, '.') == 1 by {
      assert m == "1." + "23";
      CountAppend("1.", "23", '.');
      NoDotInDigits("23");
      assert "1."[1..] == ".";
    }
    assert forall i :: 0 <= i < |m| && m[i] == '.' ==> i == 1;
    assert "1.234"[..4] == m;
    assert "1.234"[..5][1] == '.';
  }

  /** A well-formed temperature passes through the sanitiser unchanged. */
  lemma WellFormedTemperatureFixed(r: string)
    requires WellFormedTemperature(r)
    ensures TemperatureProxy(r) == r
  {
    CleanTextPassesFilters(r);
    assert FilterTemperature(r) == r;
    LimitDecimalsKeepsWellFormed(r);
  }

  /** Sanitising twice is sanitising once. */
  lemma TemperatureProxyIdempotent(input: string)
    ensures TemperatureProxy(TemperatureProxy(input)) == TemperatureProxy(input)
  {
    WellFormedTemperatureFixed(TemperatureProxy(input));
  }

  /** A comma typed as decimal separator becomes a dot. */
  lemma CommaIsDecimalSeparator(whole: string, fraction: string)
    requires |whole| > 0 && AllDigits(whole) && AllDigits(fraction) && |fraction| <= 2
    ensures TemperatureProxy(whole + "," + fraction) == whole + "." + fraction
  {
    var r := whole + "." + fraction;
    CommaBecomesDot(whole, fraction);
    DotJoin(whole, fraction);
    assert WellFormedTemperature(r);
    WellFormedTemperatureFixed(r);
    CleanTextPassesFilters(r);
  }

  lemma CommaBecomesDot(whole: string, fraction: string)
    requires AllDigits(whole) && AllDigits(fraction)
    ensures CommasToDots(whole + "," + fraction) == whole + "." + fraction
  {
    var typed := whole + "," + fraction;
    var r := whole + "." + fraction;
    var c := CommasToDots(typed);
    forall i | 0 <= i < |typed| ensures c[i] == r[i] {
      if i < |whole| {
        assert typed[i] == whole[i] && r[i] == whole[i];
      } else if i > |whole| {
        assert typed[i] == fraction[i - |whole| - 1] && r[i] == fraction[i - |whole| - 1];
      }
    }
  }

  /* ---------------- Humidity field ---------------- */

  /** Only digits survive, in order: a single character is kept exactly
      when it is a digit, and filtering distributes over concatenation
      (`KeepDigitsAppend`). */
  function KeepDigits(s: string): (r: string)
    ensures AllDigits(r) && |r| <= |s|
    ensures AllDigits(s) ==> r == s
    ensures |s| == 1 ==> r == (if IsDigit(s[0]) then s else "")
  {
    if |s| == 0 then ""
    else (if IsDigit(s[0]) then [s[0]] else []) + KeepDigits(s[1..])
  }

  lemma {:induction false} KeepDigitsAppend(a: string, b: string)
    ensures KeepDigits(a + b) == KeepDigits(a) + KeepDigits(b)
  {
    if |a| > 0 {
      assert (a + b)[1..] == a[1..] + b;
      KeepDigitsAppend(a[1..], b);
    } else {
      assert a + b == b;
    }
  }

  /** `humidityProxy`'s setter: the first three digits typed. */
  function HumidityProxy(input: string): (r: string)
    ensures AllDigits(r)
    ensures |r| == if |KeepDigits(input)| < 3 then |KeepDigits(input)| else 3
    ensures r == KeepDigits(input)[..|r|]
  {
    Prefix(KeepDigits(input), 3)
  }

  lemma HumidityProxyIdempotent(input: string)
    ensures HumidityProxy(HumidityProxy(input)) == HumidityProxy(input)
  {
  }

  /** Three digits pass the field even above 100: "999" is kept, and the
      view model then finds no indoor absolute humidity. */
  lemma HumidityAboveHundredPassesField(vm: WeatherViewModel.ViewModel, exp: PositiveFn)
    requires vm.indoorHumidity == HumidityProxy("999")
    ensures vm.indoorHumidity == "999"
    ensures IndoorAbsoluteHumidity(vm, exp).None?
  {
    assert KeepDigits("999") == "999";
    NineHundredNinetyNine();
  }

  lemma NineHundredNinetyNine()
    ensures ParseDecimal("999") == Some(999.0)
  {
    ParseDigits("999");
    assert DigitsValue("999") == 999 by {
      assert "999"[..2] == "99";
      assert "99"[..1] == "9";
      assert "9"[..0] == "";
    }
  }

  /* ---------------- Message ---------------- */

  datatype CalculatorMessage =
    | Comparison(indoor: real, outdoor: real, advice: Option<Advice>)
    | SetLocationFirst
    | EnterConditions
    | InvalidInput

  /** The text under the fields: the comparison when both absolute
      humidities exist, otherwise a prompt for a location, then a prompt for
      input when both fields are empty, and otherwise "Invalid input". */
  function Message(indoorTemperature: string, indoorHumidity: string,
                   indoorAbsolute: Option<real>, outdoorAbsolute: Option<real>,
                   advice: Option<Advice>): (m: CalculatorMessage)
    ensures m.Comparison? <==> indoorAbsolute.Some? && outdoorAbsolute.Some?
    ensures m.Comparison? ==> m.indoor == indoorAbsolute.value && m.outdoor == outdoorAbsolute.value && m.advice == advice
    ensures m == SetLocationFirst <==> outdoorAbsolute.None?
    ensures m == EnterConditions <==>
              indoorAbsolute.None? && outdoorAbsolute.Some? && indoorTemperature == "" && indoorHumidity == ""
    ensures m == InvalidInput <==>
              indoorAbsolute.None? && outdoorAbsolute.Some? && (indoorTemperature != "" || indoorHumidity != "")
  {
    match (indoorAbsolute, outdoorAbsolute)
    case (Some(indoor), Some(outdoor)) => Comparison(indoor, outdoor, advice)
    case (_, None) => SetLocationFirst
    case (None, Some(_)) =>
      if indoorTemperature == "" && indoorHumidity == "" then EnterConditions else InvalidInput
  }

  /** As wired to the view model: whenever the comparison shows, it carries
      advice, and the advice is to open the windows exactly when indoor air
      holds more water. */
  lemma ComparisonCarriesAdvice(vm: WeatherViewModel.ViewModel, exp: PositiveFn)
    ensures var m := Message(vm.indoorTemperature, vm.indoorHumidity, IndoorAbsoluteHumidity(vm, exp),
                             vm.absoluteHumidity, HumidityComparisonAdvice(vm, exp));
            m.Comparison? ==> m.advice.Some? && (m.advice.value == OpenWindows <==> m.indoor > m.outdoor)
  {
  }
}
