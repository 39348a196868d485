/** Character-level helpers shared by the input sanitisers and the number
    parsing and rendering the app relies on (`Double(String)`, string
    interpolation of an `Int`, `components(separatedBy:)`). */
module Text {
  import opened Wrappers

  predicate IsDigit(c: char) {
    '0' <= c <= '9'
  }

  predicate AllDigits(s: string) {
    forall i :: 0 <= i < |s| ==> IsDigit(s[i])
  }

  /** Number of occurrences of `c` in `s`. */
  function Count(s: string, c: char): (n: nat)
    ensures n <= |s|
    ensures n == 0 <==> c !in s
  {
    if |s| == 0 then 0 else (if s[0] == c then 1 else 0) + Count(s[1..], c)
  }

  lemma {:induction false} CountAppend(a: string, b: string, c: char)
    ensures Count(a + b, c) == Count(a, c) + Count(b, c)
  {
    if |a| == 0 {
      assert a + b == b;
    } else {
      assert (a + b)[1..] == a[1..] + b;
      CountAppend(a[1..], b, c);
    }
  }

  /** Position of the first `c` in `s`. */
  function IndexOf(s: string, c: char): (i: nat)
    requires c in s
    ensures i < |s| && s[i] == c && c !in s[..i]
  {
    if s[0] == c then 0 else
      var j := IndexOf(s[1..], c);
      assert s[1..][..j] == s[1..j + 1];
      1 + j
  }

  /** `s.components(separatedBy: sep)`: the pieces between separators, with
      an empty piece before a leading, after a trailing and between two
      adjacent separators. */
  function Split(s: string, sep: char): (parts: seq<string>)
    ensures |parts| == Count(s, sep) + 1
    ensures forall k :: 0 <= k < |parts| ==> sep !in parts[k]
  {
    if |s| == 0 then [""]
    else
      var rest := Split(s[1..], sep);
      if s[0] == sep then [""] + rest
      else [[s[0]] + rest[0]] + rest[1..]
  }

  /** The inverse of `Split`: the pieces glued back with the separator. */
  function Join(parts: seq<string>, sep: char): string
    requires |parts| > 0
  {
    if |parts| == 1 then parts[0] else parts[0] + [sep] + Join(parts[1..], sep)
  }

  /** A join starts with its first piece, followed by the separator when
      more pieces come. */
  lemma JoinStartsWithFirst(parts: seq<string>, sep: char)
    requires |parts| > 0
    ensures |Join(parts, sep)| >= |parts[0]| && Join(parts, sep)[..|parts[0]|] == parts[0]
    ensures |parts| == 1 ==> Join(parts, sep) == parts[0]
    ensures |parts| > 1 ==> |Join(parts, sep)| > |parts[0]| && Join(parts, sep)[|parts[0]|] == sep
  {
    if |parts| > 1 {
      var j := Join(parts, sep);
      assert j == parts[0] + [sep] + Join(parts[1..], sep);
      assert j[..|parts[0]|] == parts[0];
    }
  }

  /** Gluing the pieces back together restores the text. */
  lemma {:induction false} SplitJoin(s: string, sep: char)
    ensures Join(Split(s, sep), sep) == s
  {
    if |s| > 0 {
      var rest := Split(s[1..], sep);
      SplitJoin(s[1..], sep);
      if s[0] == sep {
        JoinEmptyFirst(rest, sep);
      } else {
        JoinExtendFirst(s[0], rest, sep);
      }
      assert s == [s[0]] + s[1..];
    }
  }

  /** An empty first piece contributes only the separator after it. */
  lemma JoinEmptyFirst(parts: seq<string>, sep: char)
    requires |parts| > 0
    ensures Join([""] + parts, sep) == [sep] + Join(parts, sep)
  {
    assert ([""] + parts)[1..] == parts;
  }

  /** A character put before the first piece comes first in the join. */
  lemma JoinExtendFirst(c: char, parts: seq<string>, sep: char)
    requires |parts| > 0
    ensures Join([[c] + parts[0]] + parts[1..], sep) == [c] + Join(parts, sep)
  {
    var longer := [[c] + parts[0]] + parts[1..];
    if |parts| > 1 {
      assert longer[1..] == parts[1..];
    }
  }

  /** Text without the separator is a single piece. */
  lemma {:induction false} SplitWithoutSeparator(s: string, sep: char)
    requires sep !in s
    ensures Split(s, sep) == [s]
  {
    if |s| > 0 {
      assert sep !in s[1..] by {
        forall i | 0 <= i < |s[1..]| ensures s[1..][i] != sep {
          assert s[1..][i] == s[i + 1];
        }
      }
      SplitWithoutSeparator(s[1..], sep);
      assert [s[0]] + s[1..] == s;
    }
  }

  /** Text up to the first separator is the first piece, and the rest is
      split on its own. */
  lemma {:induction false} SplitAtSeparator(a: string, sep: char, b: string)
    requires sep !in a
    ensures Split(a + [sep] + b, sep) == [a] + Split(b, sep)
  {
    if |a| == 0 {
      assert a + [sep] + b == [sep] + b;
      assert ([sep] + b)[1..] == b;
    } else {
      var s := a + [sep] + b;
      var rest := Split(s[1..], sep);
      assert rest == [a[1..]] + Split(b, sep) by {
        assert s[1..] == a[1..] + [sep] + b;
        assert sep !in a[1..] by {
          forall i | 0 <= i < |a[1..]| ensures a[1..][i] != sep {
            assert a[1..][i] == a[i + 1];
          }
        }
        SplitAtSeparator(a[1..], sep, b);
      }
      assert s[0] == a[0] != sep;
      assert [s[0]] + rest[0] == a;
      assert rest[1..] == Split(b, sep);
    }
  }

  /** Value of a decimal digit. */
  function DigitValue(c: char): (d: nat)
    requires IsDigit(c)
    ensures d < 10
  {
    c as int - '0' as int
  }

  /** The digit character for a value below ten. */
  function DigitChar(d: nat): (c: char)
    requires d < 10
    ensures IsDigit(c) && DigitValue(c) == d
  {
    ('0' as int + d) as char
  }

  function Pow10(k: nat): (p: nat)
    ensures p >= 1
  {
    if k == 0 then 1 else 10 * Pow10(k - 1)
  }

  /** Value of a string of decimal digits, most significant first; the empty
      string is worth 0. */
  function DigitsValue(s: string): (n: nat)
    requires AllDigits(s)
    ensures n < Pow10(|s|)
  {
    if |s| == 0 then 0 else DigitsValue(s[..|s| - 1]) * 10 + DigitValue(s[|s| - 1])
  }

  /** Decimal rendering of a natural number, as string interpolation writes it. */
  function NatText(n: nat): (s: string)
    ensures |s| >= 1 && AllDigits(s)
    ensures |s| > 1 ==> s[0] != '0'
    ensures DigitsValue(s) == n
  {
    if n < 10 then [DigitChar(n)]
    else
      var prefix := NatText(n / 10);
      var s := prefix + [DigitChar(n % 10)];
      assert s[..|s| - 1] == prefix;
      s
  }

  /** Decimal rendering of an integer, with a leading '-' when negative. */
  function IntText(n: int): (s: string)
    ensures |s| >= 1
    ensures n >= 0 ==> AllDigits(s) && DigitsValue(s) == n
    ensures n < 0 ==> s[0] == '-' && AllDigits(s[1..]) && DigitsValue(s[1..]) == -n
  {
    if n < 0 then
      var s := "-" + NatText(-n);
      assert s[1..] == NatText(-n);
      s
    else NatText(n)
  }

  predicate IsDecimalChar(c: char) {
    IsDigit(c) || c == '.'
  }

  /** Text `Double(String)` accepts among strings of digits and dots: at
      most one '.', and at least one digit. */
  predicate IsDecimalText(s: string) {
    && (forall i :: 0 <= i < |s| ==> IsDecimalChar(s[i]))
    && Count(s, '.') <= 1
    && Count(s, '.') < |s|
  }

  /** Every character of a piece of `Split(s, sep)` occurs in `s`. */
  lemma {:induction false} SplitPieceChars(s: string, sep: char, k: nat, i: nat)
    requires k < |Split(s, sep)| && i < |Split(s, sep)[k]|
    ensures Split(s, sep)[k][i] in s
  {
    if |s| > 0 {
      var rest := Split(s[1..], sep);
      if s[0] == sep {
        assert k > 0 && Split(s, sep)[k] == rest[k - 1];
        SplitPieceChars(s[1..], sep, k - 1, i);
        assert rest[k - 1][i] in s[1..];
      } else if k == 0 {
        if i > 0 {
          assert Split(s, sep)[0][i] == rest[0][i - 1];
          SplitPieceChars(s[1..], sep, 0, i - 1);
          assert rest[0][i - 1] in s[1..];
        }
      } else {
        assert Split(s, sep)[k] == rest[k];
        SplitPieceChars(s[1..], sep, k, i);
        assert rest[k][i] in s[1..];
      }
    }
  }

  /** Every piece of a decimal text split at '.' is made of digits. */
  lemma DecimalPiecesAreDigits(s: string, k: nat)
    requires forall i :: 0 <= i < |s| ==> IsDecimalChar(s[i])
    requires k < |Split(s, '.')|
    ensures AllDigits(Split(s, '.')[k])
  {
    var piece := Split(s, '.')[k];
    forall i | 0 <= i < |piece| ensures IsDigit(piece[i]) {
      SplitPieceChars(s, '.', k, i);
      assert piece[i] != '.';
    }
  }

  /** The value of an accepted decimal text: integer part plus fraction. */
  function DecimalValue(s: string): (v: real)
    requires IsDecimalText(s)
    ensures v >= 0.0
  {
    var parts := Split(s, '.');
    DecimalPiecesAreDigits(s, 0);
    var whole := parts[0];
    var fraction := if |parts| == 2 then parts[1] else "";
    assert AllDigits(fraction) by {
      if |parts| == 2 { DecimalPiecesAreDigits(s, 1); }
    }
    DigitsValue(whole) as real + DigitsValue(fraction) as real / Pow10(|fraction|) as real
  }

  /** `Double(s)` on text made only of ASCII digits and dots: an optional
      integer part, at most one '.', an optional fraction, and at least one
      digit in all.  Any other text makes the parse fail. */
  function ParseDecimal(s: string): (r: Option<real>)
    ensures r.Some? <==> IsDecimalText(s)
    ensures r.Some? ==> r.value >= 0.0
  {
    if IsDecimalText(s) then Some(DecimalValue(s)) else None
  }

  /** A string of digits alone parses to its value. */
  lemma ParseDigits(s: string)
    requires |s| > 0 && AllDigits(s)
    ensures ParseDecimal(s) == Some(DigitsValue(s) as real)
  {
    assert IsDecimalText(s) by {
      NoDotInDigits(s);
    }
    DigitsHaveNoFraction(s);
  }

  /** Without a dot the fraction is empty and adds nothing. */
  lemma DigitsHaveNoFraction(s: string)
    requires IsDecimalText(s) && AllDigits(s)
    ensures DecimalValue(s) == DigitsValue(s) as real
  {
    NoDotInDigits(s);
    SplitWithoutSeparator(s, '.');
    var whole := DigitsValue(s) as real;
    assert DecimalValue(s) == whole + DigitsValue("") as real / Pow10(0) as real;
  }

  /** Two dot-free pieces joined by a dot split back into those pieces. */
  lemma SplitOneDot(before: string, after: string)
    requires '.' !in before && '.' !in after
    ensures Split(before + "." + after, '.') == [before, after]
  {
    SplitAtSeparator(before, '.', after);
    SplitWithoutSeparator(after, '.');
  }

  /** Digits, one dot and digits, with a digit somewhere, are accepted. */
  lemma DigitsDotDigitsAccepted(w: string, f: string)
    requires AllDigits(w) && AllDigits(f) && |w| + |f| > 0
    ensures IsDecimalText(w + "." + f)
  {
    var s := w + "." + f;
    NoDotInDigits(w);
    NoDotInDigits(f);
    CountAppend(w + ".", f, '.');
    CountAppend(w, ".", '.');
    assert Count(".", '.') == 1;
    forall i | 0 <= i < |s| ensures IsDecimalChar(s[i]) {
      if i < |w| {
        assert s[i] == w[i];
      } else if i > |w| {
        assert s[i] == f[i - |w| - 1];
      }
    }
  }

  /** Text with a fraction parses to its integer part plus its fraction
      scaled down by one power of ten per fraction digit. */
  lemma {:induction false} ParseFraction(w: string, f: string)
    requires AllDigits(w) && AllDigits(f) && |w| + |f| > 0
    ensures ParseDecimal(w + "." + f)
            == Some(DigitsValue(w) as real + DigitsValue(f) as real / Pow10(|f|) as real)
  {
    var s := w + "." + f;
    FractionPieces(w, f);
    DecimalValueOfPieces(s, w, f);
    ParseAccepted(s, DigitsValue(w) as real + DigitsValue(f) as real / Pow10(|f|) as real);
  }

  /** Digits, a dot and digits form an accepted text that splits back into
      the two digit strings. */
  lemma FractionPieces(w: string, f: string)
    requires AllDigits(w) && AllDigits(f) && |w| + |f| > 0
    ensures IsDecimalText(w + "." + f) && Split(w + "." + f, '.') == [w, f]
  {
    DigitsDotDigitsAccepted(w, f);
    NoDotInDigits(w);
    NoDotInDigits(f);
    SplitOneDot(w, f);
  }

  /** A decimal text that splits into two pieces has the value of the
      first plus the scaled value of the second. */
  lemma DecimalValueOfPieces(s: string, w: string, f: string)
    requires IsDecimalText(s) && Split(s, '.') == [w, f]
    ensures AllDigits(w) && AllDigits(f)
    ensures DecimalValue(s) == DigitsValue(w) as real + DigitsValue(f) as real / Pow10(|f|) as real
  {
    DecimalPiecesAreDigits(s, 0);
    DecimalPiecesAreDigits(s, 1);
  }

  /** Accepted text parses to its value. */
  lemma ParseAccepted(s: string, x: real)
    requires IsDecimalText(s) && DecimalValue(s) == x
    ensures ParseDecimal(s) == Some(x)
  {
  }

  lemma {:induction false} NoDotInDigits(s: string)
    requires AllDigits(s)
    ensures '.' !in s
  {
    forall i | 0 <= i < |s| ensures s[i] != '.' {
      assert IsDigit(s[i]);
    }
  }
}
