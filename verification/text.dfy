/** The text operations the remuxer uses: Python's `str.lower()` on the characters
    that matter, case-insensitive comparison, suffix tests, `str.split` on one
    separator character, decimal digits, and `float()` applied to text made only of
    digits and dots. */
module Text {
  import opened Common

  /** U+212A KELVIN SIGN, the one non-ASCII character whose lower-case form is ASCII. */
  const Kelvin: char := '\U{212A}'

  /** Lower-case form of one character: the ASCII capitals and the Kelvin sign are
      folded; every other character is kept. Every character kept here lowers, in
      Python, either to itself or to text holding a non-ASCII character (U+0130
      becomes "i" followed by U+0307), so comparing the folded text with an ASCII
      target gives the answer Python gives. */
  function LowerChar(c: char): char
  {
    if 'A' <= c <= 'Z' then (c as int + 32) as char
    else if c == Kelvin then 'k'
    else c
  }

  /** `s.lower()`, one character at a time. */
  function Lower(s: string): (r: string)
    ensures |r| == |s|
    ensures forall i :: 0 <= i < |s| ==> r[i] == LowerChar(s[i])
    ensures forall i :: 0 <= i < |r| ==> !('A' <= r[i] <= 'Z') && r[i] != Kelvin
  {
    seq(|s|, i requires 0 <= i < |s| => LowerChar(s[i]))
  }

  /** Every character whose lower-case form is `c`, listed by hand. */
  function Spellings(c: char): set<char>
  {
    if 'a' <= c <= 'z' then
      {c, (c as int - 32) as char} + (if c == 'k' then {Kelvin} else {})
    else if 'A' <= c <= 'Z' || c == Kelvin then {}
    else {c}
  }

  /** `s` spells `t` in any mixture of cases: each character of `s` is one of the
      spellings of the corresponding character of `t`. */
  predicate SpellsIgnoringCase(s: string, t: string)
  {
    |s| == |t| && forall i :: 0 <= i < |s| ==> s[i] in Spellings(t[i])
  }

  /** The hand-written spellings are exactly the characters that fold to `c`. */
  lemma SpellingsAreFoldPreimage(x: char, c: char)
    ensures LowerChar(x) == c <==> x in Spellings(c)
  {
    if 'A' <= x <= 'Z' {
      assert LowerChar(x) == (x as int + 32) as char;
    }
  }

  /** Comparing `s.lower()` with `t` is the same as asking whether `s` spells `t`
      in some mixture of cases. */
  lemma LowerEqualsIffSpells(s: string, t: string)
    ensures Lower(s) == t <==> SpellsIgnoringCase(s, t)
  {
    if |s| == |t| {
      forall i | 0 <= i < |s|
        ensures LowerChar(s[i]) == t[i] <==> s[i] in Spellings(t[i])
      {
        SpellingsAreFoldPreimage(s[i], t[i]);
      }
      if SpellsIgnoringCase(s, t) {
        assert Lower(s) == t;
      }
    }
  }

  /** `s.endswith(suffix)`. */
  predicate EndsWith(s: string, suffix: string)
  {
    |suffix| <= |s| && s[|s| - |suffix|..] == suffix
  }

  /** `s.lower().endswith(t)` asks whether the last `|t|` characters of `s` spell
      `t` in some mixture of cases. */
  lemma LowerEndsWithIffSpells(s: string, t: string)
    ensures EndsWith(Lower(s), t) <==> |t| <= |s| && SpellsIgnoringCase(s[|s| - |t|..], t)
  {
    if |t| <= |s| {
      var tail := s[|s| - |t|..];
      assert Lower(s)[|s| - |t|..] == Lower(tail);
      LowerEqualsIffSpells(tail, t);
    }
  }

  /** Number of occurrences of `c` in `s`. */
  function Occurrences(s: string, c: char): nat
  {
    if |s| == 0 then 0 else (if s[0] == c then 1 else 0) + Occurrences(s[1..], c)
  }

  /** `s.split(sep)` for a one-character separator: the pieces between separators,
      empty pieces included. */
  function Split(s: string, sep: char): (parts: seq<string>)
    ensures |parts| == Occurrences(s, sep) + 1
    ensures forall k :: 0 <= k < |parts| ==> sep !in parts[k]
  {
    if |s| == 0 then [""]
    else
      var rest := Split(s[1..], sep);
      if s[0] == sep then [""] + rest
      else [[s[0]] + rest[0]] + rest[1..]
  }

  /** `sep.join(parts)`. */
  function Join(parts: seq<string>, sep: char): string
    requires |parts| >= 1
  {
    if |parts| == 1 then parts[0] else parts[0] + [sep] + Join(parts[1..], sep)
  }

  /** Joining the pieces of a split gives the original text back. */
  lemma {:induction false} JoinSplit(s: string, sep: char)
    ensures Join(Split(s, sep), sep) == s
  {
    if |s| > 0 {
      JoinSplit(s[1..], sep);
      var rest := Split(s[1..], sep);
      if s[0] != sep {
        if |rest| == 1 {
          assert Join(Split(s, sep), sep) == [s[0]] + rest[0];
        } else {
          assert [[s[0]] + rest[0]] + rest[1..] == Split(s, sep);
          assert Split(s, sep)[1..] == rest[1..];
        }
      } else {
        assert Split(s, sep)[1..] == rest;
      }
    }
  }

  /** A piece without separators stays whole. */
  lemma {:induction false} SplitWithoutSeparator(s: string, sep: char)
    requires sep !in s
    ensures Split(s, sep) == [s]
  {
    if |s| > 0 {
      SplitWithoutSeparator(s[1..], sep);
      assert [s[0]] + s[1..] == s;
    }
  }

  /** Splitting `x + sep + y`, with no separator in `x`, yields `x` and then the
      pieces of `y`. */
  lemma {:induction false} SplitAfterPiece(x: string, y: string, sep: char)
    requires sep !in x
    ensures Split(x + [sep] + y, sep) == [x] + Split(y, sep)
  {
    if |x| == 0 {
      assert x + [sep] + y == [sep] + y;
      assert ([sep] + y)[1..] == y;
    } else {
      SplitAfterPiece(x[1..], y, sep);
      assert (x + [sep] + y)[1..] == x[1..] + [sep] + y;
      assert [x[0]] + x[1..] == x;
    }
  }

  /** Splitting a join of separator-free pieces gives the pieces back. */
  lemma {:induction false} SplitJoin(parts: seq<string>, sep: char)
    requires |parts| >= 1
    requires forall k :: 0 <= k < |parts| ==> sep !in parts[k]
    ensures Split(Join(parts, sep), sep) == parts
  {
    if |parts| == 1 {
      SplitWithoutSeparator(parts[0], sep);
    } else {
      SplitJoin(parts[1..], sep);
      SplitAfterPiece(parts[0], Join(parts[1..], sep), sep);
      assert [parts[0]] + parts[1..] == parts;
    }
  }

  predicate IsDigit(c: char)
  {
    '0' <= c <= '9'
  }

  predicate AllDigits(s: string)
  {
    forall i :: 0 <= i < |s| ==> IsDigit(s[i])
  }

  function DigitValue(c: char): nat
    requires IsDigit(c)
  {
    c as int - '0' as int
  }

  /** `int(s)` for a string of ASCII digits (leading zeros allowed). */
  function NatOf(s: string): (n: nat)
    requires AllDigits(s)
    ensures n < Pow10(|s|)
  {
    if |s| == 0 then 0 else NatOf(s[..|s| - 1]) * 10 + DigitValue(s[|s| - 1])
  }

  /** The decimal rendering of `n`, without leading zeros. */
  function Show(n: nat): (s: string)
    ensures |s| >= 1 && AllDigits(s)
  {
    if n < 10 then [('0' as int + n) as char]
    else Show(n / 10) + [('0' as int + n % 10) as char]
  }

  /** Reading back a rendered number gives the number. */
  lemma {:induction false} NatOfShow(n: nat)
    ensures NatOf(Show(n)) == n
  {
    if n >= 10 {
      NatOfShow(n / 10);
      var s := Show(n);
      assert s[..|s| - 1] == Show(n / 10);
    }
  }

  /** A leading zero does not change the value of a digit string. */
  lemma {:induction false} NatOfLeadingZero(s: string)
    requires AllDigits(s)
    ensures AllDigits("0" + s) && NatOf("0" + s) == NatOf(s)
  {
    if |s| > 0 {
      NatOfLeadingZero(s[..|s| - 1]);
      assert ("0" + s)[..|"0" + s| - 1] == "0" + s[..|s| - 1];
    }
  }

  function Pow10(n: nat): (p: nat)
    ensures p >= 1
  {
    if n == 0 then 1 else 10 * Pow10(n - 1)
  }

  /** Position of the first `c` in `s`, or -1 (`str.find`). */
  function Find(s: string, c: char): (r: int)
    ensures -1 <= r < |s|
    ensures r >= 0 ==> s[r] == c
    ensures forall k :: 0 <= k < |s| && (r < 0 || k < r) ==> s[k] != c
  {
    if |s| == 0 then -1
    else if s[0] == c then 0
    else
      var r := Find(s[1..], c);
      if r < 0 then -1 else r + 1
  }

  /** Text built only from digits and dots, which is all the clock pattern can capture. */
  predicate DigitsAndDots(f: string)
  {
    forall i :: 0 <= i < |f| ==> IsDigit(f[i]) || f[i] == '.'
  }

  /** Python's `float(f)` for text made of digits and dots: accepted exactly when
      there is at most one dot and at least one digit ("5", "5.", ".5", "05.000");
      the value is the integer part plus the fraction digits over a power of ten. */
  function DecimalValue(f: string): (r: Option<real>)
    requires DigitsAndDots(f)
    ensures r.Some? ==> r.value >= 0.0
  {
    var d := Find(f, '.');
    if d < 0 then
      if |f| == 0 then None else Some(NatOf(f) as real)
    else
      var whole, fraction := f[..d], f[d + 1..];
      if Find(fraction, '.') >= 0 || |whole| + |fraction| == 0 then None
      else Some(Scaled(NatOf(whole), NatOf(fraction), |fraction|))
  }

  /** The number written `whole.fraction` when the fraction has `places` digits. */
  function Scaled(whole: nat, fraction: nat, places: nat): (r: real)
    ensures r >= whole as real
  {
    whole as real + fraction as real / Pow10(places) as real
  }

  /** The texts `float()` accepts among those of digits and dots: at most one dot,
      at least one digit. */
  predicate IsDecimal(f: string)
  {
    && (forall i, j :: 0 <= i < j < |f| && f[i] == '.' ==> f[j] != '.')
    && (exists i :: 0 <= i < |f| && IsDigit(f[i]))
  }

  /** The decimal texts, described through the two dot searches `DecimalValue`
      makes: no dot and something else, or a first dot with no second one after it
      and something besides the dot. */
  lemma DecimalByDots(f: string)
    requires DigitsAndDots(f)
    ensures var d := Find(f, '.');
      IsDecimal(f) <==> if d < 0 then |f| > 0 else Find(f[d + 1..], '.') < 0 && |f| > 1
  {
    var d := Find(f, '.');
    if d < 0 {
      if |f| > 0 {
        assert IsDigit(f[0]);
      }
    } else if Find(f[d + 1..], '.') >= 0 {
      SecondDotNotDecimal(f, d);
    } else {
      SingleDotDecimal(f, d);
    }
  }

  /** A dot after the first one makes the text no decimal. */
  lemma SecondDotNotDecimal(f: string, d: int)
    requires 0 <= d < |f| && f[d] == '.' && Find(f[d + 1..], '.') >= 0
    ensures !IsDecimal(f)
  {
    var e := Find(f[d + 1..], '.');
    assert f[d + 1 + e] == f[d + 1..][e];
  }

  /** With a single dot, the text is a decimal exactly when it is more than the dot. */
  lemma SingleDotDecimal(f: string, d: int)
    requires DigitsAndDots(f)
    requires 0 <= d < |f| && d == Find(f, '.') && Find(f[d + 1..], '.') < 0
    ensures IsDecimal(f) <==> |f| > 1
  {
    var fraction := f[d + 1..];
    assert forall k :: 0 <= k < |f| && k != d ==> f[k] != '.' by {
      forall k | d < k < |f| ensures f[k] != '.' {
        assert f[k] == fraction[k - d - 1];
      }
    }
    if d > 0 {
      assert IsDigit(f[0]);
    } else if |f| > 1 {
      assert IsDigit(f[d + 1]);
    }
  }

  /** `float()` rejects exactly the texts that are not decimals: "", ".", "1.2.3". */
  lemma DecimalValueAccepts(f: string)
    requires DigitsAndDots(f)
    ensures DecimalValue(f).Some? <==> IsDecimal(f)
  {
    DecimalByDots(f);
    var d := Find(f, '.');
    if d >= 0 {
      assert |f[..d]| + |f[d + 1..]| == |f| - 1;
    }
  }

  /** A whole part, a dot and a fraction part read as the whole part plus the
      fraction digits scaled down by their count. */
  lemma DecimalValueOfParts(whole: string, fraction: string)
    requires AllDigits(whole) && AllDigits(fraction) && |whole| + |fraction| > 0
    ensures DigitsAndDots(whole + "." + fraction)
    ensures DecimalValue(whole + "." + fraction)
         == Some(Scaled(NatOf(whole), NatOf(fraction), |fraction|))
  {
    var f := whole + "." + fraction;
    assert f[|whole|] == '.';
    assert forall k :: 0 <= k < |whole| ==> f[k] == whole[k];
    assert Find(f, '.') == |whole|;
    assert f[..|whole|] == whole;
    assert f[|whole| + 1..] == fraction;
    assert Find(fraction, '.') < 0;
  }

  /** A rendered whole number reads back as itself. */
  lemma DecimalValueOfShow(n: nat)
    ensures DecimalValue(Show(n)) == Some(n as real)
  {
    NatOfShow(n);
    var s := Show(n);
    assert IsDigit(s[0]);
  }
}
