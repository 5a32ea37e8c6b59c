/** Interpretation of one line of ffmpeg's `-progress` output. Two patterns are
    searched for: `out_time_ms=(\d+)` (microseconds) first, and only when it is
    absent `out_time=([\d:.]+)` (an `h:m:s` clock). A line matching neither is not
    progress output. */
module ProgressLine {
  import opened Common
  import opened Text

  /** The character class repeated by a pattern's capture group. */
  datatype CharClass = Digits | ClockChars

  predicate InClass(c: char, cls: CharClass)
  {
    match cls
    case Digits => IsDigit(c)
    case ClockChars => IsDigit(c) || c == ':' || c == '.'
  }

  const MicrosKey: string := "out_time_ms="
  const ClockKey: string := "out_time="

  /** The pattern `key(C+)` matches starting at position `i` of `line`. */
  predicate MatchesAt(line: string, i: int, key: string, cls: CharClass)
  {
    0 <= i && i + |key| < |line| && line[i..i + |key|] == key && InClass(line[i + |key|], cls)
  }

  /** The pattern matches nowhere in `line`. */
  ghost predicate NoMatch(line: string, key: string, cls: CharClass)
  {
    forall i :: !MatchesAt(line, i, key, cls)
  }

  /** The pattern matches at `i` and at no earlier position. */
  ghost predicate LeftmostMatch(line: string, i: int, key: string, cls: CharClass)
  {
    MatchesAt(line, i, key, cls) && forall j :: 0 <= j < i ==> !MatchesAt(line, j, key, cls)
  }

  /** `group` is the longest run of class characters starting at `start`. */
  ghost predicate GreedyRun(line: string, start: int, cls: CharClass, group: string)
  {
    && 0 <= start && start + |group| <= |line|
    && line[start..start + |group|] == group
    && (forall k :: 0 <= k < |group| ==> InClass(group[k], cls))
    && (start + |group| == |line| || !InClass(line[start + |group|], cls))
  }

  /** What `re.search(key + "(C+)", line).group(1)` returns, stated declaratively:
      the match starts at the leftmost position where the pattern can match, and
      the greedy group takes the longest run of class characters there. */
  ghost predicate IsSearchResult(line: string, key: string, cls: CharClass, group: string)
  {
    exists i :: LeftmostMatch(line, i, key, cls) && GreedyRun(line, i + |key|, cls, group)
  }

  /** A line lacking some character of the key cannot match the pattern. */
  lemma KeyCharAbsent(line: string, key: string, cls: CharClass, j: nat)
    requires j < |key| && key[j] !in line
    ensures NoMatch(line, key, cls)
  {
  }

  /** Leftmost position at or after `from` where the pattern matches. */
  function FirstMatch(line: string, key: string, cls: CharClass, from: nat): (r: Option<nat>)
    requires from <= |line|
    ensures r.Some? ==> from <= r.value && MatchesAt(line, r.value, key, cls)
    ensures r.Some? ==> forall j :: from <= j < r.value ==> !MatchesAt(line, j, key, cls)
    ensures r.None? ==> forall j :: from <= j ==> !MatchesAt(line, j, key, cls)
    decreases |line| - from
  {
    if from == |line| then None
    else if MatchesAt(line, from, key, cls) then Some(from)
    else FirstMatch(line, key, cls, from + 1)
  }

  /** End of the longest run of class characters starting at `start`. */
  function RunEnd(line: string, start: nat, cls: CharClass): (e: nat)
    requires start <= |line|
    ensures start <= e <= |line|
    ensures forall k :: start <= k < e ==> InClass(line[k], cls)
    ensures e == |line| || !InClass(line[e], cls)
    decreases |line| - start
  {
    if start == |line| || !InClass(line[start], cls) then start
    else RunEnd(line, start + 1, cls)
  }

  /** `re.search(key + "(C+)", line)`: the captured group, if the pattern matches. */
  function Search(line: string, key: string, cls: CharClass): (r: Option<string>)
    ensures r.None? <==> NoMatch(line, key, cls)
    ensures r.Some? ==> IsSearchResult(line, key, cls, r.value) && |r.value| >= 1
  {
    match FirstMatch(line, key, cls, 0)
    case None => None
    case Some(i) =>
      var e := RunEnd(line, i + |key|, cls);
      var g := line[i + |key|..e];
      assert forall k :: 0 <= k < |g| ==> InClass(g[k], cls) by {
        forall k | 0 <= k < |g| ensures InClass(g[k], cls) {
          assert g[k] == line[i + |key| + k];
        }
      }
      assert LeftmostMatch(line, i, key, cls) && GreedyRun(line, i + |key|, cls, g);
      Some(g)
  }

  lemma LeftmostUnique(line: string, key: string, cls: CharClass, i1: int, i2: int)
    requires LeftmostMatch(line, i1, key, cls) && LeftmostMatch(line, i2, key, cls)
    ensures i1 == i2
  {
  }

  lemma GreedyUnique(line: string, start: int, cls: CharClass, g1: string, g2: string)
    requires GreedyRun(line, start, cls, g1) && GreedyRun(line, start, cls, g2)
    ensures g1 == g2
  {
    assert forall k :: 0 <= k < |g1| ==> line[start + k] == g1[k];
    assert forall k :: 0 <= k < |g2| ==> line[start + k] == g2[k];
  }

  /** The declarative description of a search result admits only one group. */
  lemma SearchResultUnique(line: string, key: string, cls: CharClass, g1: string, g2: string)
    requires IsSearchResult(line, key, cls, g1)
    requires IsSearchResult(line, key, cls, g2)
    ensures g1 == g2
  {
    var i1 :| LeftmostMatch(line, i1, key, cls) && GreedyRun(line, i1 + |key|, cls, g1);
    var i2 :| LeftmostMatch(line, i2, key, cls) && GreedyRun(line, i2 + |key|, cls, g2);
    LeftmostUnique(line, key, cls, i1, i2);
    GreedyUnique(line, i1 + |key|, cls, g1, g2);
  }

  /** What one line says about elapsed media time. */
  datatype Reading =
    | Elapsed(seconds: real)  // a recognised timestamp, in seconds
    | Unrelated               // not progress output: skipped
    | BadClock                // the clock form did not split into three numbers; the script raises ValueError

  /** Each field of a clock capture is made of digits and dots only. */
  lemma {:induction false} ClockFieldsAreNumeric(group: string)
    requires forall k :: 0 <= k < |group| ==> InClass(group[k], ClockChars)
    ensures forall k :: 0 <= k < |Split(group, ':')| ==> DigitsAndDots(Split(group, ':')[k])
  {
    if |group| > 0 {
      ClockFieldsAreNumeric(group[1..]);
      var rest := Split(group[1..], ':');
      if group[0] != ':' {
        var first := [group[0]] + rest[0];
        assert DigitsAndDots(first) by {
          assert forall j :: 1 <= j < |first| ==> first[j] == rest[0][j - 1];
        }
      }
    }
  }

  /** The seconds an `h:m:s` capture denotes, when it has exactly three fields that
      each parse as a number. */
  function ClockSeconds(group: string): (r: Option<real>)
    requires forall k :: 0 <= k < |group| ==> InClass(group[k], ClockChars)
    ensures r.Some? ==> r.value >= 0.0
    ensures r.Some? ==> Occurrences(group, ':') == 2
  {
    ClockFieldsAreNumeric(group);
    FieldSeconds(Split(group, ':'))
  }

  /** `h, m, s = map(float, fields)` followed by `h * 3600 + m * 60 + s`. */
  function FieldSeconds(fields: seq<string>): (r: Option<real>)
    requires forall k :: 0 <= k < |fields| ==> DigitsAndDots(fields[k])
    ensures r.Some? ==> r.value >= 0.0 && |fields| == 3
  {
    if |fields| != 3 then None
    else
      var h, m, s := DecimalValue(fields[0]), DecimalValue(fields[1]), DecimalValue(fields[2]);
      if h.Some? && m.Some? && s.Some? then Some(h.value * 3600.0 + m.value * 60.0 + s.value)
      else None
  }

  /** The unpacking and the three `float()` calls succeed exactly when there are
      three fields and each is a decimal. */
  lemma FieldSecondsAccepts(fields: seq<string>)
    requires forall k :: 0 <= k < |fields| ==> DigitsAndDots(fields[k])
    ensures FieldSeconds(fields).Some? <==>
      |fields| == 3 && IsDecimal(fields[0]) && IsDecimal(fields[1]) && IsDecimal(fields[2])
  {
    if |fields| == 3 {
      DecimalValueAccepts(fields[0]);
      DecimalValueAccepts(fields[1]);
      DecimalValueAccepts(fields[2]);
    }
  }

  /** The body of the script's progress loop up to the `continue`: which pattern
      applies and how many seconds it denotes. */
  function Interpret(line: string): (r: Reading)
    ensures r.Unrelated? <==> NoMatch(line, MicrosKey, Digits) && NoMatch(line, ClockKey, ClockChars)
    ensures !NoMatch(line, MicrosKey, Digits) ==> r.Elapsed?
    ensures r.BadClock? ==> NoMatch(line, MicrosKey, Digits) && !NoMatch(line, ClockKey, ClockChars)
    ensures r.Elapsed? ==> r.seconds >= 0.0
  {
    match Search(line, MicrosKey, Digits)
    case Some(digits) =>
      assert AllDigits(digits) by {
        assert forall k :: 0 <= k < |digits| ==> InClass(digits[k], Digits);
      }
      Elapsed(NatOf(digits) as real / 1000000.0)
    case None =>
      match Search(line, ClockKey, ClockChars)
      case None => Unrelated
      case Some(clock) =>
        match ClockSeconds(clock)
        case Some(seconds) => Elapsed(seconds)
        case None => BadClock
  }

  /** Precedence: whenever the microsecond pattern matches, its captured digits
      over one million are the reading, whatever else the line contains. */
  lemma MicrosecondsTakePrecedence(line: string, digits: string)
    requires IsSearchResult(line, MicrosKey, Digits, digits)
    ensures AllDigits(digits)
    ensures Interpret(line) == Elapsed(NatOf(digits) as real / 1000000.0)
  {
    var r := Search(line, MicrosKey, Digits);
    assert !NoMatch(line, MicrosKey, Digits);
    SearchResultUnique(line, MicrosKey, Digits, r.value, digits);
  }

  /** A line that is the key followed by a run of class characters matches at its
      start and captures the whole run. */
  lemma KeyThenRun(key: string, cls: CharClass, group: string)
    requires |group| >= 1 && forall k :: 0 <= k < |group| ==> InClass(group[k], cls)
    ensures IsSearchResult(key + group, key, cls, group)
  {
    var line := key + group;
    assert line[..|key|] == key;
    assert line[|key|..] == group;
    assert LeftmostMatch(line, 0, key, cls);
    assert GreedyRun(line, |key|, cls, group);
  }

  /** A line that is the microsecond key followed by digits reads as those digits
      over one million. */
  lemma MicrosLineReading(digits: string)
    requires |digits| >= 1 && AllDigits(digits)
    ensures Interpret(MicrosKey + digits) == Elapsed(NatOf(digits) as real / 1000000.0)
  {
    KeyThenRun(MicrosKey, Digits, digits);
    MicrosecondsTakePrecedence(MicrosKey + digits, digits);
  }

  /** The line ffmpeg writes for `n` microseconds reads as `n / 1000000` seconds. */
  lemma MicrosLineOf(n: nat)
    ensures Interpret(MicrosKey + Show(n)) == Elapsed(n as real / 1000000.0)
  {
    NatOfShow(n);
    MicrosLineReading(Show(n));
  }

  /** Fallback: with no microsecond match, the clock capture decides the reading;
      a clock that does not parse makes the script fail. */
  lemma ClockFallback(line: string, clock: string)
    requires NoMatch(line, MicrosKey, Digits)
    requires IsSearchResult(line, ClockKey, ClockChars, clock)
    ensures forall k :: 0 <= k < |clock| ==> InClass(clock[k], ClockChars)
    ensures Interpret(line) == match ClockSeconds(clock)
      case Some(seconds) => Elapsed(seconds)
      case None => BadClock
  {
    var r := Search(line, ClockKey, ClockChars);
    SearchResultUnique(line, ClockKey, ClockChars, r.value, clock);
    assert Search(line, MicrosKey, Digits).None?;
  }

  /** In particular a clock capture `h:m:s` whose three fields parse is read as
      `h*3600 + m*60 + s` seconds. */
  lemma ClockFormReading(line: string, clock: string, hf: string, mf: string, sf: string,
                          h: real, m: real, s: real)
    requires NoMatch(line, MicrosKey, Digits)
    requires IsSearchResult(line, ClockKey, ClockChars, clock)
    requires Split(clock, ':') == [hf, mf, sf]
    requires DigitsAndDots(hf) && DecimalValue(hf) == Some(h)
    requires DigitsAndDots(mf) && DecimalValue(mf) == Some(m)
    requires DigitsAndDots(sf) && DecimalValue(sf) == Some(s)
    ensures Interpret(line) == Elapsed(h * 3600.0 + m * 60.0 + s)
  {
    ClockFallback(line, clock);
    ClockSecondsOfFields(clock, hf, mf, sf, h, m, s);
  }

  /** The text holds only characters the clock pattern captures. */
  predicate ClockCharsOnly(t: string)
  {
    forall k :: 0 <= k < |t| ==> InClass(t[k], ClockChars)
  }

  lemma ColonJoinClockChars(a: string, b: string)
    requires ClockCharsOnly(a) && ClockCharsOnly(b)
    ensures ClockCharsOnly(a + [':'] + b)
  {
    var t := a + [':'] + b;
    forall k | 0 <= k < |t| ensures InClass(t[k], ClockChars) {
      if k < |a| {
        assert t[k] == a[k];
      } else if k > |a| {
        assert t[k] == b[k - |a| - 1];
      }
    }
  }

  /** An independent rendering of a clock: whole hours, minutes and seconds as
      decimal numerals joined by colons. */
  function ClockText(h: nat, m: nat, s: nat): (t: string)
    ensures |t| >= 5 && ClockCharsOnly(t)
  {
    var hs, ms, ss := Show(h), Show(m), Show(s);
    assert ClockCharsOnly(hs) && ClockCharsOnly(ms) && ClockCharsOnly(ss);
    ColonJoinClockChars(ms, ss);
    ColonJoinClockChars(hs, ms + [':'] + ss);
    assert hs + [':'] + (ms + [':'] + ss) == hs + [':'] + ms + [':'] + ss;
    hs + [':'] + ms + [':'] + ss
  }

  /** The rendered clock splits back into its three numerals. */
  lemma ClockTextFields(h: nat, m: nat, s: nat)
    ensures Split(ClockText(h, m, s), ':') == [Show(h), Show(m), Show(s)]
  {
    var parts := [Show(h), Show(m), Show(s)];
    forall k | 0 <= k < 3 ensures ':' !in parts[k] {
      assert AllDigits(parts[k]);
    }
    var tail := parts[1..];
    assert tail == [Show(m), Show(s)] && tail[1..] == [Show(s)];
    assert Join(tail, ':') == Show(m) + [':'] + Show(s);
    assert Join(parts, ':') == Show(h) + [':'] + Join(tail, ':');
    assert Join(parts, ':') == ClockText(h, m, s);
    SplitJoin(parts, ':');
  }

  lemma ClockArithmetic(h: nat, m: nat, s: nat)
    ensures h as real * 3600.0 + m as real * 60.0 + s as real == (h * 3600 + m * 60 + s) as real
  {
  }

  /** Round trip for the clock form: the rendered clock of whole numbers reads back
      as `h*3600 + m*60 + s` seconds. */
  lemma ClockSecondsOfText(h: nat, m: nat, s: nat)
    ensures ClockSeconds(ClockText(h, m, s)) == Some((h * 3600 + m * 60 + s) as real)
  {
    var t, hf, mf, sf := ClockText(h, m, s), Show(h), Show(m), Show(s);
    var hr, mr, sr := h as real, m as real, s as real;
    assert ClockSeconds(t) == Some(hr * 3600.0 + mr * 60.0 + sr) by {
      ClockTextFields(h, m, s);
      DecimalValueOfShow(h);
      DecimalValueOfShow(m);
      DecimalValueOfShow(s);
      assert DigitsAndDots(hf) && DigitsAndDots(mf) && DigitsAndDots(sf);
      ClockSecondsOfFields(t, hf, mf, sf, hr, mr, sr);
    }
    ClockArithmetic(h, m, s);
  }

  /** The line `out_time=h:m:s` for whole numbers reads as `h*3600 + m*60 + s`
      seconds through the clock pattern. */
  lemma ClockLineOf(h: nat, m: nat, s: nat)
    ensures Interpret(ClockKey + ClockText(h, m, s)) == Elapsed((h * 3600 + m * 60 + s) as real)
  {
    var t := ClockText(h, m, s);
    var line := ClockKey + t;
    KeyThenRun(ClockKey, ClockChars, t);
    assert 's' !in line by {
      forall k | 0 <= k < |line| ensures line[k] != 's' {
        if k >= |ClockKey| {
          assert line[k] == t[k - |ClockKey|];
        }
      }
    }
    assert MicrosKey[10] == 's';
    KeyCharAbsent(line, MicrosKey, Digits, 10);
    ClockFallback(line, t);
    ClockSecondsOfText(h, m, s);
  }

  lemma ClockSecondsOfFields(clock: string, hf: string, mf: string, sf: string, h: real, m: real, s: real)
    requires forall k :: 0 <= k < |clock| ==> InClass(clock[k], ClockChars)
    requires Split(clock, ':') == [hf, mf, sf]
    requires DigitsAndDots(hf) && DecimalValue(hf) == Some(h)
    requires DigitsAndDots(mf) && DecimalValue(mf) == Some(m)
    requires DigitsAndDots(sf) && DecimalValue(sf) == Some(s)
    ensures ClockSeconds(clock) == Some(h * 3600.0 + m * 60.0 + s)
  {
    ClockFieldsAreNumeric(clock);
    assert ClockSeconds(clock) == FieldSeconds([hf, mf, sf]);
    FieldSecondsOfValues(hf, mf, sf, h, m, s);
  }

  /** The sum of three parsed fields. A lemma of its own only so that the unfolding
      of `FieldSeconds` is done apart from the clock's split and character facts. */
  lemma FieldSecondsOfValues(hf: string, mf: string, sf: string, h: real, m: real, s: real)
    requires DigitsAndDots(hf) && DecimalValue(hf) == Some(h)
    requires DigitsAndDots(mf) && DecimalValue(mf) == Some(m)
    requires DigitsAndDots(sf) && DecimalValue(sf) == Some(s)
    ensures FieldSeconds([hf, mf, sf]) == Some(h * 3600.0 + m * 60.0 + s)
  {
  }

  /** A clock capture that does not have exactly three fields makes the script fail. */
  lemma WrongFieldCountFails(line: string, clock: string)
    requires NoMatch(line, MicrosKey, Digits)
    requires IsSearchResult(line, ClockKey, ClockChars, clock)
    requires Occurrences(clock, ':') != 2
    ensures Interpret(line) == BadClock
  {
    var r := Search(line, ClockKey, ClockChars);
    SearchResultUnique(line, ClockKey, ClockChars, r.value, clock);
  }
}
