/** The model's results on concrete inputs the script meets: the two timestamp
    encodings of the same progress point, a run whose progress falls back, the
    commands for two typical files, and the destinations of two names. */
module Scenarios {
  import opened Common
  import opened Text
  import opened OutputPath
  import opened Command
  import opened ProgressLine
  import opened Throttle
  import opened Entry

  /** `out_time_ms=5000000` against a 10-second file is 50 percent. */
  lemma MicrosecondLineExample()
    ensures Interpret("out_time_ms=5000000") == Elapsed(5.0)
    ensures Percent(5.0, 10.0) == 50.0
  {
    FiveMillionDigits();
    assert "out_time_ms=5000000" == MicrosKey + "5000000";
    MicrosLineReading("5000000");
  }

  /** The digits of the example read as five million; a lemma of its own so that
      the literal's digit-by-digit evaluation stays out of the example above. */
  lemma FiveMillionDigits()
    ensures NatOf("5000000") == 5000000
  {
    assert "50"[..1] == "5";
    assert "500"[..2] == "50";
    assert "5000"[..3] == "500";
    assert "50000"[..4] == "5000";
    assert "500000"[..5] == "50000";
    assert "5000000"[..6] == "500000";
  }

  /** The clock capture of the example splits into hours, minutes and seconds. */
  lemma ClockFieldsExample()
    ensures Split("00:00:05.000000", ':') == ["00", "00", "05.000000"]
  {
    var parts := ["00", "00", "05.000000"];
    assert parts[1..] == ["00", "05.000000"];
    assert parts[1..][1..] == ["05.000000"];
    assert Join(parts, ':') == "00:00:05.000000";
    SplitJoin(parts, ':');
  }

  /** `float("00")` is zero. */
  lemma ZeroFieldExample()
    ensures DigitsAndDots("00") && DecimalValue("00") == Some(0.0)
  {
    assert "00"[..1] == "0";
    assert NatOf("00") == 0;
  }

  /** `float("05.000000")` is five. */
  lemma SecondsFieldExample()
    ensures DigitsAndDots("05.000000") && DecimalValue("05.000000") == Some(5.0)
  {
    assert "05"[..1] == "0";
    assert NatOf("05") == 5;
    var zeros := "000000";
    NatOfLeadingZero("");
    NatOfLeadingZero("0");
    NatOfLeadingZero("00");
    NatOfLeadingZero("000");
    NatOfLeadingZero("0000");
    NatOfLeadingZero("00000");
    assert "0" + "" == "0" && "0" + "0" == "00" && "0" + "00" == "000";
    assert "0" + "000" == "0000" && "0" + "0000" == "00000" && "0" + "00000" == zeros;
    assert NatOf(zeros) == 0;
    DecimalValueOfParts("05", zeros);
    WholeScaled(5, 6);
    assert "05" + "." + zeros == "05.000000";
  }

  /** The example clock line matches only the clock pattern, capturing the whole clock. */
  lemma ClockLineMatches()
    ensures NoMatch("out_time=00:00:05.000000", MicrosKey, Digits)
    ensures IsSearchResult("out_time=00:00:05.000000", ClockKey, ClockChars, "00:00:05.000000")
  {
    var line := "out_time=00:00:05.000000";
    var clock := "00:00:05.000000";
    assert MicrosKey[10] == 's';
    KeyCharAbsent(line, MicrosKey, Digits, 10);
    assert line[..9] == ClockKey;
    assert LeftmostMatch(line, 0, ClockKey, ClockChars);
    assert line[9..] == clock;
    assert GreedyRun(line, 9, ClockChars, clock);
  }

  /** The example clock is five seconds. */
  lemma ClockExampleSeconds(clock: string)
    requires clock == "00:00:05.000000"
    ensures forall k :: 0 <= k < |clock| ==> InClass(clock[k], ClockChars)
    ensures ClockSeconds(clock) == Some(5.0)
  {
    assert forall k :: 0 <= k < |clock| ==> InClass(clock[k], ClockChars);
    var zero, five := "00", "05.000000";
    ClockFieldsExample();
    ZeroFieldExample();
    SecondsFieldExample();
    assert Split(clock, ':') == [zero, zero, five];
    assert DigitsAndDots(zero) && DecimalValue(zero) == Some(0.0);
    assert DigitsAndDots(five) && DecimalValue(five) == Some(5.0);
    var h, s := 0.0, 5.0;
    ClockSum(h, s);
    ClockSecondsOfFields(clock, zero, zero, five, h, h, s);
  }

  /** `0 * 3600 + 0 * 60 + 5`. A lemma of its own, on symbolic operands, only to
      keep the solver from evaluating literal real arithmetic inside the example. */
  lemma ClockSum(h: real, s: real)
    requires h == 0.0 && s == 5.0
    ensures h * 3600.0 + h * 60.0 + s == 5.0
  {
  }

  /** A zero fraction adds nothing, however many places it has. A lemma of its own,
      on symbolic operands, only to keep the solver's work in the example small. */
  lemma WholeScaled(whole: nat, places: nat)
    ensures Scaled(whole, 0, places) == whole as real
  {
  }

  /** `out_time=00:00:05.000000` is the same point in time, read through the clock
      pattern because the line has no microsecond field. */
  lemma ClockLineExample()
    ensures Interpret("out_time=00:00:05.000000") == Elapsed(5.0)
  {
    ClockLineMatches();
    ClockExampleSeconds("00:00:05.000000");
    ClockFallback("out_time=00:00:05.000000", "00:00:05.000000");
  }

  /** Two microsecond lines, five seconds and then one second. */
  lemma FallBackReadings()
    ensures Interpretations([MicrosKey + Show(5000000), MicrosKey + Show(1000000)])
         == [Elapsed(5.0), Elapsed(1.0)]
  {
    MicrosLineOf(5000000);
    MicrosLineOf(1000000);
  }

  lemma FallBackScan()
    ensures Scan([Elapsed(5.0), Elapsed(1.0)], 10.0).updates == [50.0, 10.0]
  {
    var rs := [Elapsed(5.0), Elapsed(1.0)];
    assert rs[..1] == [Elapsed(5.0)];
    assert rs[..1][..0] == [];
    assert Percent(5.0, 10.0) == 50.0;
    assert Percent(1.0, 10.0) == 10.0;
    assert Trunc(50.0) == 50 && Trunc(10.0) == 10;
  }

  /** The script does not keep progress monotone: a later, smaller timestamp is
      printed as a smaller percentage. */
  lemma ProgressCanFallBack()
    ensures Run([MicrosKey + Show(5000000), MicrosKey + Show(1000000)], 10.0).updates == [50.0, 10.0]
  {
    FallBackReadings();
    FallBackScan();
  }

  /** A DTS track in an HEVC file, whatever the paths: ALAC audio and the `hvc1` tag, 16 arguments. */
  lemma DtsHevcCommand(src: string, dst: string)
    ensures BuildCommand(src, dst, "DTS", "hevc")
         == ["ffmpeg", "-y", "-i", src, "-c:v", "copy", "-c:a", "alac",
             "-movflags", "+faststart", "-tag:v", "hvc1",
             "-progress", "pipe:1", "-nostats", dst]
  {
    var plan := Plan(src, dst, TranscodeToAlac, true);
    assert MakePlan(src, dst, "DTS", "hevc") == plan by {
      assert SpellsIgnoringCase("DTS", "dts");
      assert SpellsIgnoringCase("hevc", "hevc");
    }
    assert Render(plan) == ["ffmpeg", "-y", "-i", src, "-c:v", "copy", "-c:a", "alac",
                            "-movflags", "+faststart", "-tag:v", "hvc1",
                            "-progress", "pipe:1", "-nostats", dst];
  }

  /** AAC audio in an H.264 file, whatever the paths: everything copied, no tag, 14 arguments. */
  lemma AacH264Command(src: string, dst: string)
    ensures BuildCommand(src, dst, "aac", "h264")
         == ["ffmpeg", "-y", "-i", src, "-c:v", "copy", "-c:a", "copy",
             "-movflags", "+faststart",
             "-progress", "pipe:1", "-nostats", dst]
  {
    AacH264Policies();
    var plan := Plan(src, dst, CopyAudio, false);
    assert MakePlan(src, dst, "aac", "h264") == plan;
    assert Render(plan) == ["ffmpeg", "-y", "-i", src, "-c:v", "copy", "-c:a", "copy",
                            "-movflags", "+faststart",
                            "-progress", "pipe:1", "-nostats", dst];
  }

  lemma AacH264Policies()
    ensures !SpellsIgnoringCase("aac", "dts")
    ensures !SpellsIgnoringCase("h264", "hevc") && !SpellsIgnoringCase("h264", "h265")
  {
    assert !SpellsIgnoringCase("aac", "dts") by { assert "aac"[0] !in Spellings('d'); }
    assert !SpellsIgnoringCase("h264", "hevc") by { assert "h264"[1] !in Spellings('e'); }
    assert !SpellsIgnoringCase("h264", "h265") by { assert "h264"[3] !in Spellings('5'); }
  }

  /** The usual case: the extension, in whatever case, is replaced. */
  lemma MovieDestination()
    ensures Mp4Path("/videos/Movie.MKV") == "/videos/Movie.mp4"
  {
    var p := "/videos/Movie.MKV";
    assert forall k :: 8 <= k < |p| ==> p[k] != '/';
    RFindIsLast(p, '/', 7);
    assert forall k :: 14 <= k < |p| ==> p[k] != '.';
    RFindIsLast(p, '.', 13);
    assert p[8] != '.';
    assert p[..13] == "/videos/Movie";
  }

  /** A basename that is only ".mkv" has no extension in the splitext sense: it is
      accepted, and ".mp4" is appended to the whole name. */
  lemma DotfileDestination()
    ensures CheckSelection("/videos/.mkv") == Ok("/videos/.mkv")
    ensures Mp4Path("/videos/.mkv") == "/videos/.mkv.mp4"
  {
    DotfileAccepted();
    DotfileHasNoExtension();
  }

  /* The two halves of the example above, each in a lemma of its own to keep the
     solver's work on the literal small. */

  lemma DotfileAccepted()
    ensures CheckSelection("/videos/.mkv") == Ok("/videos/.mkv")
  {
    var p := "/videos/.mkv";
    assert SpellsIgnoringCase(p[8..], ".mkv");
  }

  lemma DotfileHasNoExtension()
    ensures SplitExt("/videos/.mkv") == ("/videos/.mkv", "")
  {
    var p := "/videos/.mkv";
    assert forall k :: 8 <= k < |p| ==> p[k] != '/';
    RFindIsLast(p, '/', 7);
    assert forall k :: 9 <= k < |p| ==> p[k] != '.';
    RFindIsLast(p, '.', 8);
  }
}
