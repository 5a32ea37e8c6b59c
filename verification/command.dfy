/** The ffmpeg invocation: a plan decided from the probed codec names, and the
    argument vector rendered from it. Video is always copied; DTS audio becomes
    ALAC, other audio is copied; HEVC/H.265 video is tagged `hvc1`; fast start,
    machine-readable progress on stdout and no per-frame statistics are always
    requested. */
module Command {
  import opened Common
  import opened Text

  datatype AudioAction = CopyAudio | TranscodeToAlac

  /** What the remux will do. Video is always copied, so it has no field. */
  datatype Plan = Plan(input: string, output: string, audio: AudioAction, tagHvc1: bool)

  /** Audio policy: transcode exactly when the probed codec name is "dts" in any case. */
  function ChooseAudio(acodec: string): (a: AudioAction)
    ensures a == TranscodeToAlac <==> SpellsIgnoringCase(acodec, "dts")
    ensures acodec == "" ==> a == CopyAudio
  {
    LowerEqualsIffSpells(acodec, "dts");
    if Lower(acodec) == "dts" then TranscodeToAlac else CopyAudio
  }

  /** Tag policy: tag exactly when the probed video codec is "hevc" or "h265" in any case. */
  function NeedsHvc1Tag(vcodec: string): (tag: bool)
    ensures tag <==> SpellsIgnoringCase(vcodec, "hevc") || SpellsIgnoringCase(vcodec, "h265")
    ensures vcodec == "" ==> !tag
  {
    LowerEqualsIffSpells(vcodec, "hevc");
    LowerEqualsIffSpells(vcodec, "h265");
    Lower(vcodec) in {"hevc", "h265"}
  }

  /** The plan for one remux: the given paths, and both policies applied to the
      probed codec names. */
  function MakePlan(src: string, dst: string, acodec: string, vcodec: string): (plan: Plan)
    ensures plan.input == src && plan.output == dst
    ensures plan.audio == TranscodeToAlac <==> SpellsIgnoringCase(acodec, "dts")
    ensures plan.tagHvc1 <==> SpellsIgnoringCase(vcodec, "hevc") || SpellsIgnoringCase(vcodec, "h265")
  {
    Plan(src, dst, ChooseAudio(acodec), NeedsHvc1Tag(vcodec))
  }

  function AudioArgs(a: AudioAction): seq<string>
  {
    match a
    case TranscodeToAlac => ["-c:a", "alac"]
    case CopyAudio => ["-c:a", "copy"]
  }

  function TagArgs(tag: bool): seq<string>
  {
    if tag then ["-tag:v", "hvc1"] else []
  }

  /** The argument vector for a plan, in the order the script writes it. */
  function Render(plan: Plan): (argv: seq<string>)
    ensures |argv| == (if plan.tagHvc1 then 16 else 14)
    ensures argv[0] == "ffmpeg" && argv[3] == plan.input && argv[|argv| - 1] == plan.output
  {
    ["ffmpeg", "-y", "-i", plan.input, "-c:v", "copy"]
    + AudioArgs(plan.audio)
    + ["-movflags", "+faststart"]
    + TagArgs(plan.tagHvc1)
    + ["-progress", "pipe:1", "-nostats", plan.output]
  }

  /** Where each group of arguments sits in a rendered vector. */
  lemma RenderLayout(plan: Plan)
    ensures |Render(plan)| == (if plan.tagHvc1 then 16 else 14)
    ensures Render(plan)[..6] == ["ffmpeg", "-y", "-i", plan.input, "-c:v", "copy"]
    ensures Render(plan)[6..8] == AudioArgs(plan.audio)
    ensures Render(plan)[8..10] == ["-movflags", "+faststart"]
    ensures plan.tagHvc1 ==> Render(plan)[10..12] == ["-tag:v", "hvc1"]
    ensures Render(plan)[|Render(plan)| - 4..] == ["-progress", "pipe:1", "-nostats", plan.output]
  {
    var r := Render(plan);
    var a := ["ffmpeg", "-y", "-i", plan.input, "-c:v", "copy"] + AudioArgs(plan.audio);
    var b := a + ["-movflags", "+faststart"];
    var c := b + TagArgs(plan.tagHvc1);
    assert r == c + ["-progress", "pipe:1", "-nostats", plan.output];
    assert r[..6] == a[..6];
    assert r[6..8] == a[6..8];
    assert r[8..10] == b[8..10];
    if plan.tagHvc1 {
      assert r[10..12] == c[10..12];
    }
  }

  /** Reads a plan back out of an argument vector; `None` when the vector is not
      one that `Render` produces. */
  function Recover(argv: seq<string>): Option<Plan>
  {
    if (|argv| == 14 || |argv| == 16)
      && argv[..3] == ["ffmpeg", "-y", "-i"]
      && argv[4..6] == ["-c:v", "copy"]
      && argv[6] == "-c:a" && argv[7] in {"alac", "copy"}
      && argv[8..10] == ["-movflags", "+faststart"]
      && (|argv| == 14 || argv[10..12] == ["-tag:v", "hvc1"])
      && argv[|argv| - 4..|argv| - 1] == ["-progress", "pipe:1", "-nostats"]
    then Some(Plan(argv[3], argv[|argv| - 1],
                   if argv[7] == "alac" then TranscodeToAlac else CopyAudio,
                   |argv| == 16))
    else None
  }

  /** Rendering loses nothing: the plan can be read back from its arguments, and
      the only vectors that read back as a plan are renderings of it. */
  lemma RecoverRender(plan: Plan, argv: seq<string>)
    ensures Recover(Render(plan)) == Some(plan)
    ensures Recover(argv) == Some(plan) ==> argv == Render(plan)
  {
    RenderLayout(plan);
    var r := Render(plan);
    assert r[3] == plan.input;
    assert r[7] == (if plan.audio == TranscodeToAlac then "alac" else "copy");
    if Recover(argv) == Some(plan) {
      assert |argv| == |r|;
      forall k | 0 <= k < |argv| ensures argv[k] == r[k] {
        if k < 6 {
          assert argv[k] == argv[..6][k] || k == 3;
        } else if k < 10 {
        } else if k < |argv| - 4 {
        } else {
          assert argv[k] == argv[|argv| - 4..][k - (|argv| - 4)] || k == |argv| - 1;
        }
      }
    }
  }

  /** Two plans that differ give different command lines. */
  lemma RenderInjective(p: Plan, q: Plan)
    ensures Render(p) == Render(q) ==> p == q
  {
    RecoverRender(p, Render(q));
    RecoverRender(q, Render(p));
  }

  /** `argv` passes the option `name` followed by its value `value`. */
  predicate HasOption(argv: seq<string>, name: string, value: string)
  {
    exists k :: 0 <= k < |argv| - 1 && argv[k] == name && argv[k + 1] == value
  }

  /** `build_ffmpeg_cmd(src, dst, acodec, vcodec)`. */
  function BuildCommand(src: string, dst: string, acodec: string, vcodec: string): (argv: seq<string>)
    ensures |argv| == if SpellsIgnoringCase(vcodec, "hevc") || SpellsIgnoringCase(vcodec, "h265") then 16 else 14
    ensures argv[..6] == ["ffmpeg", "-y", "-i", src, "-c:v", "copy"]
    ensures argv[6..8] == if SpellsIgnoringCase(acodec, "dts") then ["-c:a", "alac"] else ["-c:a", "copy"]
    ensures |argv| == 16 ==> argv[10..12] == ["-tag:v", "hvc1"]
    ensures HasOption(argv, "-tag:v", "hvc1") <==> |argv| == 16
    ensures HasOption(argv, "-movflags", "+faststart")
    ensures HasOption(argv, "-progress", "pipe:1")
    ensures "-nostats" in argv
    ensures argv[|argv| - 1] == dst
  {
    var plan := MakePlan(src, dst, acodec, vcodec);
    RenderLayout(plan);
    var argv := Render(plan);
    assert argv[8] == "-movflags" && argv[9] == "+faststart";
    assert argv[|argv| - 4] == "-progress" && argv[|argv| - 3] == "pipe:1";
    assert argv[|argv| - 2] == "-nostats";
    assert plan.tagHvc1 ==> argv[10] == "-tag:v" && argv[11] == "hvc1";
    argv
  }

  /** Without the HEVC policy no `-tag:v` argument is passed at all: the string can
      only occur as the source or destination path. */
  lemma UntaggedHasNoTagArgument(src: string, dst: string, acodec: string, vcodec: string)
    ensures var argv := BuildCommand(src, dst, acodec, vcodec);
      !NeedsHvc1Tag(vcodec) ==>
        forall k :: 0 <= k < |argv| && k != 3 && k != |argv| - 1 ==> argv[k] != "-tag:v"
  {
    var plan := MakePlan(src, dst, acodec, vcodec);
    RenderLayout(plan);
    var argv := Render(plan);
    if !plan.tagHvc1 {
      forall k | 0 <= k < |argv| && k != 3 && k != |argv| - 1 ensures argv[k] != "-tag:v" {
        if k < 6 {
          assert argv[k] == argv[..6][k];
        } else if k < 8 {
          assert argv[k] == argv[6..8][k - 6];
        } else if k < 10 {
          assert argv[k] == argv[8..10][k - 8];
        } else {
          assert argv[k] == argv[|argv| - 4..][k - 10];
        }
      }
    }
  }
}
