/** The script's entry point: the selected path is checked (something was chosen,
    and its name ends in ".mkv" in any case), then the destination is derived and
    the ffmpeg command built from the probed codec names. */
module Entry {
  import opened Common
  import opened Text
  import opened OutputPath
  import opened Command

  /** The two ways the script refuses a selection before doing any work. */
  datatype Rejection =
    | NoFileSelected  // the dialog was cancelled: "No file selected."
    | NotAnMkv        // the name does not end in .mkv: "Please pick an MKV."

  /** The name ends in ".mkv" in some mixture of cases, stated character by character. */
  predicate HasMkvSuffix(path: string)
  {
    |path| >= 4 && SpellsIgnoringCase(path[|path| - 4..], ".mkv")
  }

  /** The `__main__` checks, in the script's order: emptiness first, then the suffix. */
  function CheckSelection(selection: string): (r: Result<string, Rejection>)
    ensures r == Err(NoFileSelected) <==> selection == ""
    ensures r == Err(NotAnMkv) <==> selection != "" && !HasMkvSuffix(selection)
    ensures r.Ok? <==> selection != "" && HasMkvSuffix(selection)
    ensures r.Ok? ==> r.value == selection
  {
    LowerEndsWithIffSpells(selection, ".mkv");
    if selection == "" then Err(NoFileSelected)
    else if !EndsWith(Lower(selection), ".mkv") then Err(NotAnMkv)
    else Ok(selection)
  }

  /** For an accepted name the derived destination drops the ".mkv" (in whatever
      case) and appends ".mp4" when the basename has something before that suffix
      other than dots; a basename that is only dots and "mkv" (".mkv", "..MKV") has
      no extension in the splitext sense, so ".mp4" is appended to the whole name. */
  lemma MkvDestination(path: string)
    requires HasMkvSuffix(path)
    ensures HasExtension(path) ==> Mp4Path(path) == path[..|path| - 4] + ".mp4"
    ensures !HasExtension(path) ==> Mp4Path(path) == path + ".mp4"
  {
    var n := |path|;
    assert path[n - 4] == path[n - 4..][0];
    assert path[n - 4] == '.';
    forall k | n - 4 < k < n ensures path[k] != '.' && path[k] != '/' {
      assert path[k] == path[n - 4..][k - (n - 4)];
    }
    RFindIsLast(path, '.', n - 4);
    Mp4PathShape(path);
    SplitExtSpec(path);
  }

  /** The destination never coincides with the accepted source, so `ffmpeg -y`
      cannot overwrite its own input. */
  lemma DestinationDiffersFromSource(path: string)
    requires HasMkvSuffix(path)
    ensures Mp4Path(path) != path
  {
    MkvDestination(path);
    var out := Mp4Path(path);
    var n := |path|;
    assert out[|out| - 2] == 'p';
    assert path[n - 2] == path[n - 4..][2];
    assert path[n - 2] in Spellings('k');
  }

  /** The script up to the launch of ffmpeg: the selection check, the destination
      and the command for the probed audio and video codec names. */
  function PrepareRemux(selection: string, acodec: string, vcodec: string): (r: Result<seq<string>, Rejection>)
    ensures r.Err? <==> CheckSelection(selection).Err?
    ensures r.Err? ==> r.error == CheckSelection(selection).error
    ensures r.Ok? ==> r.value == BuildCommand(selection, Mp4Path(selection), acodec, vcodec)
    ensures r.Ok? ==> r.value[3] == selection
    ensures r.Ok? ==> r.value[|r.value| - 1] == Mp4Path(selection) != selection
    ensures r.Ok? ==> Recover(r.value) == Some(Plan(selection, Mp4Path(selection), ChooseAudio(acodec), NeedsHvc1Tag(vcodec)))
  {
    match CheckSelection(selection)
    case Err(e) => Err(e)
    case Ok(src) =>
      DestinationDiffersFromSource(src);
      var plan := MakePlan(src, Mp4Path(src), acodec, vcodec);
      RecoverRender(plan, Render(plan));
      Ok(BuildCommand(src, Mp4Path(src), acodec, vcodec))
  }
}
