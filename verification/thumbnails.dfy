/**
 * `generate_thumbnail`: the HEIF tool, the video frame extracted through an
 * intermediate JPEG, and the in-process path shared with the previews.
 */
module Thumbnails {
  import opened Wrappers
  import opened Text
  import opened Paths
  import opened Derivatives
  import Mime

  const THUMBNAIL_TARGET_SIZE: nat := 500

  /** `THUMBNAIL_TARGET_SIZE.to_string()`. */
  const SIZE_ARG: string := "500"

  /** Both tools are told the number 500. */
  lemma SizeArgument()
    ensures AllDigits(SIZE_ARG) && DecimalValue(SIZE_ARG) == THUMBNAIL_TARGET_SIZE
  {
    assert SIZE_ARG == "5" + "00";
    DecimalConcat("5", "00");
    assert DecimalValue("5") == 5 by {
      assert "5"[..0] == "";
    }
    assert DecimalValue("00") == 0 by {
      assert "00"[..1] == "0";
      assert "0"[..0] == "";
    }
  }

  /**
   * The `heif-thumbnailer` call: the size option, then the load path and the save path as
   * positional arguments, in that order; the tool writes nowhere else.
   */
  function HeicCommand(savePath: string): (c: Command)
    ensures c.program == "heif-thumbnailer"
    ensures HasOption(c, "-s", Lit(SIZE_ARG))
    ensures |c.args| >= 2 && c.args[|c.args| - 2] == LoadPath && c.args[|c.args| - 1] == OutPath(savePath)
    ensures WritesOnly(c, savePath)
  {
    var c := Command("heif-thumbnailer", [Lit("-s"), Lit(SIZE_ARG), LoadPath, OutPath(savePath)]);
    assert c.args[0] == Lit("-s") && c.args[1] == Lit(SIZE_ARG);
    c
  }

  /**
   * `generate_heic_thumbnail`: an exit status is reported as its success flag,
   * a timeout as false without killing the tool, and a wait error as an error
   * after killing and reaping it.
   */
  function HeicThumbnail(run: ToolRun): (r: Result<bool, ToolError>)
    ensures r.Ok? <==> run.spawns && !run.wait.WaitFailed?
    ensures r == Ok(true) <==> run.spawns && run.wait == Exited(true)
    ensures run.spawns && run.wait.WaitFailed? && run.kills && run.reaps ==> r == Err(WaitError)
  {
    if !run.spawns then Err(SpawnFailed)
    else
      match run.wait
      case Exited(success) => Ok(success)
      case TimedOut => Ok(false)
      case WaitFailed =>
        if !run.kills then Err(KillFailed)
        else if !run.reaps then Err(ReapFailed)
        else Err(WaitError)
  }

  /** The intermediate frame: the save path with the text after its last '.' replaced by `jpg`. */
  function IntermediatePath(savePath: string): (r: Result<string, ToolError>)
    ensures r.Err? <==> '.' !in savePath
    ensures r.Err? ==> r.error == NoDotInPath
    ensures r.Ok? ==> (EndsWith(r.value, ".jpg") && |r.value| - 4 < |savePath|
                       && r.value[..|r.value| - 4] == savePath[..|r.value| - 4]
                       && savePath[|r.value| - 4] == '.' && '.' !in savePath[|r.value| - 3..])
  {
    match RsplitOnce(savePath, '.')
    case None => Err(NoDotInPath)
    case Some((before, after)) =>
      assert savePath[..|before|] == before;
      assert savePath[|before| + 1..] == after;
      Ok(before + ".jpg")
  }

  /** A name with a dot-free extension gets its extension replaced by `jpg`. */
  lemma IntermediateOf(before: string, after: string)
    requires '.' !in after
    ensures IntermediatePath(before + "." + after) == Ok(before + ".jpg")
  {
    var s := before + "." + after;
    assert s[|before| + 1..] == after;
    assert s[..|before|] == before;
    LastIndexOfAt(s, '.', |before|);
  }

  /** Deriving the intermediate of an intermediate changes nothing. */
  lemma IntermediateIdempotent(savePath: string)
    requires '.' in savePath
    ensures IntermediatePath(IntermediatePath(savePath).value) == IntermediatePath(savePath)
  {
    var m := IntermediatePath(savePath).value;
    var before := m[..|m| - 4];
    assert m == before + "." + "jpg";
    IntermediateOf(before, "jpg");
  }

  /** A `.jpg` target is its own intermediate: the tool writes the target, which is then deleted and rewritten. */
  lemma JpgTargetIsIntermediate(before: string)
    ensures IntermediatePath(before + ".jpg") == Ok(before + ".jpg")
  {
    assert before + ".jpg" == before + "." + "jpg";
    IntermediateOf(before, "jpg");
  }

  /**
   * The `ffmpegthumbnailer` call: input the load path, output the intermediate
   * frame file and nothing else, at the thumbnail size.
   */
  function VideoCommand(intermediate: string): (c: Command)
    ensures c.program == "ffmpegthumbnailer"
    ensures HasOption(c, "-i", LoadPath) && HasOption(c, "-o", OutPath(intermediate))
    ensures HasOption(c, "-s", Lit(SIZE_ARG))
    ensures WritesOnly(c, intermediate)
  {
    var c := Command("ffmpegthumbnailer", [Lit("-i"), LoadPath, Lit("-o"), OutPath(intermediate), Lit("-s"), Lit(SIZE_ARG)]);
    assert c.args[0] == Lit("-i") && c.args[1] == LoadPath;
    assert c.args[2] == Lit("-o") && c.args[3] == OutPath(intermediate);
    assert c.args[4] == Lit("-s") && c.args[5] == Lit(SIZE_ARG);
    c
  }

  /**
   * `generate_video_frame`: a timeout is an error (the tool is not killed); a
   * wait error kills and reaps the tool and then counts as success; any exit
   * status, zero or not, goes on to decode, delete and re-save the frame.
   */
  function VideoThumbnail(savePath: string, w: World): (r: Result<(), ToolError>)
    ensures r.Ok? <==>
      ('.' in savePath && w.tool.spawns
       && ((w.tool.wait.Exited? && w.frameDecodes && w.frameRemoved && w.saves)
           || (w.tool.wait.WaitFailed? && w.tool.kills && w.tool.reaps)))
    ensures '.' !in savePath ==> r == Err(NoDotInPath)
    ensures '.' in savePath && w.tool.spawns && w.tool.wait == TimedOut ==> r == Err(NoExitStatus)
  {
    match IntermediatePath(savePath)
    case Err(e) => Err(e)
    case Ok(_) =>
      if !w.tool.spawns then Err(SpawnFailed)
      else
        match w.tool.wait
        case TimedOut => Err(NoExitStatus)
        case WaitFailed =>
          if !w.tool.kills then Err(KillFailed)
          else if !w.tool.reaps then Err(ReapFailed)
          else Ok(())
        case Exited(_) =>
          if !w.frameDecodes then Err(FrameUnreadable)
          else if !w.frameRemoved then Err(FrameNotRemoved)
          else if !w.saves then Err(FrameNotSaved)
          else Ok(())
  }

  /** The frame path does not look at the tool's exit status. */
  lemma ExitStatusIgnored(savePath: string, w: World, a: bool, b: bool)
    ensures VideoThumbnail(savePath, w.(tool := w.tool.(wait := Exited(a))))
         == VideoThumbnail(savePath, w.(tool := w.tool.(wait := Exited(b))))
  {
  }

  /** `generate_thumbnail`: the route, then the branch's outcome reduced to a boolean. */
  function GenerateThumbnail(table: Mime.Table, load: MediaPath, savePath: string, w: World): (g: Generation)
    ensures g.result.Panic? <==>
      (RouteFor(table, load).Panic?
       || (RouteFor(table, load) == Done(InProcess) && w.decodes
           && EncoderFor(savePath) == Some(Jpeg(JPEG_QUALITY)) && !w.creates))
    ensures RouteFor(table, load).Panic? ==> g.command.None? && g.render.None?
    ensures RouteFor(table, load) == Done(VideoFrame) ==>
      (g.render.None? && g.result == Done(VideoThumbnail(savePath, w).Ok?)
       && g.command == (if '.' in savePath then Some(VideoCommand(IntermediatePath(savePath).value)) else None))
    ensures RouteFor(table, load) == Done(HeifTool) ==>
      (g.render.None? && g.command == Some(HeicCommand(savePath))
       && g.result == Done(w.tool.spawns && w.tool.wait == Exited(true)))
    ensures RouteFor(table, load) == Done(InProcess) ==> g == Rendered(table, load, savePath, w)
  {
    match RouteFor(table, load)
    case Panic => Generation(None, None, Panic)
    case Done(VideoFrame) =>
      var command := match IntermediatePath(savePath)
        case Ok(m) => Some(VideoCommand(m))
        case Err(_) => None;
      Generation(command, None, Done(VideoThumbnail(savePath, w).Ok?))
    case Done(HeifTool) =>
      var result := match HeicThumbnail(w.tool)
        case Ok(b) => b
        case Err(_) => false;
      Generation(Some(HeicCommand(savePath)), None, Done(result))
    case Done(InProcess) => Rendered(table, load, savePath, w)
  }
}
