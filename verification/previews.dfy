/**
 * `generate_preview`: the same dispatch as the thumbnails, with a HEIF tool
 * that is not reaped after a kill, a video tool that writes the target
 * directly, and `stringify!(PREVIEW_TARGET_SIZE)` as the size argument.
 */
module Previews {
  import opened Wrappers
  import opened Text
  import opened Paths
  import opened Derivatives
  import Mime
  import Thumbnails

  const PREVIEW_TARGET_SIZE: nat := 500

  /** `stringify!(PREVIEW_TARGET_SIZE)`: the constant's name as text, not its value. */
  const SIZE_ARG: string := "PREVIEW_TARGET_SIZE"

  /** The size the preview tools are given is not a number, unlike the thumbnail tools' `500`. */
  lemma SizeArgumentNotNumeric()
    ensures !AllDigits(SIZE_ARG)
    ensures SIZE_ARG != Thumbnails.SIZE_ARG
    ensures Thumbnails.SIZE_ARG != [] && AllDigits(Thumbnails.SIZE_ARG)
  {
    assert !IsDigit(SIZE_ARG[0]);
    assert SIZE_ARG[0] != Thumbnails.SIZE_ARG[0];
  }

  /**
   * The `heif-previewer` call: the size option, then the load path and the save path as
   * positional arguments, in that order; the tool writes nowhere else.
   */
  function HeicCommand(savePath: string): (c: Command)
    ensures c.program == "heif-previewer"
    ensures HasOption(c, "-s", Lit(SIZE_ARG))
    ensures |c.args| >= 2 && c.args[|c.args| - 2] == LoadPath && c.args[|c.args| - 1] == OutPath(savePath)
    ensures WritesOnly(c, savePath)
  {
    var c := Command("heif-previewer", [Lit("-s"), Lit(SIZE_ARG), LoadPath, OutPath(savePath)]);
    assert c.args[0] == Lit("-s") && c.args[1] == Lit(SIZE_ARG);
    c
  }

  /**
   * `generate_heic_preview`: an exit status is reported as its success flag, a
   * timeout as false, and a wait error as an error after a kill (no reap).
   */
  function HeicPreview(run: ToolRun): (r: Result<bool, ToolError>)
    ensures r.Ok? <==> run.spawns && !run.wait.WaitFailed?
    ensures r == Ok(true) <==> run.spawns && run.wait == Exited(true)
    ensures run.spawns && run.wait.WaitFailed? && run.kills ==> r == Err(WaitError)
  {
    if !run.spawns then Err(SpawnFailed)
    else
      match run.wait
      case Exited(success) => Ok(success)
      case TimedOut => Ok(false)
      case WaitFailed => if run.kills then Err(WaitError) else Err(KillFailed)
  }

  /** The preview HEIF path never waits for the killed tool, so reaping plays no part. */
  lemma HeicReapIrrelevant(run: ToolRun, a: bool, b: bool)
    ensures HeicPreview(run.(reaps := a)) == HeicPreview(run.(reaps := b))
  {
  }

  /** Without the reap, the preview HEIF tool reports exactly what the thumbnail one does. */
  lemma HeicAgreesWithThumbnail(run: ToolRun)
    requires run.reaps
    ensures HeicPreview(run) == Thumbnails.HeicThumbnail(run)
  {
  }

  /**
   * The `ffmpegthumbnailer` call for a preview: input the load path, output
   * the save path itself and nothing else, with the size text as written.
   */
  function VideoCommand(savePath: string): (c: Command)
    ensures c.program == "ffmpegthumbnailer"
    ensures HasOption(c, "-i", LoadPath) && HasOption(c, "-o", OutPath(savePath))
    ensures HasOption(c, "-s", Lit(SIZE_ARG))
    ensures WritesOnly(c, savePath)
  {
    var c := Command("ffmpegthumbnailer", [Lit("-i"), LoadPath, Lit("-o"), OutPath(savePath), Lit("-s"), Lit(SIZE_ARG)]);
    assert c.args[0] == Lit("-i") && c.args[1] == LoadPath;
    assert c.args[2] == Lit("-o") && c.args[3] == OutPath(savePath);
    assert c.args[4] == Lit("-s") && c.args[5] == Lit(SIZE_ARG);
    c
  }

  /**
   * `generate_video_frame` for previews: the tool writes the target itself; a
   * timeout is an error, a wait error is an error after a kill, and any exit
   * status counts as success.
   */
  function VideoPreview(run: ToolRun): (r: Result<(), ToolError>)
    ensures r.Ok? <==> run.spawns && run.wait.Exited?
    ensures run.spawns && run.wait == TimedOut ==> r == Err(NoExitStatus)
  {
    if !run.spawns then Err(SpawnFailed)
    else
      match run.wait
      case Exited(_) => Ok(())
      case TimedOut => Err(NoExitStatus)
      case WaitFailed => if run.kills then Err(WaitError) else Err(KillFailed)
  }

  /** `generate_preview`: the route, then the branch's outcome reduced to a boolean. */
  function GeneratePreview(table: Mime.Table, load: MediaPath, savePath: string, w: World): (g: Generation)
    ensures g.result.Panic? <==>
      (RouteFor(table, load).Panic?
       || (RouteFor(table, load) == Done(InProcess) && w.decodes
           && EncoderFor(savePath) == Some(Jpeg(JPEG_QUALITY)) && !w.creates))
    ensures RouteFor(table, load).Panic? ==> g.command.None? && g.render.None?
    ensures RouteFor(table, load) == Done(VideoFrame) ==>
      (g.render.None? && g.command == Some(VideoCommand(savePath))
       && g.result == Done(w.tool.spawns && w.tool.wait.Exited?))
    ensures RouteFor(table, load) == Done(HeifTool) ==>
      (g.render.None? && g.command == Some(HeicCommand(savePath))
       && g.result == Done(w.tool.spawns && w.tool.wait == Exited(true)))
    ensures RouteFor(table, load) == Done(InProcess) ==> g == Rendered(table, load, savePath, w)
  {
    match RouteFor(table, load)
    case Panic => Generation(None, None, Panic)
    case Done(VideoFrame) => Generation(Some(VideoCommand(savePath)), None, Done(VideoPreview(w.tool).Ok?))
    case Done(HeifTool) =>
      var result := match HeicPreview(w.tool)
        case Ok(b) => b
        case Err(_) => false;
      Generation(Some(HeicCommand(savePath)), None, Done(result))
    case Done(InProcess) => Rendered(table, load, savePath, w)
  }

  /** Outside the video route both generators return the same result and write the same image. */
  lemma SameOutsideVideo(table: Mime.Table, load: MediaPath, savePath: string, w: World)
    requires RouteFor(table, load) != Done(VideoFrame)
    ensures GeneratePreview(table, load, savePath, w).result == Thumbnails.GenerateThumbnail(table, load, savePath, w).result
    ensures GeneratePreview(table, load, savePath, w).render == Thumbnails.GenerateThumbnail(table, load, savePath, w).render
  {
  }

  /**
   * On the video route a wait error is a success for the thumbnail and a
   * failure for the preview, and a non-zero exit a success for the preview
   * whatever happens to the thumbnail's frame.
   */
  lemma VideoOutcomesDiffer(table: Mime.Table, load: MediaPath, savePath: string, w: World)
    requires RouteFor(table, load) == Done(VideoFrame) && '.' in savePath
    ensures w.tool == ToolRun(true, WaitFailed, true, true) ==>
      Thumbnails.GenerateThumbnail(table, load, savePath, w).result == Done(true)
      && GeneratePreview(table, load, savePath, w).result == Done(false)
    ensures w.tool == ToolRun(true, Exited(false), true, true) && !w.frameDecodes ==>
      Thumbnails.GenerateThumbnail(table, load, savePath, w).result == Done(false)
      && GeneratePreview(table, load, savePath, w).result == Done(true)
  {
  }
}
