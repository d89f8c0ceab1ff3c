/**
 * What the thumbnail and preview generators share: the route a source file
 * takes, the outcome of an external tool run, the EXIF orientation correction
 * and the encoder chosen from the save path. Pixels are not modelled; what the
 * environment does (starting a tool, waiting for it, decoding, writing) is an
 * input, a `World`.
 */
module Derivatives {
  import opened Wrappers
  import opened Text
  import opened Paths
  import Mime
  import Exif

  /** How `wait_timeout` came back: an exit status, no status before the deadline, or an error. */
  datatype Wait = Exited(success: bool) | TimedOut | WaitFailed

  /**
   * What the environment does with one external tool: whether it starts, how
   * the bounded wait ends, and whether `kill` and the reaping `wait` succeed.
   */
  datatype ToolRun = ToolRun(spawns: bool, wait: Wait, kills: bool, reaps: bool)

  datatype ToolError =
    | SpawnFailed | KillFailed | ReapFailed | WaitError | NoExitStatus
    | NoDotInPath | FrameUnreadable | FrameNotRemoved | FrameNotSaved

  /** A command-line argument: literal text, the load path as given, or an output path. */
  datatype Arg = Lit(text: string) | LoadPath | OutPath(path: string)

  datatype Command = Command(program: string, args: seq<Arg>)

  /** `flag` is immediately followed by `value` somewhere on the command line. */
  predicate HasOption(c: Command, flag: string, value: Arg) {
    exists k :: 0 <= k < |c.args| - 1 && c.args[k] == Lit(flag) && c.args[k + 1] == value
  }

  /** Every output path on the command line is `path`. */
  predicate WritesOnly(c: Command, path: string) {
    forall k :: 0 <= k < |c.args| && c.args[k].OutPath? ==> c.args[k].path == path
  }

  /**
   * The environment of one generation call. Only one tool runs per call, so
   * one `ToolRun` serves both external tools. `exif` is None when the file
   * cannot be opened or holds no readable EXIF container.
   */
  datatype World = World(
    tool: ToolRun,
    exif: Option<seq<Exif.Field>>,
    decodes: bool,
    frameDecodes: bool,
    frameRemoved: bool,
    creates: bool,
    encodes: bool,
    saves: bool)

  /** Clockwise turns, as `rotate90`, `rotate180` and `rotate270` of the image crate. */
  datatype Rotation = Unrotated | Rotate90 | Rotate180 | Rotate270

  datatype Encoder = Jpeg(quality: nat) | Inferred

  /** The image a generator writes: the turn it applied and the encoder it used. */
  datatype Render = Render(rotation: Rotation, encoder: Encoder)

  /**
   * One generation call: the external command it tries to start, the image it
   * tries to write in-process, and the boolean it returns (or a panic).
   */
  datatype Generation = Generation(command: Option<Command>, render: Option<Render>, result: Outcome<bool>)

  datatype Route = VideoFrame | HeifTool | InProcess

  const VIDEO_TYPE: string := "video"
  const IMAGE_TYPE: string := "image"
  const JPEG_QUALITY: nat := 70

  predicate IsHeif(ext: string) {
    ext == "heic" || ext == "heif"
  }

  /**
   * The dispatch of `generate_thumbnail` and `generate_preview`: the extension
   * is required (`unwrap`) and lower-cased; a video MIME type wins, then the
   * HEIF extensions, then the in-process decoder. The three clauses below
   * only spell out that order; `RouteIgnoresCase` states what a caller cannot
   * read off the body: two extensions that differ only in ASCII case take the
   * same route, whatever the MIME table holds for each spelling.
   */
  function RouteFor(table: Mime.Table, load: MediaPath): (r: Outcome<Route>)
    ensures r.Panic? <==> Extension(load).None?
    ensures r == Done(VideoFrame) <==>
      Extension(load).Some? && Mime.TopLevelType(table, Extension(load).value) == VIDEO_TYPE
    ensures r == Done(HeifTool) <==>
      (Extension(load).Some? && Mime.TopLevelType(table, Extension(load).value) != VIDEO_TYPE
       && IsHeif(AsciiLower(Extension(load).value)))
  {
    match Extension(load)
    case None => Panic
    case Some(raw) =>
      var ext := AsciiLower(raw);
      AsciiLowerIdempotent(raw);
      if Mime.TopLevelType(table, ext) == VIDEO_TYPE then Done(VideoFrame)
      else if IsHeif(ext) then Done(HeifTool)
      else Done(InProcess)
  }

  /** The route depends on the extension only up to ASCII case. */
  lemma RouteIgnoresCase(table: Mime.Table, a: MediaPath, b: MediaPath)
    requires Extension(a).Some? && Extension(b).Some?
    requires AsciiLower(Extension(a).value) == AsciiLower(Extension(b).value)
    ensures RouteFor(table, a) == RouteFor(table, b)
  {
  }

  /**
   * `read_exif_orientation`: only for an extension the table calls an image,
   * the first value of the last primary Orientation entry in reader order.
   */
  function ReadOrientation(table: Mime.Table, load: MediaPath, exif: Option<seq<Exif.Field>>): (r: Option<nat>)
    ensures Extension(load).None? ==> r.None?
    ensures Extension(load).Some? && Mime.TopLevelType(table, Extension(load).value) != IMAGE_TYPE ==> r.None?
    ensures exif.None? ==> r.None?
    ensures Extension(load).Some? && Mime.TopLevelType(table, Extension(load).value) == IMAGE_TYPE && exif.Some? ==>
      r == Exif.Orientation(exif.value)
    ensures r.Some? ==> exists k :: 0 <= k < |exif.value| && Exif.LastOrientationAt(exif.value, k)
                                    && exif.value[k].value.Unsigned?
                                    && exif.value[k].value.values != [] && exif.value[k].value.values[0] == r.value
  {
    match Extension(load)
    case None => None
    case Some(ext) =>
      if Mime.TopLevelType(table, ext) != IMAGE_TYPE then None
      else
        match exif
        case None => None
        case Some(fields) => Exif.Orientation(fields)
  }

  /**
   * For an image with a primary Orientation entry, the last such entry is the
   * one read, whatever earlier duplicates say.
   */
  lemma ReadsLast(table: Mime.Table, load: MediaPath, fields: seq<Exif.Field>, k: nat)
    requires Extension(load).Some? && Mime.TopLevelType(table, Extension(load).value) == IMAGE_TYPE
    requires Exif.LastOrientationAt(fields, k)
    ensures ReadOrientation(table, load, Some(fields)) == Exif.FirstUint(fields[k].value)
  {
    Exif.OrientationOfLast(fields, k);
  }

  function Degrees(r: Rotation): nat {
    match r
    case Unrotated => 0
    case Rotate90 => 90
    case Rotate180 => 180
    case Rotate270 => 270
  }

  /**
   * What an Orientation value asks a viewer to do (Exif 2.3, section 4.6.4 A,
   * tag 274): mirror the stored image left to right or not, then turn it
   * clockwise by the given degrees. Values outside 1..8 are undefined.
   */
  datatype Correction = Correction(mirrored: bool, clockwise: nat)

  function OrientationCorrection(o: nat): Option<Correction> {
    match o
    case 1 => Some(Correction(false, 0))
    case 2 => Some(Correction(true, 0))
    case 3 => Some(Correction(false, 180))
    case 4 => Some(Correction(true, 180))
    case 5 => Some(Correction(true, 270))
    case 6 => Some(Correction(false, 90))
    case 7 => Some(Correction(true, 90))
    case 8 => Some(Correction(false, 270))
    case _ => None
  }

  predicate PureTurn(o: nat) {
    OrientationCorrection(o).Some? && !OrientationCorrection(o).value.mirrored
  }

  /**
   * The rotation `resize_and_save_image` applies: the orientations that only
   * turn the image are corrected; mirrored, undefined or absent ones are not.
   */
  function RotationFor(o: Option<nat>): (r: Rotation)
    ensures o.Some? && PureTurn(o.value) ==> Degrees(r) == OrientationCorrection(o.value).value.clockwise
    ensures o.None? || !PureTurn(o.value) ==> r == Unrotated
  {
    match o
    case Some(3) => Rotate180
    case Some(6) => Rotate90
    case Some(8) => Rotate270
    case _ => Unrotated
  }

  /**
   * The encoder chosen from the text after the last '.' of the whole save
   * path: none without a dot, JPEG at quality 70 for exactly `jpg` or `jpeg`,
   * otherwise the format the image library infers.
   */
  function EncoderFor(savePath: string): (r: Option<Encoder>)
    ensures r.None? <==> '.' !in savePath
    ensures r.Some? && r.value.Jpeg? ==> r.value.quality == JPEG_QUALITY
  {
    match RsplitOnce(savePath, '.')
    case None => None
    case Some((_, after)) => if after == "jpg" || after == "jpeg" then Some(Jpeg(JPEG_QUALITY)) else Some(Inferred)
  }

  /** The encoder is decided by the exact, case-sensitive text after the last dot. */
  lemma EncoderForName(before: string, after: string)
    requires '.' !in after
    ensures EncoderFor(before + "." + after)
         == Some(if after == "jpg" || after == "jpeg" then Jpeg(JPEG_QUALITY) else Inferred)
  {
    var s := before + "." + after;
    assert s[|before| + 1..] == after;
    assert s[..|before|] == before;
    LastIndexOfAt(s, '.', |before|);
  }

  /**
   * The in-process branch: `read_exif_orientation`, `image::open` and
   * `resize_and_save_image`. A decode failure gives false; a JPEG target whose
   * file cannot be created panics (`File::create(..).unwrap()`).
   */
  function Rendered(table: Mime.Table, load: MediaPath, savePath: string, w: World): (g: Generation)
    ensures g.command.None?
    ensures g.render.Some? <==> w.decodes && '.' in savePath
    ensures g.render.Some? ==>
      g.render.value == Render(RotationFor(ReadOrientation(table, load, w.exif)), EncoderFor(savePath).value)
    ensures g.result.Panic? <==> w.decodes && EncoderFor(savePath) == Some(Jpeg(JPEG_QUALITY)) && !w.creates
    ensures g.result == Done(true) <==>
      (w.decodes && ((EncoderFor(savePath) == Some(Jpeg(JPEG_QUALITY)) && w.creates && w.encodes)
                     || (EncoderFor(savePath) == Some(Inferred) && w.saves)))
  {
    if !w.decodes then Generation(None, None, Done(false))
    else
      match EncoderFor(savePath)
      case None => Generation(None, None, Done(false))
      case Some(enc) =>
        var render := Render(RotationFor(ReadOrientation(table, load, w.exif)), enc);
        match enc
        case Jpeg(_) => Generation(None, Some(render), if w.creates then Done(w.encodes) else Panic)
        case Inferred => Generation(None, Some(render), Done(w.saves))
  }
}
