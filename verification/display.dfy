/**
 * Startup (`setup_dpy`): the checks the daemon makes before capturing, over
 * the answers the X server gives. The display must open, the server must
 * offer the damage extension, and the root window must have a non-zero width
 * and height. Damage tracking on the root is requested as soon as the
 * extension is known, before the geometry check. On success the context
 * holds the root, the damage event base and the bitmap sink numbered from 0.
 */
module Display {
  import opened Optional
  import opened Bytes
  import opened Bmp

  /** What the server answers during startup. */
  datatype Probe = Probe(
    connected: bool,          // XOpenDisplay returned a connection
    root: nat,               // the default root window
    damageBase: Option<int>, // the damage extension's event base, if present
    rootWidth: int,          // the root window's attributes
    rootHeight: int)

  datatype SetupError = DisplayUnavailable | CapabilityMissing | InvalidGeometry

  /** What the event loop needs to recognise damage on the root. */
  datatype Session = Session(root: nat, damageBase: int)

  /**
   * The installed writer and its private state: the bitmap sink and the files
   * it has written, or the framed-stream sink and the bytes it has sent.
   */
  datatype Writer =
    | BitmapWriter(sink: BmpSink, files: seq<File>)
    | StreamWriter(sent: seq<byte>)

  datatype Context = Context(session: Session, writer: Writer)

  /** Startup either yields the context the event loop runs with or names the check that failed. */
  datatype SetupResult = Ok(value: Context) | Err(error: SetupError)

  /**
   * The result of startup, and whether damage tracking on the root was
   * requested from the server on the way.
   */
  datatype SetupOutcome = SetupOutcome(result: SetupResult, damageRequested: bool)

  /** The three startup checks pass. */
  predicate Usable(p: Probe)
  {
    p.connected && p.damageBase.Some? && p.rootWidth != 0 && p.rootHeight != 0
  }

  /** `setup_dpy`: the checks in the order the code makes them. */
  function Setup(p: Probe): (o: SetupOutcome)
    ensures o.damageRequested <==> p.connected && p.damageBase.Some?
    ensures o.result.Ok? ==> o.result.value.writer == BitmapWriter(InitialSink, [])
  {
    if !p.connected then SetupOutcome(Err(DisplayUnavailable), false)
    else if p.damageBase.None? then SetupOutcome(Err(CapabilityMissing), false)
    else if p.rootWidth == 0 || p.rootHeight == 0 then SetupOutcome(Err(InvalidGeometry), true)
    else SetupOutcome(Ok(Context(Session(p.root, p.damageBase.value), BitmapWriter(InitialSink, []))), true)
  }

  /**
   * Startup succeeds exactly when all three checks pass, and then the session
   * is the server's root window and damage event base.
   */
  lemma SetupSucceedsIff(p: Probe)
    ensures Setup(p).result.Ok? <==> Usable(p)
    ensures Usable(p) ==> Setup(p).result.value.session == Session(p.root, p.damageBase.value)
  {
  }

  /**
   * A failed startup names the first check that failed: the display before
   * the extension, the extension before the geometry.
   */
  lemma SetupFirstFailure(p: Probe)
    ensures !p.connected ==> Setup(p).result == Err(DisplayUnavailable)
    ensures p.connected && p.damageBase.None? ==> Setup(p).result == Err(CapabilityMissing)
    ensures p.connected && p.damageBase.Some? && !Usable(p)
            ==> Setup(p).result == Err(InvalidGeometry)
  {
  }

  /** A rejected root geometry still leaves damage tracking requested on the root. */
  lemma GeometryFailureAfterTracking(p: Probe)
    requires p.connected && p.damageBase.Some? && (p.rootWidth == 0 || p.rootHeight == 0)
    ensures Setup(p).result.Err? && Setup(p).damageRequested
  {
  }
}
