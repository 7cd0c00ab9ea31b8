/**
 * The per-screen capture state (`g_screens` and `initializeScreen`) and the
 * two `getScreenPixels` entry points that compose initialisation, the frame
 * grab, the buffer fill and the zone averages into the LED colour vector.
 * The Direct3D calls are outcomes passed in: which step failed, or the
 * surface that was mapped.
 */
module CaptureSession {
  import opened Colors
  import opened Layout
  import opened Zones
  import opened BorderFill
  import opened ZoneAverage
  import opened TemporalDiff

  /** One `ScreenDevice` without its Direct3D handles. */
  datatype ScreenDevice = ScreenDevice(width: nat, height: nat, reducedWidth: nat, reducedHeight: nat,
                                       pixelBuffer: seq<int>, initialized: bool)

  /** A default-constructed `ScreenDevice`, as `resize` appends them. */
  const Unset := ScreenDevice(0, 0, 0, 0, [], false)

  /**
   * How the Direct3D part of `initializeScreen` went: a failure before the
   * desktop texture was described (device, adapter, output, duplication,
   * first frame), a failure creating the staging texture once the size of
   * the `width` x `height` desktop is known, or success.
   */
  datatype InitOutcome = FailsEarly | FailsAtStaging(width: nat, height: nat) | Succeeds(width: nat, height: nat)

  /** `static_cast<UINT>(size / reduction)` for a positive reduction, without float rounding. */
  function Reduced(size: nat, reduction: real): (r: nat)
    requires reduction > 0.0
    ensures size == 0 ==> r == 0
  {
    ReducedNonNegative(size, reduction);
    (size as real / reduction).Floor
  }

  lemma ReducedNonNegative(size: nat, reduction: real)
    requires reduction > 0.0
    ensures (size as real / reduction).Floor >= 0
  {
    assert size as real / reduction >= 0.0;
  }

  /** Every `g_screens` entry the capture relies on: a reduced axis is empty when its native axis is, and an initialised screen's buffer has one cell per reduced pixel. */
  predicate DeviceValid(d: ScreenDevice)
  {
    && (d.reducedWidth > 0 ==> d.width > 0)
    && (d.reducedHeight > 0 ==> d.height > 0)
    && (d.initialized ==> |d.pixelBuffer| == d.reducedWidth * d.reducedHeight)
  }

  predicate RegistryValid(screens: seq<ScreenDevice>)
  {
    forall i | 0 <= i < |screens| :: DeviceValid(screens[i])
  }

  /** `g_screens.resize(screenId + 1)` when the id is past the end. */
  function Grow(screens: seq<ScreenDevice>, screenId: nat): (r: seq<ScreenDevice>)
    ensures |r| == if screenId < |screens| then |screens| else screenId + 1
    ensures forall i | 0 <= i < |screens| :: r[i] == screens[i]
    ensures forall i | |screens| <= i < |r| :: r[i] == Unset
  {
    if screenId < |screens| then screens else screens + seq(screenId + 1 - |screens|, _ => Unset)
  }

  /** What `initializeScreen(screenId, reduction)` leaves in `g_screens`, and what it returns. */
  function InitStep(screens: seq<ScreenDevice>, screenId: int, reduction: real, outcome: InitOutcome): (seq<ScreenDevice>, bool)
  {
    if screenId < 0 || reduction <= 0.0 then (screens, false)
    else
      var grown := Grow(screens, screenId);
      var d := grown[screenId];
      if d.initialized then (grown, true)
      else match outcome
        case FailsEarly => (grown, false)
        case FailsAtStaging(w, h) =>
          (grown[screenId := d.(width := w, height := h, reducedWidth := Reduced(w, reduction), reducedHeight := Reduced(h, reduction))], false)
        case Succeeds(w, h) =>
          var rw, rh := Reduced(w, reduction), Reduced(h, reduction);
          (grown[screenId := ScreenDevice(w, h, rw, rh, Resize(d.pixelBuffer, rw * rh), true)], true)
  }

  /**
   * Initialisation reports success exactly when the arguments are valid and
   * the screen was already initialised or the Direct3D setup succeeded; on
   * success that screen is initialised. Invalid arguments change nothing,
   * and for valid ones the vector reaches the id even when the setup fails.
   */
  lemma InitReportsReadiness(screens: seq<ScreenDevice>, screenId: int, reduction: real, outcome: InitOutcome)
    ensures var (after, ok) := InitStep(screens, screenId, reduction, outcome);
      ok <==> 0 <= screenId && reduction > 0.0 &&
              ((screenId < |screens| && screens[screenId].initialized) || outcome.Succeeds?)
    ensures var (after, ok) := InitStep(screens, screenId, reduction, outcome);
      ok ==> 0 <= screenId < |after| && after[screenId].initialized
    ensures screenId < 0 || reduction <= 0.0 ==> InitStep(screens, screenId, reduction, outcome).0 == screens
    ensures 0 <= screenId && reduction > 0.0 ==> screenId < |InitStep(screens, screenId, reduction, outcome).0|
  {
  }

  /** Initialisation touches no other screen; entries it appends are default ones. */
  lemma InitTouchesOnlyItsScreen(screens: seq<ScreenDevice>, screenId: int, reduction: real, outcome: InitOutcome, i: nat)
    requires i != screenId
    ensures var after := InitStep(screens, screenId, reduction, outcome).0;
      |after| >= |screens| && (i < |screens| ==> after[i] == screens[i]) && (|screens| <= i < |after| ==> after[i] == Unset)
  {
  }

  /** A second initialisation of a ready screen changes nothing and succeeds, whatever Direct3D would do. */
  lemma InitIdempotent(screens: seq<ScreenDevice>, screenId: int, reduction: real, first: InitOutcome, second: InitOutcome)
    requires InitStep(screens, screenId, reduction, first).1
    ensures var after := InitStep(screens, screenId, reduction, first).0;
      InitStep(after, screenId, reduction, second) == (after, true)
  {
  }

  /** Initialisation keeps every screen valid: a ready screen's buffer is sized to its reduced grid. */
  lemma InitPreservesValid(screens: seq<ScreenDevice>, screenId: int, reduction: real, outcome: InitOutcome)
    requires RegistryValid(screens)
    ensures RegistryValid(InitStep(screens, screenId, reduction, outcome).0)
  {
    if 0 <= screenId && reduction > 0.0 {
      var grown := Grow(screens, screenId);
      assert RegistryValid(grown) by {
        forall i | 0 <= i < |grown|
          ensures DeviceValid(grown[i])
        {
          if i < |screens| {
            assert DeviceValid(screens[i]);
          }
        }
      }
      var after := InitStep(screens, screenId, reduction, outcome).0;
      forall i | 0 <= i < |after|
        ensures DeviceValid(after[i])
      {
        if i != screenId {
          assert after[i] == grown[i];
        }
      }
    }
  }

  /** `DXGI_ERROR_ACCESS_LOST`, the one acquisition error after which the desk module starts over. */
  const AccessLost: int := 0x887a0026

  /** What a frame grab produced after initialisation: a failed step, or the mapped BGRA surface. */
  datatype Grab = AcquireFails(hr: int) | ConvertFails | MapFails | Mapped(data: seq<byte>, rowPitch: nat)

  /** The grid the capture fills once the screen is ready, None when initialisation failed. */
  function SessionGeometry(screens: seq<ScreenDevice>, screenId: int, reduction: real, init: InitOutcome, keep: nat): (r: Option<Geometry>)
  {
    var (after, ok) := InitStep(screens, screenId, reduction, init);
    if ok then
      InitReportsReadiness(screens, screenId, reduction, init);
      var d := after[screenId];
      Some(Geometry(d.width, d.height, d.reducedWidth, d.reducedHeight, keep))
    else None
  }

  /**
   * What the capture relies on from its arguments and from Direct3D: the
   * band fits the reduced grid (the unsigned bounds do not wrap) and the
   * mapped surface is as large as the screen's staging texture.
   */
  predicate GrabFits(screens: seq<ScreenDevice>, screenId: int, reduction: real, init: InitOutcome, keep: nat, grab: Grab)
  {
    match SessionGeometry(screens, screenId, reduction, init, keep)
    case None => true
    case Some(g) => g.BandFits() && (grab.Mapped? ==> FrameFits(Frame(grab.data, grab.rowPitch, g.width, g.height)))
  }

  /** The `g_screens` vector of one process. */
  class ScreenRegistry {
    var screens: seq<ScreenDevice>

    ghost predicate Valid()
      reads this
    {
      RegistryValid(screens)
    }

    constructor ()
      ensures screens == [] && Valid()
    {
      screens := [];
    }

    /** `initializeScreen`. */
    method InitializeScreen(screenId: int, reduction: real, outcome: InitOutcome) returns (ok: bool)
      requires Valid()
      modifies this
      ensures (screens, ok) == InitStep(old(screens), screenId, reduction, outcome)
      ensures Valid()
    {
      InitPreservesValid(screens, screenId, reduction, outcome);
      if screenId < 0 || reduction <= 0.0 {
        return false;
      }
      if screenId >= |screens| {
        screens := Grow(screens, screenId);
      }
      if screens[screenId].initialized {
        return true;
      }
      match outcome {
        case FailsEarly =>
          return false;
        case FailsAtStaging(w, h) =>
          screens := screens[screenId := screens[screenId].(width := w, height := h,
                       reducedWidth := Reduced(w, reduction), reducedHeight := Reduced(h, reduction))];
          return false;
        case Succeeds(w, h) =>
          var rw, rh := Reduced(w, reduction), Reduced(h, reduction);
          var d := screens[screenId];
          screens := screens[screenId := ScreenDevice(w, h, rw, rh, Resize(d.pixelBuffer, rw * rh), true)];
          return true;
      }
    }

    /**
     * The desk module's reaction to a failed `AcquireNextFrame`: on
     * `DXGI_ERROR_ACCESS_LOST` the screen is marked uninitialised so that
     * the next call sets it up again; any other error changes nothing.
     */
    method AcquireFailed(screenId: nat, hr: int)
      requires Valid() && screenId < |screens|
      modifies this
      ensures hr == AccessLost ==> screens == old(screens)[screenId := old(screens)[screenId].(initialized := false)]
      ensures hr != AccessLost ==> screens == old(screens)
      ensures Valid()
    {
      if hr == AccessLost {
        screens := screens[screenId := screens[screenId].(initialized := false)];
      }
    }

    /**
     * The capture of one frame once the screen is ready: fill the screen's
     * pixel buffer from the mapped surface (`deskFill` chooses the desk
     * module's band fill over the capture module's keep pass), then average
     * the zones into the colour vector.
     */
    method CaptureFrame(screenId: nat, ledX: nat, ledY: nat, g: Geometry, data: seq<byte>, rowPitch: nat, deskFill: bool)
      returns (colors: seq<int>)
      requires Valid() && screenId < |screens| && screens[screenId].initialized
      requires g == Geometry(screens[screenId].width, screens[screenId].height,
                             screens[screenId].reducedWidth, screens[screenId].reducedHeight, g.keep)
      requires g.BandFits() && FrameFits(Frame(data, rowPitch, g.width, g.height))
      modifies this
      ensures Valid() && |screens| == |old(screens)|
      ensures screens == old(screens)[screenId := old(screens)[screenId].(pixelBuffer := FilledBuffer(Frame(data, rowPitch, g.width, g.height), g))]
      ensures deskFill ==> colors == DeskColors(FilledBuffer(Frame(data, rowPitch, g.width, g.height), g), g, ledX, ledY)
      ensures !deskFill ==> colors == CaptureColors(FilledBuffer(Frame(data, rowPitch, g.width, g.height), g), g, ledX, ledY)
    {
      var f := Frame(data, rowPitch, g.width, g.height);
      var d := screens[screenId];
      assert DeviceValid(d);
      var pb := d.pixelBuffer;
      var buf := new int[|pb|](i requires 0 <= i < |pb| => pb[i]);
      if deskFill {
        FillBands(f, g, buf);
        colors := DeskLedColors(buf, g, ledX, ledY);
      } else {
        FillKeep(f, g, buf);
        colors := CaptureLedColors(buf, g, ledX, ledY);
      }
      screens := screens[screenId := d.(pixelBuffer := buf[..])];
      assert DeviceValid(screens[screenId]);
      assert forall i | 0 <= i < |screens| && i != screenId :: screens[i] == old(screens)[i];
    }

    /**
     * The desk module's `getScreenPixels`: None (`size == -1`) when
     * initialisation or any grab step fails, resetting the screen on a lost
     * duplication; otherwise the LED colour vector of the frame.
     */
    method DeskGetScreenPixels(screenId: int, ledX: nat, ledY: nat, keep: nat, reduction: real,
                               init: InitOutcome, grab: Grab) returns (result: Option<seq<int>>)
      requires Valid() && GrabFits(screens, screenId, reduction, init, keep, grab)
      modifies this
      ensures Valid()
      ensures result.Some? <==> InitStep(old(screens), screenId, reduction, init).1 && grab.Mapped?
      ensures result.Some? ==>
        var g := SessionGeometry(old(screens), screenId, reduction, init, keep).value;
        result.value == DeskColors(FilledBuffer(Frame(grab.data, grab.rowPitch, g.width, g.height), g), g, ledX, ledY)
      ensures !InitStep(old(screens), screenId, reduction, init).1 ==> screens == InitStep(old(screens), screenId, reduction, init).0
      ensures InitStep(old(screens), screenId, reduction, init).1 && grab.Mapped? ==>
        var after := InitStep(old(screens), screenId, reduction, init).0;
        var g := SessionGeometry(old(screens), screenId, reduction, init, keep).value;
        0 <= screenId < |after| &&
        screens == after[screenId := after[screenId].(pixelBuffer := FilledBuffer(Frame(grab.data, grab.rowPitch, g.width, g.height), g))]
      ensures InitStep(old(screens), screenId, reduction, init).1 && grab.AcquireFails? && grab.hr == AccessLost ==>
        var after := InitStep(old(screens), screenId, reduction, init).0;
        0 <= screenId < |after| && screens == after[screenId := after[screenId].(initialized := false)]
      ensures (grab.ConvertFails? || grab.MapFails? || (grab.AcquireFails? && grab.hr != AccessLost)) ==>
        screens == InitStep(old(screens), screenId, reduction, init).0
    {
      var ok := InitializeScreen(screenId, reduction, init);
      if !ok {
        return None;
      }
      InitReportsReadiness(old(screens), screenId, reduction, init);
      match grab {
        case AcquireFails(hr) =>
          AcquireFailed(screenId, hr);
          return None;
        case ConvertFails =>
          return None;
        case MapFails =>
          return None;
        case Mapped(data, rowPitch) =>
          var d := screens[screenId];
          var g := Geometry(d.width, d.height, d.reducedWidth, d.reducedHeight, keep);
          var colors := CaptureFrame(screenId, ledX, ledY, g, data, rowPitch, true);
          return Some(colors);
      }
    }

    /**
     * The capture module's `getScreenPixels`: the same, except that no
     * acquisition error resets the screen and the keep pass fills the buffer.
     */
    method CaptureGetScreenPixels(screenId: int, ledX: nat, ledY: nat, keep: nat, reduction: real,
                                  init: InitOutcome, grab: Grab) returns (result: Option<seq<int>>)
      requires Valid() && GrabFits(screens, screenId, reduction, init, keep, grab)
      modifies this
      ensures Valid()
      ensures result.Some? <==> InitStep(old(screens), screenId, reduction, init).1 && grab.Mapped?
      ensures result.Some? ==>
        var g := SessionGeometry(old(screens), screenId, reduction, init, keep).value;
        result.value == CaptureColors(FilledBuffer(Frame(grab.data, grab.rowPitch, g.width, g.height), g), g, ledX, ledY)
      ensures !InitStep(old(screens), screenId, reduction, init).1 || !grab.Mapped? ==>
        screens == InitStep(old(screens), screenId, reduction, init).0
      ensures InitStep(old(screens), screenId, reduction, init).1 && grab.Mapped? ==>
        var after := InitStep(old(screens), screenId, reduction, init).0;
        var g := SessionGeometry(old(screens), screenId, reduction, init, keep).value;
        0 <= screenId < |after| &&
        screens == after[screenId := after[screenId].(pixelBuffer := FilledBuffer(Frame(grab.data, grab.rowPitch, g.width, g.height), g))]
    {
      var ok := InitializeScreen(screenId, reduction, init);
      if !ok {
        return None;
      }
      InitReportsReadiness(old(screens), screenId, reduction, init);
      if !grab.Mapped? {
        return None;
      }
      var d := screens[screenId];
      var g := Geometry(d.width, d.height, d.reducedWidth, d.reducedHeight, keep);
      var colors := CaptureFrame(screenId, ledX, ledY, g, grab.data, grab.rowPitch, false);
      return Some(colors);
    }
  }
}
