/** The interactive session of ocr_camera.py: the module globals (regions,
    drag state, mode, OCR flag, frame shape, latest texts) gathered into one
    object, one method per mouse event (`mouse_cb`), one per key (the key
    block of `run`), the timed OCR cycle and the main loop. The camera, the
    window and the OCR engine are inputs: a frame shape, mouse and key
    events, a clock reading in milliseconds, and an oracle giving the text
    read from region i. The output directory is a map from name to contents. */
module Session {
  import opened Wrappers
  import opened Geometry
  import opened Regions
  import opened RegionFiles

  /** Minimum time between two OCR cycles, in milliseconds. */
  const INTERVAL_MS: int := 500

  datatype Point = Point(x: int, y: int)

  /** `frame.shape[:2]`: rows, then columns. */
  datatype FrameShape = FrameShape(height: int, width: int)

  /** The OpenCV mouse events the handler distinguishes; every other event
      code is `OtherMouse`. */
  datatype MouseEvent = LButtonDown | MouseMove | LButtonUp | OtherMouse

  datatype MouseInput = MouseInput(event: MouseEvent, x: int, y: int)

  /** What one pass of the main loop receives from the outside world: the
      frame (None when the read fails), the clock before and after the OCR
      work, the OCR oracle for this frame, the mouse events delivered while
      waiting for a key, and the raw key code. */
  datatype Iteration = Iteration(frame: Option<FrameShape>, now: int, finishedAt: int,
                                 ocr: nat -> string, mouse: seq<MouseInput>, key: int)

  /** The writing loop of an OCR pass: reads region i with the oracle, appends
      the text and writes it to `region_<i+1>.txt`. */
  method WriteRegionTexts(regions: seq<Rect>, ocr: nat -> string, dir: map<string, string>)
    returns (texts: seq<string>, out: map<string, string>)
    ensures |texts| == |regions|
    ensures forall i :: 0 <= i < |regions| ==> texts[i] == ocr(i)
    ensures WrittenUpTo(dir, texts, out)
  {
    texts := [];
    out := dir;
    var i := 0;
    while i < |regions|
      invariant 0 <= i <= |regions|
      invariant |texts| == i
      invariant forall j :: 0 <= j < i ==> texts[j] == ocr(j)
      invariant WrittenUpTo(dir, texts, out)
    {
      var text := ocr(i);
      WriteNext(dir, texts, out, text);
      out := out[RegionFileName(i + 1) := text];
      texts := texts + [text];
      i := i + 1;
    }
  }

  /** One OCR pass over the regions: the writing loop, then the removal of the
      files of regions beyond the current count. */
  method OcrCycle(regions: seq<Rect>, ocr: nat -> string, dir: map<string, string>)
    returns (texts: seq<string>, out: map<string, string>)
    ensures |texts| == |regions|
    ensures forall i :: 0 <= i < |regions| ==> texts[i] == ocr(i)
    ensures AfterCycle(dir, texts, out)
  {
    var written;
    texts, written := WriteRegionTexts(regions, ocr, dir);
    out := CleanupExtraRegionFiles(written, |texts|);
    CleanupCompletesCycle(dir, texts, written, out);
  }

  class OcrSession {
    var regions: seq<Rect>
    var drawing: bool
    var startPt: Point
    var previewRect: Option<Rect>
    var removingMode: bool
    var ocrStarted: bool
    var frameShape: Option<FrameShape>
    var latestTexts: seq<string>
    var lastOcr: int
    var files: map<string, string>

    /** The cap on the number of regions, the minimum size of each region,
        and "a preview exists only during a drag". */
    predicate Valid()
      reads this
    {
      && |regions| <= MAX_REGIONS
      && (forall i :: 0 <= i < |regions| ==> Committable(regions[i]) && regions[i].x >= 0 && regions[i].y >= 0)
      && (previewRect.Some? ==> drawing)
    }

    /** The globals at start-up; `dir` is what the output directory already holds. */
    constructor (dir: map<string, string>)
      ensures Valid()
      ensures regions == [] && !drawing && startPt == Point(0, 0) && previewRect == None
      ensures !removingMode && !ocrStarted && frameShape == None
      ensures latestTexts == [] && lastOcr == 0 && files == dir
    {
      regions := [];
      drawing := false;
      startPt := Point(0, 0);
      previewRect := None;
      removingMode := false;
      ocrStarted := false;
      frameShape := None;
      latestTexts := [];
      lastOcr := 0;
      files := dir;
    }

    /** A new frame was read; only its shape matters here. */
    method OnFrame(shape: FrameShape)
      requires Valid()
      modifies this
      ensures Valid()
      ensures frameShape == Some(shape)
      ensures regions == old(regions) && drawing == old(drawing) && startPt == old(startPt)
      ensures previewRect == old(previewRect) && removingMode == old(removingMode)
      ensures ocrStarted == old(ocrStarted) && latestTexts == old(latestTexts)
      ensures lastOcr == old(lastOcr) && files == old(files)
    {
      frameShape := Some(shape);
    }

    /** Left button pressed. Remove mode: pop the first region containing the
        point. Draw mode: start a drag anchored at the point. */
    method MouseDown(x: int, y: int)
      requires Valid()
      modifies this
      ensures Valid()
      ensures frameShape == old(frameShape) && removingMode == old(removingMode)
      ensures ocrStarted == old(ocrStarted) && latestTexts == old(latestTexts)
      ensures lastOcr == old(lastOcr) && files == old(files)
      ensures frameShape.None? ==>
                regions == old(regions) && drawing == old(drawing)
                && startPt == old(startPt) && previewRect == old(previewRect)
      ensures frameShape.Some? && removingMode ==>
                regions == RemoveFirstHit(old(regions), x, y) && drawing == old(drawing)
                && startPt == old(startPt) && previewRect == old(previewRect)
      ensures frameShape.Some? && !removingMode ==>
                regions == old(regions) && drawing && startPt == Point(x, y) && previewRect == None
    {
      if frameShape.None? {
        return;
      }
      if removingMode {
        var i := 0;
        while i < |regions|
          invariant 0 <= i <= |regions|
          invariant regions == old(regions)
          invariant forall j :: 0 <= j < i ==> !PointInRect(x, y, regions[j])
          invariant unchanged(this)
        {
          if PointInRect(x, y, regions[i]) {
            RemoveFirstHitLowest(regions, x, y, i);
            regions := RemoveAt(regions, i);
            return;
          }
          i := i + 1;
        }
        RemoveFirstHitMiss(regions, x, y);
        return;
      }
      drawing := true;
      startPt := Point(x, y);
      previewRect := None;
    }

    /** Mouse moved. Only during a drag in Draw mode: the preview becomes the
        clipped rectangle between the anchor and the mouse position. */
    method MouseMoved(x: int, y: int)
      requires Valid()
      modifies this
      ensures Valid()
      ensures regions == old(regions) && drawing == old(drawing) && startPt == old(startPt)
      ensures frameShape == old(frameShape) && removingMode == old(removingMode)
      ensures ocrStarted == old(ocrStarted) && latestTexts == old(latestTexts)
      ensures lastOcr == old(lastOcr) && files == old(files)
      ensures previewRect ==
                if frameShape.Some? && !removingMode && drawing
                then Some(DragRect(startPt.x, startPt.y, x, y, frameShape.value.width, frameShape.value.height))
                else old(previewRect)
    {
      if frameShape.None? || removingMode {
        return;
      }
      if drawing {
        var shape := frameShape.value;
        previewRect := Some(DragRect(startPt.x, startPt.y, x, y, shape.width, shape.height));
      }
    }

    /** Left button released. Only during a drag in Draw mode: the drag ends,
        the preview goes, and the clipped rectangle is added when it is big
        enough and the list is not full. The outcome is what the source
        reports on the console; None when the event has no effect. */
    method MouseUp(x: int, y: int) returns (outcome: Option<AddOutcome>)
      requires Valid()
      modifies this
      ensures Valid()
      ensures startPt == old(startPt) && frameShape == old(frameShape) && removingMode == old(removingMode)
      ensures ocrStarted == old(ocrStarted) && latestTexts == old(latestTexts)
      ensures lastOcr == old(lastOcr) && files == old(files)
      ensures !(frameShape.Some? && !removingMode && old(drawing)) ==>
                outcome == None && regions == old(regions)
                && drawing == old(drawing) && previewRect == old(previewRect)
      ensures frameShape.Some? && !removingMode && old(drawing) ==>
                var r := DragRect(startPt.x, startPt.y, x, y, frameShape.value.width, frameShape.value.height);
                && !drawing && previewRect == None
                && outcome == Some(Classify(old(regions), r))
                && regions == Commit(old(regions), r)
    {
      outcome := None;
      if frameShape.None? || removingMode || !drawing {
        return;
      }
      var shape := frameShape.value;
      drawing := false;
      var r := DragRect(startPt.x, startPt.y, x, y, shape.width, shape.height);
      previewRect := None;
      outcome := Some(Classify(regions, r));
      if outcome == Some(Added) {
        NonEmptyDragInFrame(startPt.x, startPt.y, x, y, shape.width, shape.height);
        regions := regions + [r];
      }
    }

    /** `mouse_cb`: dispatch on the event code; other codes do nothing. */
    method HandleMouse(p: MouseInput)
      requires Valid()
      modifies this
      ensures Valid()
      ensures ocrStarted == old(ocrStarted) && latestTexts == old(latestTexts)
      ensures lastOcr == old(lastOcr) && files == old(files)
      ensures frameShape == old(frameShape) && removingMode == old(removingMode)
      // before the first frame, and for event codes the handler ignores, nothing changes
      ensures frameShape.None? || p.event.OtherMouse? ==>
                regions == old(regions) && drawing == old(drawing)
                && startPt == old(startPt) && previewRect == old(previewRect)
      // in Remove mode only the button press has an effect
      ensures removingMode && !p.event.LButtonDown? ==>
                regions == old(regions) && drawing == old(drawing)
                && startPt == old(startPt) && previewRect == old(previewRect)
      // only a press in Remove mode and a release in Draw mode change the regions
      ensures frameShape.Some? && p.event.LButtonDown? ==>
                regions == if removingMode then RemoveFirstHit(old(regions), p.x, p.y) else old(regions)
      ensures p.event.MouseMove? ==> regions == old(regions)
      // a press in Draw mode starts a drag at the mouse position; one in Remove mode leaves the drag alone
      ensures frameShape.Some? && p.event.LButtonDown? ==>
                if removingMode
                then drawing == old(drawing) && startPt == old(startPt) && previewRect == old(previewRect)
                else drawing && startPt == Point(p.x, p.y) && previewRect == None
      // a move during a drag in Draw mode refreshes the preview and nothing else of the drag
      ensures p.event.MouseMove? ==>
                && drawing == old(drawing) && startPt == old(startPt)
                && previewRect == if frameShape.Some? && !removingMode && drawing
                                  then Some(DragRect(startPt.x, startPt.y, p.x, p.y,
                                                     frameShape.value.width, frameShape.value.height))
                                  else old(previewRect)
      // a release ends a drag in Draw mode and drops the preview; the anchor stays
      ensures p.event.LButtonUp? ==>
                && startPt == old(startPt)
                && if frameShape.Some? && !removingMode && old(drawing)
                   then !drawing && previewRect == None
                   else drawing == old(drawing) && previewRect == old(previewRect)
      ensures frameShape.Some? && p.event.LButtonUp? ==>
                regions == if !removingMode && old(drawing)
                           then Commit(old(regions), DragRect(startPt.x, startPt.y, p.x, p.y,
                                                              frameShape.value.width, frameShape.value.height))
                           else old(regions)
    {
      match p.event
      case LButtonDown => MouseDown(p.x, p.y);
      case MouseMove => MouseMoved(p.x, p.y);
      case LButtonUp => var _ := MouseUp(p.x, p.y);
      case OtherMouse =>
    }

    /** Key `s`: with no regions nothing happens; otherwise OCR is on and the
        texts are reset to one empty string per region. */
    method KeyStart() returns (started: bool)
      requires Valid()
      modifies this
      ensures Valid()
      ensures started <==> |regions| > 0
      ensures ocrStarted == (old(ocrStarted) || started)
      ensures latestTexts == if started then seq(|regions|, _ => "") else old(latestTexts)
      ensures regions == old(regions) && drawing == old(drawing) && startPt == old(startPt)
      ensures previewRect == old(previewRect) && removingMode == old(removingMode)
      ensures frameShape == old(frameShape) && lastOcr == old(lastOcr) && files == old(files)
    {
      started := |regions| > 0;
      if started {
        ocrStarted := true;
        latestTexts := seq(|regions|, _ => "");
      }
    }

    /** Key `r`: flips the mode and nothing else; a drag in progress survives. */
    method KeyToggleRemove()
      requires Valid()
      modifies this
      ensures Valid()
      ensures removingMode == !old(removingMode)
      ensures regions == old(regions) && drawing == old(drawing) && startPt == old(startPt)
      ensures previewRect == old(previewRect) && ocrStarted == old(ocrStarted)
      ensures latestTexts == old(latestTexts) && frameShape == old(frameShape)
      ensures lastOcr == old(lastOcr) && files == old(files)
    {
      removingMode := !removingMode;
    }

    /** Key `c`: empties the regions and the texts; OCR stays as it was. */
    method KeyClear()
      requires Valid()
      modifies this
      ensures Valid()
      ensures regions == [] && latestTexts == []
      ensures drawing == old(drawing) && startPt == old(startPt) && previewRect == old(previewRect)
      ensures removingMode == old(removingMode) && ocrStarted == old(ocrStarted)
      ensures frameShape == old(frameShape) && lastOcr == old(lastOcr) && files == old(files)
    {
      regions := [];
      latestTexts := [];
    }

    /** `cv2.waitKey(1) & 0xFF` and the key block: returns true for `q`. */
    method HandleKey(code: int) returns (quit: bool)
      requires Valid()
      modifies this
      ensures Valid()
      ensures quit <==> code % 256 == 'q' as int
      ensures code % 256 == 'c' as int ==> regions == [] && latestTexts == []
      ensures code % 256 == 'r' as int ==> removingMode == !old(removingMode)
      ensures code % 256 == 's' as int && |old(regions)| > 0 ==>
                ocrStarted && latestTexts == seq(|regions|, _ => "")
      ensures code % 256 == 's' as int && |old(regions)| == 0 ==> latestTexts == old(latestTexts)
      ensures code % 256 != 's' as int && code % 256 != 'c' as int ==> latestTexts == old(latestTexts)
      ensures code % 256 != 'r' as int ==> removingMode == old(removingMode)
      ensures code % 256 != 'c' as int ==> regions == old(regions)
      ensures ocrStarted == (old(ocrStarted) || (code % 256 == 's' as int && |old(regions)| > 0))
      ensures drawing == old(drawing) && startPt == old(startPt) && previewRect == old(previewRect)
      ensures frameShape == old(frameShape) && lastOcr == old(lastOcr) && files == old(files)
    {
      var key := code % 256;
      quit := false;
      if key == 'q' as int {
        quit := true;
      } else if key == 's' as int {
        var _ := KeyStart();
      } else if key == 'r' as int {
        KeyToggleRemove();
      } else if key == 'c' as int {
        KeyClear();
      }
    }

    /** The timed OCR block of the main loop. It fires only when OCR has been
        started, there is at least one region and the interval has elapsed;
        then the texts are rebuilt from scratch in region order, the files are
        rewritten and reconciled, and the clock reading taken after the work
        becomes the time of the last cycle. */
    method OcrTick(now: int, finishedAt: int, ocr: nat -> string) returns (fired: bool)
      requires Valid()
      modifies this
      ensures Valid()
      ensures fired <==> ocrStarted && |regions| > 0 && now - old(lastOcr) >= INTERVAL_MS
      ensures fired ==> |latestTexts| == |regions|
                        && (forall i :: 0 <= i < |regions| ==> latestTexts[i] == ocr(i))
                        && AfterCycle(old(files), latestTexts, files)
                        && lastOcr == finishedAt
      ensures !fired ==> latestTexts == old(latestTexts) && files == old(files) && lastOcr == old(lastOcr)
      ensures regions == old(regions) && drawing == old(drawing) && startPt == old(startPt)
      ensures previewRect == old(previewRect) && removingMode == old(removingMode)
      ensures ocrStarted == old(ocrStarted) && frameShape == old(frameShape)
    {
      fired := ocrStarted && |regions| > 0 && now - lastOcr >= INTERVAL_MS;
      if fired {
        latestTexts, files := OcrCycle(regions, ocr, files);
        lastOcr := finishedAt;
      }
    }

    /** The main loop of `run`: read a frame (stop when that fails), run the
        OCR block, deliver the mouse events, then handle the key (stop on
        `q`). Returns how many iterations began and whether `q` ended them.
        The region cap and the size rule hold after any sequence of events. */
    method Run(iterations: seq<Iteration>) returns (count: nat, quit: bool)
      requires Valid()
      modifies this
      ensures Valid()
      ensures count <= |iterations|
      ensures quit ==> 0 < count && iterations[count - 1].key % 256 == 'q' as int
      // every processed iteration had a frame, and none before the last one asked to quit
      ensures forall j :: 0 <= j < count ==> iterations[j].frame.Some?
      ensures forall j :: 0 <= j < count && !(quit && j == count - 1) ==> iterations[j].key % 256 != 'q' as int
      // without `q` the loop ends at the first missing frame or after the last iteration
      ensures !quit ==> count == |iterations| || iterations[count].frame.None?
    {
      count := 0;
      quit := false;
      while count < |iterations|
        invariant Valid()
        invariant count <= |iterations|
        invariant !quit
        invariant forall j :: 0 <= j < count ==> iterations[j].frame.Some?
        invariant forall j :: 0 <= j < count ==> iterations[j].key % 256 != 'q' as int
      {
        var it := iterations[count];
        if it.frame.None? {
          return;
        }
        count := count + 1;
        OnFrame(it.frame.value);
        var _ := OcrTick(it.now, it.finishedAt, it.ocr);
        var j := 0;
        while j < |it.mouse|
          invariant Valid()
          invariant j <= |it.mouse|
        {
          HandleMouse(it.mouse[j]);
          j := j + 1;
        }
        quit := HandleKey(it.key);
        if quit {
          return;
        }
      }
    }
  }
}
