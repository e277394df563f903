/** Client code driving a session through concrete cases of its behaviour,
    using only the contracts of the session's methods. */
module Scenarios {
  import opened Wrappers
  import opened Geometry
  import opened Regions
  import opened RegionFiles
  import opened Session

  /** One drag on a 640x480 frame gives region R1 and clears the preview. */
  method DrawOneScenario()
  {
    var s := new OcrSession(map[]);
    s.OnFrame(FrameShape(480, 640));
    s.MouseDown(10, 10);
    s.MouseMoved(60, 50);
    assert s.previewRect == Some(Rect(10, 10, 50, 40));
    var o := s.MouseUp(60, 50);
    assert o == Some(Added) && s.regions == [Rect(10, 10, 50, 40)];
    assert s.previewRect == None && !s.drawing;
  }

  /** The same drag delivered through the mouse callback: the press starts
      the drag, the move shows the preview, the release commits it. */
  method CallbackDragScenario()
  {
    var s := new OcrSession(map[]);
    s.OnFrame(FrameShape(480, 640));
    s.HandleMouse(MouseInput(LButtonDown, 10, 10));
    assert s.drawing && s.startPt == Point(10, 10) && s.previewRect == None;
    s.HandleMouse(MouseInput(MouseMove, 60, 50));
    assert s.drawing && s.previewRect == Some(Rect(10, 10, 50, 40));
    s.HandleMouse(MouseInput(LButtonUp, 60, 50));
    assert !s.drawing && s.previewRect == None && s.regions == [Rect(10, 10, 50, 40)];
  }

  /** A 3x3 drag is below the minimum size and is ignored. */
  method TinyDragScenario()
  {
    var s := new OcrSession(map[]);
    s.OnFrame(FrameShape(480, 640));
    s.MouseDown(5, 5);
    var o := s.MouseUp(8, 8);
    assert o == Some(TooSmall) && s.regions == [];
  }

  /** Dragging up and to the left, past the frame's edge, gives the clipped
      normalised rectangle. */
  method ReverseDragScenario()
  {
    var s := new OcrSession(map[]);
    s.OnFrame(FrameShape(480, 640));
    s.MouseDown(660, 100);
    var o := s.MouseUp(600, 50);
    assert s.regions == [Rect(600, 50, 40, 50)];
  }

  /** Before any frame has arrived every mouse event is ignored. */
  method NoFrameScenario()
  {
    var s := new OcrSession(map[]);
    s.MouseDown(10, 10);
    var o := s.MouseUp(60, 50);
    assert o == None && s.regions == [] && !s.drawing;
  }

  /** In Remove mode a click removes the first region containing it, even
      when a later one contains it too; a click that hits nothing changes
      nothing. */
  method RemoveScenario(s: OcrSession)
    requires s.Valid() && s.frameShape.Some? && !s.removingMode
    requires s.regions == [Rect(0, 0, 20, 20), Rect(10, 10, 30, 30)]
    modifies s
  {
    s.KeyToggleRemove();
    RemoveFirstHitLowest(s.regions, 15, 15, 0);
    s.MouseDown(15, 15);
    assert s.regions == [Rect(10, 10, 30, 30)];
    RemoveFirstHitMiss(s.regions, 100, 100);
    s.MouseDown(100, 100);
    assert s.regions == [Rect(10, 10, 30, 30)];
  }

  /** Starting OCR needs a region. */
  method StartScenario()
  {
    var s := new OcrSession(map[]);
    var quit := s.HandleKey('s' as int + 256);
    assert !quit && !s.ocrStarted;
    var started := s.KeyStart();
    assert !started && !s.ocrStarted;
    s.OnFrame(FrameShape(480, 640));
    s.MouseDown(0, 0);
    var o := s.MouseUp(20, 20);
    started := s.KeyStart();
    assert started && s.ocrStarted && s.latestTexts == [""];
  }

  /** A cycle over two regions where the reader returns "ABC" and "": the
      texts and the two files, with a stale third file deleted and an
      unrelated file kept; a tick before the interval has elapsed does
      nothing. */
  method CycleScenario()
  {
    var dir := map["region_3.txt" := "old", "notes.txt" := "keep"];
    var ocr := (i: nat) => if i == 0 then "ABC" else "";
    var texts, out := OcrCycle([Rect(0, 0, 20, 20), Rect(100, 0, 20, 20)], ocr, dir);
    assert texts == ["ABC", ""];
    assert out[RegionFileName(1)] == "ABC" && out[RegionFileName(2)] == "";
    CycleReconcileExample(dir, texts, out);
  }

  /** Reconciliation after a two-region cycle: the stale file of region 3 is
      gone and an unrelated file is kept. */
  lemma CycleReconcileExample(dir: map<string, string>, texts: seq<string>, out: map<string, string>)
    requires dir == map["region_3.txt" := "old", "notes.txt" := "keep"]
    requires |texts| == 2 && AfterCycle(dir, texts, out)
    ensures "region_3.txt" !in out
    ensures "notes.txt" in out && out["notes.txt"] == "keep"
  {
    assert IsStale("region_3.txt", |texts|) by {
      ParseRegion3();
    }
    assert !IsStale("notes.txt", |texts|) && !IsWrittenName("notes.txt", |texts|) by {
      ParseRegionNameRejects();
    }
  }
}
