/**
 * The per-frame state of the desktop application: the path typed by the user,
 * the last scan result, the scan running in the background (if any), the
 * treemap layout drawn in the window and the window size it was drawn for.
 * Only the state transitions of a frame are modelled, not the drawing.
 */
module App {
  import opened Wrappers
  import opened Scanner
  import opened Treemap

  // ---------------------------------------------------------------------------
  // Colours by depth
  // ---------------------------------------------------------------------------

  type Byte = x: int | 0 <= x < 256

  datatype Color = Rgb(r: Byte, g: Byte, b: Byte)

  /** The six shades of blue, darkest first; no two are alike. */
  function Palette(): (colors: seq<Color>)
    ensures |colors| == 6
    ensures forall j, k :: 0 <= j < k < |colors| ==> colors[j] != colors[k]
  {
    [
      Rgb(2, 34, 63),
      Rgb(2, 55, 99),
      Rgb(2, 78, 138),
      Rgb(2, 102, 178),
      Rgb(0, 128, 218),
      Rgb(0, 153, 255)
    ]
  }

  /** Subtraction on machine-size unsigned integers that stops at zero instead of wrapping. */
  function SaturatingSub(a: nat, b: nat): nat {
    if a >= b then a - b else 0
  }

  /** The fill colour of a rectangle at the given depth: the palette, cycled, starting at depth 1. */
  function ColorForDepth(depth: nat): (c: Color)
    ensures c in Palette()
    ensures depth == 0 ==> c == Palette()[0]
    ensures 1 <= depth <= |Palette()| ==> c == Palette()[depth - 1]
  {
    Palette()[SaturatingSub(depth, 1) % |Palette()|]
  }

  /** From depth 1 on, the colours repeat every six levels. */
  lemma ColorRepeatsEverySixLevels(depth: nat)
    requires depth >= 1
    ensures ColorForDepth(depth + |Palette()|) == ColorForDepth(depth)
  {
    var i := depth - 1;
    assert SaturatingSub(depth + 6, 1) == i + 6;
    assert (i + 6) % 6 == i % 6;
  }

  /** Rectangles one level apart never share a colour, so a child always stands out from its parent. */
  lemma AdjacentLevelsDiffer(depth: nat)
    requires depth >= 1
    ensures ColorForDepth(depth + 1) != ColorForDepth(depth)
  {
    var i := (depth - 1) % 6;
    assert SaturatingSub(depth + 1, 1) % 6 == (i + 1) % 6;
    assert forall j, k :: 0 <= j < k < |Palette()| ==> Palette()[j] != Palette()[k];
  }

  // ---------------------------------------------------------------------------
  // The application state
  // ---------------------------------------------------------------------------

  /** A width and height as the windowing library reports them. */
  datatype Vec2 = Vec2(x: real, y: real)

  /** The end of the channel on which a background scan of path will deliver its result. */
  datatype PendingScan = PendingScan(path: string)

  type ScanResult = Result<FileSystemNode, IoError>

  /** The rectangle a layout fills: the whole available area, from the origin. */
  function FrameBounds(size: Vec2): Rectangle {
    Rectangle(0.0, 0.0, size.x, size.y)
  }

  class DiskScannerApp {
    /** The path to scan, as typed by the user. */
    var pathInput: string
    /** The result of the last completed scan; None before the first scan completes. */
    var scanResult: Option<ScanResult>
    /** The scan running in the background, if any. */
    var scanReceiver: Option<PendingScan>
    /** The rectangles to draw, computed from a successful scan. */
    var layout: Option<seq<TreemapNode>>
    /** The window size of the last frame that refreshed the layout. */
    var lastFrameSize: Vec2

    /** A layout, when there is one, is the treemap of the current tree filling the last frame. */
    ghost predicate Valid()
      reads this
    {
      layout.Some? ==>
        scanResult.Some? && scanResult.value.Ok? &&
        layout.value == Layout(scanResult.value.value.children, FrameBounds(lastFrameSize), true, 1)
    }

    /** The start-up state, with the working directory (computed by the caller) as the path. */
    constructor (currentDir: string)
      ensures Valid()
      ensures pathInput == currentDir && scanResult == None && scanReceiver == None
      ensures layout == None && lastFrameSize == Vec2(0.0, 0.0)
    {
      pathInput := currentDir;
      scanResult := None;
      scanReceiver := None;
      layout := None;
      lastFrameSize := Vec2(0.0, 0.0);
    }

    /** The Scan button is enabled exactly when no scan is running. */
    predicate ScanEnabled()
      reads this
    {
      scanReceiver.None?
    }

    /** The layout must be recomputed: the window changed size, or a result has no layout yet. */
    predicate IsLayoutStale(current: Vec2)
      reads this
    {
      lastFrameSize != current || (scanResult.Some? && layout.None?)
    }

    /**
     * Checks the channel of the running scan. When the background build of the
     * pending path has finished (arrived holds the file system it saw), its result
     * becomes the current result, the channel is dropped and the old layout is
     * discarded; otherwise nothing changes.
     */
    method Poll(arrived: Option<FsObject>)
      modifies this
      requires Valid()
      ensures Valid()
      ensures pathInput == old(pathInput) && lastFrameSize == old(lastFrameSize)
      ensures old(scanReceiver).Some? && arrived.Some? ==>
        scanResult == Some(Build(old(scanReceiver).value.path, arrived.value)) &&
        scanReceiver == None && layout == None
      ensures old(scanReceiver).None? || arrived.None? ==>
        scanResult == old(scanResult) && scanReceiver == old(scanReceiver) && layout == old(layout)
    {
      if scanReceiver.Some? && arrived.Some? {
        var result := BuildTree(scanReceiver.value.path, arrived.value);
        scanResult := Some(result);
        scanReceiver := None;
        layout := None;
      }
    }

    /** The text field replaces the typed path; nothing else changes. */
    method EditPath(text: string)
      modifies this
      requires Valid()
      ensures Valid()
      ensures pathInput == text
      ensures scanResult == old(scanResult) && scanReceiver == old(scanReceiver)
      ensures layout == old(layout) && lastFrameSize == old(lastFrameSize)
    {
      pathInput := text;
    }

    /**
     * A click on the Scan button. When no scan is running it starts one of the
     * path typed now; while a scan is running the button is disabled and the
     * click changes nothing. Either way a scan is running afterwards.
     */
    method ClickScan()
      modifies this
      requires Valid()
      ensures Valid()
      ensures !ScanEnabled()
      ensures old(scanReceiver).None? ==> scanReceiver == Some(PendingScan(old(pathInput)))
      ensures old(scanReceiver).Some? ==> scanReceiver == old(scanReceiver)
      ensures pathInput == old(pathInput) && scanResult == old(scanResult)
      ensures layout == old(layout) && lastFrameSize == old(lastFrameSize)
    {
      if ScanEnabled() {
        scanReceiver := Some(PendingScan(pathInput));
      }
    }

    /**
     * The central panel's refresh. A stale layout is recomputed for the current
     * window size when the result is a tree, and kept otherwise; the window size
     * is recorded whenever the layout was stale. Afterwards the layout is stale
     * again only when the result is an error.
     */
    method RefreshLayout(current: Vec2)
      modifies this
      requires Valid()
      ensures Valid()
      ensures lastFrameSize == current
      ensures old(IsLayoutStale(current)) && old(scanResult).Some? && old(scanResult).value.Ok? ==>
        layout == Some(Layout(old(scanResult).value.value.children, FrameBounds(current), true, 1))
      ensures !(old(IsLayoutStale(current)) && old(scanResult).Some? && old(scanResult).value.Ok?) ==>
        layout == old(layout)
      ensures pathInput == old(pathInput) && scanResult == old(scanResult) && scanReceiver == old(scanReceiver)
      ensures IsLayoutStale(current) <==> scanResult.Some? && scanResult.value.Err?
    {
      if IsLayoutStale(current) {
        if scanResult.Some? && scanResult.value.Ok? {
          var rects := GenerateTreemap(scanResult.value.value, FrameBounds(current));
          layout := Some(rects);
        }
        lastFrameSize := current;
      }
    }

    /**
     * One frame: collect a finished scan, apply the text field and the Scan
     * button, then refresh the layout for the window's current size.
     */
    method Update(arrived: Option<FsObject>, text: string, clicked: bool, frameSize: Vec2)
      modifies this
      requires Valid()
      ensures Valid()
      ensures pathInput == text && lastFrameSize == frameSize
      ensures old(scanReceiver).Some? && arrived.Some? ==>
        scanResult == Some(Build(old(scanReceiver).value.path, arrived.value))
      ensures old(scanReceiver).None? || arrived.None? ==> scanResult == old(scanResult)
      ensures old(scanReceiver).Some? && arrived.None? ==> scanReceiver == old(scanReceiver)
      ensures clicked && (old(scanReceiver).None? || arrived.Some?) ==> scanReceiver == Some(PendingScan(text))
      ensures !clicked && arrived.Some? ==> scanReceiver == None
      ensures !clicked && arrived.None? ==> scanReceiver == old(scanReceiver)
      ensures layout.Some? <==> scanResult.Some? && scanResult.value.Ok?
      ensures scanResult.Some? && scanResult.value.Ok? ==>
        layout == Some(Layout(scanResult.value.value.children, FrameBounds(frameSize), true, 1))
      ensures IsLayoutStale(frameSize) <==> scanResult.Some? && scanResult.value.Err?
    {
      Poll(arrived);
      EditPath(text);
      if clicked {
        ClickScan();
      }
      RefreshLayout(frameSize);
    }
  }
}
