/**
 * The 360-degree turntable viewer: discovery of the numbered frame images of one
 * subject directory, the autoplay tick that bounces the cursor between the first
 * and the last frame, pointer-drag scrubbing, and the choice of what to render.
 */
module Turntable {

  import opened Wrappers

  /** Highest frame number probed (`maxImages`). */
  const MaxImages: nat := 25

  /** Pixels of horizontal pointer travel per frame while dragging (`sensitivity`). */
  const Sensitivity: nat := 5

  const Porsche: string := "/porsche"
  const Jobs: string := "/jobs"
  const Placeholder: string := "/placeholder.svg"

  // ---------------------------------------------------------------------------
  // Frame paths: `${directory}/img${i.toString().padStart(2, '0')}.jpg`
  // ---------------------------------------------------------------------------

  function DigitChar(d: nat): (c: char)
    requires d < 10
    ensures '0' <= c <= '9'
  {
    (('0' as int) + d) as char
  }

  /** Decimal notation of `n`, as `Number.prototype.toString()` writes it. */
  function Decimal(n: nat): (s: string)
    ensures |s| >= 1
    ensures forall k :: 0 <= k < |s| ==> '0' <= s[k] <= '9'
  {
    if n < 10 then [DigitChar(n)] else Decimal(n / 10) + [DigitChar(n % 10)]
  }

  /** `s.padStart(width, '0')`: zeros on the left up to `width` characters. */
  function PadStart(s: string, width: nat): (r: string)
    ensures |s| >= width ==> r == s
    ensures |s| < width ==> |r| == width && r[width - |s|..] == s
    ensures forall k :: 0 <= k < |r| - |s| ==> r[k] == '0'
  {
    if |s| >= width then s else seq(width - |s|, _ => '0') + s
  }

  function FrameName(i: nat): string {
    PadStart(Decimal(i), 2)
  }

  /** The candidate path of frame `i`: the directory, "/img", the padded number, ".jpg". */
  function FramePath(directory: string, i: nat): (r: string)
    ensures |r| >= |directory| + 10
    ensures r[..|directory|] == directory && r[|directory|..|directory| + 4] == "/img"
    ensures r[|r| - 4..] == ".jpg"
  {
    directory + "/img" + FrameName(i) + ".jpg"
  }

  /** Frame numbers below 100 are written with exactly two digits. */
  lemma FrameNameDigits(i: nat)
    requires i < 100
    ensures FrameName(i) == [DigitChar(i / 10), DigitChar(i % 10)]
  {
    if i >= 10 {
      assert Decimal(i / 10) == [DigitChar(i / 10)];
    }
  }

  /** Every candidate is the directory, "/img", two digits and ".jpg". */
  lemma FramePathFormat(directory: string, i: nat)
    requires 1 <= i <= MaxImages
    ensures FramePath(directory, i) == directory + "/img" + [DigitChar(i / 10), DigitChar(i % 10)] + ".jpg"
    ensures |FramePath(directory, i)| == |directory| + 10
  {
    FrameNameDigits(i);
  }

  /** Distinct frame numbers give distinct candidate paths. */
  lemma FramePathInjective(directory: string, i: nat, j: nat)
    requires 1 <= i <= MaxImages && 1 <= j <= MaxImages
    requires FramePath(directory, i) == FramePath(directory, j)
    ensures i == j
  {
    FramePathFormat(directory, i);
    FramePathFormat(directory, j);
    var n := |directory|;
    assert FramePath(directory, i)[n + 4] == DigitChar(i / 10);
    assert FramePath(directory, j)[n + 4] == DigitChar(j / 10);
    assert FramePath(directory, i)[n + 5] == DigitChar(i % 10);
    assert FramePath(directory, j)[n + 5] == DigitChar(j % 10);
  }

  // ---------------------------------------------------------------------------
  // Frame discovery (`useDirectoryImages`)
  // ---------------------------------------------------------------------------

  /**
   * The numbers among 1..n whose probe succeeded, in ascending order. The HEAD
   * probe of frame i is the parameter `found(i)`; a rejected probe is `false`.
   */
  function FoundNumbers(found: nat -> bool, n: nat): (r: seq<nat>)
    ensures |r| <= n
    ensures forall k :: 0 <= k < |r| ==> 1 <= r[k] <= n && found(r[k])
    ensures forall k, l :: 0 <= k < l < |r| ==> r[k] < r[l]
    ensures forall i :: 1 <= i <= n && found(i) ==> i in r
  {
    if n == 0 then []
    else FoundNumbers(found, n - 1) + (if found(n) then [n] else [])
  }

  /** The frame sequence a completed load of `directory` yields. */
  function Frames(directory: string, found: nat -> bool): (r: seq<string>)
    ensures |r| == |FoundNumbers(found, MaxImages)| <= MaxImages
    ensures forall k :: 0 <= k < |r| ==> r[k] == FramePath(directory, FoundNumbers(found, MaxImages)[k])
  {
    var numbers := FoundNumbers(found, MaxImages);
    seq(|numbers|, k requires 0 <= k < |numbers| => FramePath(directory, numbers[k]))
  }

  /**
   * What the candidate loop collects: one entry per frame number 1..25, in that
   * order, the path when its probe succeeded and null (None) otherwise.
   */
  function Probes(directory: string, found: nat -> bool): seq<Option<string>> {
    seq(MaxImages, k requires 0 <= k < MaxImages => if found(k + 1) then Some(FramePath(directory, k + 1)) else None)
  }

  /** The candidate loop: probes the frame numbers 1..25 one after another. */
  method ProbeCandidates(directory: string, found: nat -> bool) returns (results: seq<Option<string>>)
    ensures results == Probes(directory, found)
  {
    results := [];
    for i := 1 to MaxImages + 1
      invariant |results| == i - 1
      invariant forall k :: 0 <= k < i - 1 ==>
        results[k] == if found(k + 1) then Some(FramePath(directory, k + 1)) else None
    {
      var imagePath := FramePath(directory, i);
      results := results + [if found(i) then Some(imagePath) else None];
    }
  }

  /** `results.filter(path => path !== null)`, keeping order. */
  function Present(results: seq<Option<string>>): (r: seq<string>)
    ensures |r| <= |results|
    ensures forall k :: 0 <= k < |results| && results[k].Some? ==> results[k].value in r
    ensures forall x :: x in r ==> Some(x) in results
  {
    if results == [] then []
    else
      var last := results[|results| - 1];
      var init := results[..|results| - 1];
      assert forall x :: Some(x) in init ==> Some(x) in results;
      Present(init) + (if last.Some? then [last.value] else [])
  }

  /** The successful probes, filtered, are the paths of the first n found numbers,
   * for any path naming; the loader names frames with `FramePath`. */
  lemma {:induction false} PresentOfProbes(path: nat -> string, found: nat -> bool, results: seq<Option<string>>, n: nat)
    requires n <= |results|
    requires forall k :: 0 <= k < |results| ==>
      results[k] == if found(k + 1) then Some(path(k + 1)) else None
    ensures |Present(results[..n])| == |FoundNumbers(found, n)|
    ensures forall k :: 0 <= k < |FoundNumbers(found, n)| ==>
      Present(results[..n])[k] == path(FoundNumbers(found, n)[k])
  {
    if n > 0 {
      PresentOfProbes(path, found, results, n - 1);
      var prefix := results[..n];
      assert prefix[..n - 1] == results[..n - 1] && prefix[n - 1] == results[n - 1];
      var before, numbers := Present(results[..n - 1]), FoundNumbers(found, n - 1);
      if found(n) {
        assert Present(prefix) == before + [path(n)];
        assert FoundNumbers(found, n) == numbers + [n];
      } else {
        assert Present(prefix) == before;
        assert FoundNumbers(found, n) == numbers;
      }
    }
  }

  /** The loop plus the filter produce `Frames`. */
  lemma LoadedFrames(directory: string, found: nat -> bool)
    ensures Present(Probes(directory, found)) == Frames(directory, found)
  {
    var results := Probes(directory, found);
    PresentOfProbes((i: nat) => FramePath(directory, i), found, results, MaxImages);
    assert results[..MaxImages] == results;
  }

  /** A frame is loaded iff its number is in 1..25 and its probe succeeded. */
  lemma FramesMembership(directory: string, found: nat -> bool, i: nat)
    requires 1 <= i <= MaxImages
    ensures FramePath(directory, i) in Frames(directory, found) <==> found(i)
  {
    var numbers := FoundNumbers(found, MaxImages);
    var frames := Frames(directory, found);
    var path := FramePath(directory, i);
    if found(i) {
      assert i in numbers;
      var k :| 0 <= k < |numbers| && numbers[k] == i;
      assert frames[k] == path;
    }
    if path in frames {
      var k :| 0 <= k < |frames| && frames[k] == path;
      var j := numbers[k];
      assert 1 <= j <= MaxImages && found(j);
      assert FramePath(directory, j) == path;
      FramePathInjective(directory, j, i);
    }
  }

  /** The loaded frames are in ascending frame-number order and have no duplicates. */
  lemma FramesOrderedAndDistinct(directory: string, found: nat -> bool)
    ensures var numbers := FoundNumbers(found, MaxImages);
      |Frames(directory, found)| == |numbers| &&
      forall k, l :: 0 <= k < l < |numbers| ==>
        numbers[k] < numbers[l] && Frames(directory, found)[k] != Frames(directory, found)[l]
  {
    var numbers := FoundNumbers(found, MaxImages);
    forall k, l | 0 <= k < l < |numbers|
      ensures Frames(directory, found)[k] != Frames(directory, found)[l]
    {
      if Frames(directory, found)[k] == Frames(directory, found)[l] {
        FramePathInjective(directory, numbers[k], numbers[l]);
      }
    }
  }

  /** When every probe succeeds, all 25 frames are loaded. */
  lemma {:induction false} AllFoundNumbers(found: nat -> bool, n: nat)
    requires forall i :: found(i)
    ensures |FoundNumbers(found, n)| == n
  {
    if n > 0 {
      AllFoundNumbers(found, n - 1);
    }
  }

  // ---------------------------------------------------------------------------
  // Autoplay tick
  // ---------------------------------------------------------------------------

  /** Cursor and direction of playback (`currentImageIndex`, `direction`). */
  datatype Playhead = Playhead(index: int, direction: int)

  /**
   * One autoplay step over `len` frames. Reaching or passing the last frame
   * stops there and turns backward; reaching or passing the first stops there
   * and turns forward.
   */
  function Tick(p: Playhead, len: int): (q: Playhead)
    ensures len >= 1 ==> 0 <= q.index <= len - 1
    ensures len == 0 ==> q.index == -1 || q.index == 0
    ensures 0 < p.index + p.direction < len - 1 ==> q == Playhead(p.index + p.direction, p.direction)
    ensures p.index + p.direction >= len - 1 ==> q == Playhead(len - 1, -1)
    ensures p.index + p.direction < len - 1 && p.index + p.direction <= 0 ==> q == Playhead(0, 1)
    ensures q.direction == p.direction || q.index == len - 1 || q.index == 0
    ensures len >= 2 && q.index == len - 1 ==> q.direction == -1
    ensures len >= 2 && q.index == 0 ==> q.direction == 1
  {
    var next := p.index + p.direction;
    if next >= len - 1 then Playhead(len - 1, -1)
    else if next <= 0 then Playhead(0, 1)
    else Playhead(next, p.direction)
  }

  /** `n` consecutive ticks. */
  function Run(n: nat, p: Playhead, len: int): (q: Playhead)
    ensures n == 0 ==> q == p
    ensures n >= 1 && len >= 1 ==> 0 <= q.index <= len - 1
  {
    if n == 0 then p else Run(n - 1, Tick(p, len), len)
  }

  lemma {:induction false} RunAdditive(a: nat, b: nat, p: Playhead, len: int)
    ensures Run(a + b, p, len) == Run(b, Run(a, p, len), len)
  {
    if a > 0 {
      RunAdditive(a - 1, b, Tick(p, len), len);
    }
  }

  /** The concrete boundary case: ten frames, cursor on the last, going forward. */
  lemma TickAtLastFrame()
    ensures Tick(Playhead(9, 1), 10) == Playhead(9, -1)
  {
  }

  /** With no frames the tick leaves the cursor at -1, outside every sequence. */
  lemma TickWithoutFrames()
    ensures Tick(Playhead(0, 1), 0) == Playhead(-1, -1)
    ensures Tick(Playhead(-1, -1), 0) == Playhead(0, 1)
  {
  }

  /** Going forward from the first frame, tick k shows frame k, until the last frame. */
  lemma {:induction false} BounceForward(k: nat, len: int)
    requires len >= 2 && k <= len - 1
    ensures Run(k, Playhead(0, 1), len) == Playhead(k, if k < len - 1 then 1 else -1)
  {
    if k > 0 {
      BounceForward(k - 1, len);
      RunAdditive(k - 1, 1, Playhead(0, 1), len);
    }
  }

  /** After the last frame the cursor walks back one frame per tick to the first. */
  lemma {:induction false} BounceBackward(k: nat, len: int)
    requires len >= 2 && k <= len - 1
    ensures Run(len - 1 + k, Playhead(0, 1), len) == Playhead(len - 1 - k, if k < len - 1 then -1 else 1)
  {
    if k == 0 {
      BounceForward(len - 1, len);
    } else {
      BounceBackward(k - 1, len);
      RunAdditive(len - 1 + k - 1, 1, Playhead(0, 1), len);
    }
  }

  /** A full sweep, forward then back, returns to the starting state: the motion repeats. */
  lemma BouncePeriodic(k: nat, len: int)
    requires len >= 2
    ensures Run(2 * (len - 1) + k, Playhead(0, 1), len) == Run(k, Playhead(0, 1), len)
  {
    BounceBackward(len - 1, len);
    RunAdditive(2 * (len - 1), k, Playhead(0, 1), len);
  }

  /**
   * Starting at frame 0 going forward with at least two frames, the cursor is
   * always a frame index and every tick moves it by exactly one frame: it never
   * skips a frame and never overshoots an end.
   */
  lemma {:induction false} RunInRange(n: nat, len: int)
    requires len >= 2
    ensures 0 <= Run(n, Playhead(0, 1), len).index <= len - 1
    ensures var p := Run(n, Playhead(0, 1), len); var q := Tick(p, len);
      q.index == p.index + 1 || q.index == p.index - 1
    decreases n
  {
    if n >= 2 * (len - 1) {
      BouncePeriodic(n - 2 * (len - 1), len);
      RunInRange(n - 2 * (len - 1), len);
    } else if n <= len - 1 {
      BounceForward(n, len);
      if n < len - 1 {
        BounceForward(n + 1, len);
        RunAdditive(n, 1, Playhead(0, 1), len);
      } else {
        BounceBackward(1, len);
        RunAdditive(n, 1, Playhead(0, 1), len);
      }
    } else {
      BounceBackward(n - (len - 1), len);
      BounceBackward(n - (len - 1) + 1, len);
      RunAdditive(n, 1, Playhead(0, 1), len);
    }
  }

  // ---------------------------------------------------------------------------
  // Drag scrubbing (`handleMouseMove`)
  // ---------------------------------------------------------------------------

  function Abs(x: int): nat {
    if x < 0 then -x else x
  }

  function Min(a: int, b: int): int {
    if a <= b then a else b
  }

  function Max(a: int, b: int): int {
    if a >= b then a else b
  }

  /** Frames moved for a displacement `dx`: `Math.floor(Math.abs(deltaX) / sensitivity)`. */
  function FrameSteps(dx: int): nat {
    Abs(dx) / Sensitivity
  }

  /**
   * The cursor after a drag sample `dx` pixels from the anchor over `len` frames.
   * Below one step the cursor is untouched; otherwise it moves one frame per step
   * in the direction of `dx`, clamped to `[0, len - 1]`.
   */
  function Scrub(index: int, dx: int, len: int): (r: int)
    ensures FrameSteps(dx) == 0 ==> r == index
    ensures FrameSteps(dx) > 0 && len >= 1 ==> 0 <= r <= len - 1
    ensures FrameSteps(dx) > 0 && 0 <= index + (if dx > 0 then 1 else -1) * FrameSteps(dx) <= len - 1 ==>
      r == index + (if dx > 0 then 1 else -1) * FrameSteps(dx)
    ensures FrameSteps(dx) > 0 && len >= 1 && index + (if dx > 0 then 1 else -1) * FrameSteps(dx) > len - 1 ==>
      r == len - 1
    ensures FrameSteps(dx) > 0 && index + (if dx > 0 then 1 else -1) * FrameSteps(dx) < 0 ==> r == 0
    ensures FrameSteps(dx) > 0 && len <= 0 ==> r == 0
    ensures 0 <= index <= len - 1 && dx >= 0 ==> index <= r <= index + FrameSteps(dx)
    ensures 0 <= index <= len - 1 && dx <= 0 ==> index - FrameSteps(dx) <= r <= index
  {
    var imageChange := FrameSteps(dx);
    if imageChange > 0 then
      var newDirection := if dx > 0 then 1 else -1;
      Max(0, Min(len - 1, index + newDirection * imageChange))
    else index
  }

  /**
   * For a cursor inside the frames and a fixed anchor, a pointer further right
   * never gives an earlier frame.
   */
  lemma ScrubMonotone(index: int, anchor: int, x1: int, x2: int, len: int)
    requires 0 <= index <= len - 1
    requires x1 <= x2
    ensures Scrub(index, x1 - anchor, len) <= Scrub(index, x2 - anchor, len)
  {
    var d1, d2 := x1 - anchor, x2 - anchor;
    if d1 < 0 && d2 > 0 {
      assert Scrub(index, d1, len) <= index <= Scrub(index, d2, len);
    } else if d2 <= 0 {
      assert FrameSteps(d2) <= FrameSteps(d1);
    } else {
      assert FrameSteps(d1) <= FrameSteps(d2);
    }
  }

  /**
   * With the cursor outside the frames the drag is not monotone: past the end
   * of five frames, a pointer 5 pixels to the right of the anchor gives frame 4
   * while the anchor itself leaves the cursor at 10; at -1, a pointer 5 pixels
   * to the left gives frame 0 while the anchor leaves -1.
   */
  lemma ScrubOutOfRangeNotMonotone()
    ensures Scrub(10, 0, 5) == 10 && Scrub(10, 5, 5) == 4
    ensures Scrub(-1, -5, 5) == 0 && Scrub(-1, 0, 5) == -1
  {
  }

  // ---------------------------------------------------------------------------
  // The component
  // ---------------------------------------------------------------------------

  /** What the component renders, in its order of priority. */
  datatype Screen =
    | LoadingScreen
    | ErrorScreen(message: string)
    | EmptyScreen
    | ViewerScreen(src: string, frameNumber: int, frameCount: nat)

  /** The state of `Turntable360` together with that of its `useDirectoryImages` hook. */
  class Viewer {
    var directory: string
    var images: seq<string>
    var loading: bool
    var error: Option<string>
    var index: int
    var playing: bool
    var direction: int
    var dragging: bool
    var dragStartX: int

    /** Direction is always one frame forward or back; the cursor never goes below -1. */
    ghost predicate Valid()
      reads this
    {
      (direction == 1 || direction == -1) && index >= -1
    }

    /** The cursor names a frame of the current sequence. */
    ghost predicate CursorInRange()
      reads this
    {
      0 <= index < |images|
    }

    /** Initial state: the Porsche subject, loading, playing forward from frame 0. */
    constructor ()
      ensures Valid()
      ensures directory == Porsche && images == [] && loading && error == None
      ensures index == 0 && playing && direction == 1 && !dragging && dragStartX == 0
    {
      directory := Porsche;
      images := [];
      loading := true;
      error := None;
      index := 0;
      playing := true;
      direction := 1;
      dragging := false;
      dragStartX := 0;
    }

    /** The loader effect starts: it shows the loading state and clears the error. */
    method BeginLoad()
      requires Valid()
      modifies this`loading, this`error
      ensures Valid()
      ensures loading && error == None
    {
      loading := true;
      error := None;
    }

    /**
     * All probes of the load started for `dir` have settled. Without a single
     * frame the hook records the error and keeps the previous images; either way
     * loading ends. The result is applied even if `dir` is no longer current.
     */
    method CompleteLoad(dir: string, found: nat -> bool)
      requires Valid()
      modifies this`images, this`error, this`loading
      ensures Valid()
      ensures !loading
      ensures Frames(dir, found) == [] ==>
        error == Some("No images found in " + dir) && images == old(images)
      ensures Frames(dir, found) != [] ==>
        error == old(error) && images == Frames(dir, found)
    {
      var results := ProbeCandidates(dir, found);
      var validImages := Present(results);
      LoadedFrames(dir, found);
      if |validImages| == 0 {
        error := Some("No images found in " + dir);
      } else {
        images := validImages;
      }
      loading := false;
    }

    /**
     * One firing of the autoplay interval. The interval exists only while
     * playing and not dragging; then the cursor takes one tick over the current
     * frames.
     */
    method AutoplayTick()
      requires Valid()
      modifies this`index, this`direction
      ensures Valid()
      ensures playing && !dragging ==>
        Playhead(index, direction) == Tick(Playhead(old(index), old(direction)), |images|)
      ensures !playing || dragging ==> index == old(index) && direction == old(direction)
      ensures playing && !dragging && |images| >= 1 ==> CursorInRange()
    {
      if playing && !dragging {
        var next := Tick(Playhead(index, direction), |images|);
        index, direction := next.index, next.direction;
      }
    }

    /** Pointer down: start dragging from `x` and pause playback. */
    method MouseDown(x: int)
      requires Valid()
      modifies this`dragging, this`dragStartX, this`playing
      ensures Valid()
      ensures dragging && dragStartX == x && !playing
    {
      dragging := true;
      dragStartX := x;
      playing := false;
    }

    /**
     * Pointer move to `x`. Only while dragging, and only once the pointer is at
     * least one step from the anchor: then the cursor scrubs and the anchor
     * moves to `x`. Smaller moves keep the anchor, so they add up.
     */
    method MouseMove(x: int)
      requires Valid()
      modifies this`index, this`dragStartX
      ensures Valid()
      ensures !dragging || FrameSteps(x - old(dragStartX)) == 0 ==>
        index == old(index) && dragStartX == old(dragStartX)
      ensures dragging && FrameSteps(x - old(dragStartX)) > 0 ==>
        index == Scrub(old(index), x - old(dragStartX), |images|) && dragStartX == x
      ensures dragging && FrameSteps(x - old(dragStartX)) > 0 && |images| >= 1 ==> CursorInRange()
    {
      if !dragging {
        return;
      }
      var deltaX := x - dragStartX;
      var imageChange := FrameSteps(deltaX);
      if imageChange > 0 {
        index := Scrub(index, deltaX, |images|);
        dragStartX := x;
      }
    }

    /** Pointer up or leave: stop dragging; playback stays paused. */
    method MouseUp()
      requires Valid()
      modifies this`dragging
      ensures Valid()
      ensures !dragging
    {
      dragging := false;
    }

    method TogglePlayPause()
      requires Valid()
      modifies this`playing
      ensures Valid()
      ensures playing == !old(playing)
    {
      playing := !playing;
    }

    /**
     * `switchToPorsche` / `switchToJobs` with `subject` Porsche or Jobs: select the
     * subject and go back to the first frame. `reload` says whether the directory
     * changed, which is what re-runs the loader effect.
     */
    method SwitchTo(subject: string) returns (reload: bool)
      requires Valid()
      modifies this`directory, this`index
      ensures Valid()
      ensures directory == subject && index == 0
      ensures reload <==> old(directory) != subject
    {
      reload := directory != subject;
      directory := subject;
      index := 0;
    }

    /**
     * What is rendered: loading first, then a non-empty error, then the empty
     * state, and only then the frame (`images[i] || "/placeholder.svg"`).
     */
    function CurrentScreen(): (s: Screen)
      reads this
      ensures loading <==> s == LoadingScreen
      ensures s.ErrorScreen? <==> !loading && error.Some? && error.value != ""
      ensures s.ErrorScreen? ==> s.message == error.value
      ensures s == EmptyScreen <==> !loading && (error.None? || error.value == "") && images == []
      ensures s.ViewerScreen? ==> s.frameCount == |images| > 0 && s.frameNumber == index + 1
      ensures s.ViewerScreen? && CursorInRange() ==> s.src == images[index]
      ensures s.ViewerScreen? && !CursorInRange() ==> s.src == Placeholder
    {
      if loading then LoadingScreen
      else if error.Some? && error.value != "" then ErrorScreen(error.value)
      else if |images| == 0 then EmptyScreen
      else ViewerScreen(if 0 <= index < |images| then images[index] else Placeholder, index + 1, |images|)
    }
  }

  /**
   * The first load, with the player left alone. The initial state plays while
   * the frames are loading, so the interval already runs and, with no frames
   * yet, moves the cursor to -1. If the load then finds frames, the viewer
   * shows the placeholder as "frame 0" until the next tick brings the cursor
   * back to frame 0.
   */
  method FirstLoadScenario(v: Viewer, dir: string, found: nat -> bool)
    requires v.Valid() && v.directory == dir && v.images == [] && v.index == 0 && v.direction == 1
    requires v.playing && !v.dragging
    requires |Frames(dir, found)| > 0
    modifies v
    ensures v.images == Frames(dir, found) && v.error == None && !v.loading
    ensures v.index == 0 && v.CursorInRange()
  {
    ghost var n := |Frames(dir, found)|;
    v.BeginLoad();
    v.AutoplayTick();
    assert v.index == -1 && v.error == None;
    v.CompleteLoad(dir, found);
    assert |v.images| == n && v.error == None && !v.loading;
    assert v.CurrentScreen() == ViewerScreen(Placeholder, 0, n);
    v.AutoplayTick();
    assert v.index == 0 && v.CursorInRange();
  }

  /** `n` firings of the interval from frame 0 going forward, before the last frame is reached. */
  method PlayForward(v: Viewer, n: nat)
    requires v.Valid() && v.playing && !v.dragging && v.index == 0 && v.direction == 1
    requires n < |v.images| - 1
    modifies v`index, v`direction
    ensures v.Valid() && v.index == n && v.direction == 1
  {
    var t := 0;
    while t < n
      invariant 0 <= t <= n && v.Valid()
      invariant v.index == t && v.direction == 1
    {
      v.AutoplayTick();
      t := t + 1;
    }
  }

  /**
   * A switch to a subject with fewer frames, with the player left alone. The
   * interval keeps ticking over the old frames while the new ones load, and the
   * completed load does not bring the cursor back into range.
   */
  method LoadFewerFrames(v: Viewer, dir: string, found: nat -> bool)
    requires v.Valid() && |v.images| == 25 && v.playing && !v.dragging && v.direction == 1
    requires v.directory != dir && |Frames(dir, found)| == 5
    modifies v
    ensures v.Valid() && v.images == Frames(dir, found) && !v.loading
    ensures v.index == 10 && !v.CursorInRange() && !v.dragging
    ensures v.playing && v.direction == 1
  {
    var reload := v.SwitchTo(dir);
    assert reload;
    v.BeginLoad();
    PlayForward(v, 10);
    v.CompleteLoad(dir, found);
  }

  /**
   * After such a load, a drag that moves the pointer right jumps the cursor
   * back to the last new frame: the cursor sat past the end.
   */
  method DragAfterShrinkingLoad(v: Viewer, dir: string, found: nat -> bool)
    requires v.Valid() && |v.images| == 25 && v.playing && !v.dragging && v.direction == 1
    requires v.directory != dir && |Frames(dir, found)| == 5
    modifies v
    ensures v.images == Frames(dir, found) && v.dragging
    ensures v.index == 4 && v.dragStartX == 105
  {
    LoadFewerFrames(v, dir, found);
    v.MouseDown(100);
    v.MouseMove(100);
    assert v.index == 10;
    ScrubOutOfRangeNotMonotone();
    v.MouseMove(105);
  }

  /** After such a load, the next firing ticks over the new frames and clamps the cursor to the last one. */
  method TickAfterShrinkingLoad(v: Viewer, dir: string, found: nat -> bool)
    requires v.Valid() && |v.images| == 25 && v.playing && !v.dragging && v.direction == 1
    requires v.directory != dir && |Frames(dir, found)| == 5
    modifies v
    ensures v.images == Frames(dir, found)
    ensures v.index == 4 && v.direction == -1 && v.CursorInRange()
  {
    LoadFewerFrames(v, dir, found);
    v.AutoplayTick();
  }
}
