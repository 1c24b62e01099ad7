/** The LED movie encoder of movie.go: LEDs in RGB or RGBW form, frames of
    LEDs, the consistency rules a movie must satisfy and the flat byte layout
    `LedMovie.Marshal` produces. */
module Movie {
  import opened Common

  /** The `Led` interface and its two implementations, RgbLed and RgbwLed. */
  datatype Led =
    | Rgb(red: uint8, green: uint8, blue: uint8)
    | Rgbw(red: uint8, green: uint8, blue: uint8, white: uint8)
  {
    function Red(): uint8 { red }
    function Green(): uint8 { green }
    function Blue(): uint8 { blue }

    /** An RGB LED has no white channel and reports 0 for it. */
    function White(): uint8 { if Rgbw? then white else 0 }

    /** The format flag: does the LED carry a white channel? */
    predicate HasWhite() { Rgbw? }
  }

  function NewRgbLed(red: uint8, green: uint8, blue: uint8): (l: Led)
    ensures l.Red() == red && l.Green() == green && l.Blue() == blue
    ensures l.White() == 0 && !l.HasWhite()
  {
    Rgb(red, green, blue)
  }

  function NewRgbwLed(red: uint8, green: uint8, blue: uint8, white: uint8): (l: Led)
    ensures l.Red() == red && l.Green() == green && l.Blue() == blue
    ensures l.White() == white && l.HasWhite()
  {
    Rgbw(red, green, blue, white)
  }

  datatype Frame = Frame(leds: seq<Led>)

  datatype LedMovie = LedMovie(frames: seq<Frame>)

  /** The four ways Marshal rejects a movie; EmptyFrame names the frame index. */
  datatype MarshalError =
    | EmptyMovie
    | EmptyFrame(index: nat)
    | InconsistentLedCount
    | InconsistentWhite

  /** Bytes per LED on the wire: red, green, blue and, for RGBW, white. */
  function LedSize(hasWhite: bool): nat
  {
    if hasWhite then 4 else 3
  }

  /** Where the bytes of LED j of frame i start in a buffer of frames of n LEDs. */
  function Offset(i: nat, j: nat, n: nat, ledSize: nat): nat
  {
    i * n * ledSize + j * ledSize
  }

  predicate AllWhiteAs(leds: seq<Led>, hasWhite: bool)
  {
    forall j :: 0 <= j < |leds| ==> leds[j].HasWhite() == hasWhite
  }

  /** Every frame of the list has exactly n LEDs. */
  predicate Uniform(frames: seq<Frame>, n: nat)
  {
    forall k :: 0 <= k < |frames| ==> |frames[k].leds| == n
  }

  /** The white flag of the first LED scanned; it only matters once frame 0
      is known to be non-empty. */
  function RefWhite(m: LedMovie): bool
    requires |m.frames| > 0
  {
    |m.frames[0].leds| > 0 && m.frames[0].leds[0].HasWhite()
  }

  /** A frame passes all three checks against the reference count n and
      the reference format hasWhite. */
  predicate FrameFits(f: Frame, n: nat, hasWhite: bool)
  {
    0 < |f.leds| == n && AllWhiteAs(f.leds, hasWhite)
  }

  /** Frame k passes against the references established by frame 0. */
  predicate Good(m: LedMovie, k: nat)
    requires k < |m.frames|
  {
    FrameFits(m.frames[k], |m.frames[0].leds|, RefWhite(m))
  }

  /** The validation scan from frame i on: per frame the empty check, then
      the count check, then the white check, before the next frame. On
      success it yields the movie's format. */
  function ScanFrom(frames: seq<Frame>, i: nat, n: nat, hasWhite: bool): Result<bool, MarshalError>
    requires i <= |frames|
    decreases |frames| - i
  {
    if i == |frames| then Ok(hasWhite)
    else if |frames[i].leds| == 0 then Err(EmptyFrame(i))
    else if |frames[i].leds| != n then Err(InconsistentLedCount)
    else if !AllWhiteAs(frames[i].leds, hasWhite) then Err(InconsistentWhite)
    else ScanFrom(frames, i + 1, n, hasWhite)
  }

  /** The validation half of Marshal: the format on success, the first
      error of the scan otherwise. */
  function Validate(m: LedMovie): Result<bool, MarshalError>
  {
    if |m.frames| == 0 then Err(EmptyMovie)
    else ScanFrom(m.frames, 0, |m.frames[0].leds|, RefWhite(m))
  }

  function EncodeLed(l: Led, hasWhite: bool): seq<uint8>
  {
    if hasWhite then [l.Red(), l.Green(), l.Blue(), l.White()]
    else [l.Red(), l.Green(), l.Blue()]
  }

  function EncodeLeds(leds: seq<Led>, hasWhite: bool): seq<uint8>
    decreases |leds|
  {
    if leds == [] then []
    else EncodeLeds(leds[..|leds| - 1], hasWhite) + EncodeLed(leds[|leds| - 1], hasWhite)
  }

  /** The wire format: frame after frame, LED after LED, no padding. */
  function EncodeFrames(frames: seq<Frame>, hasWhite: bool): seq<uint8>
    decreases |frames|
  {
    if frames == [] then []
    else EncodeFrames(frames[..|frames| - 1], hasWhite) + EncodeLeds(frames[|frames| - 1].leds, hasWhite)
  }

  /** What Marshal returns: the validation error, or the encoded buffer. */
  function MarshalSpec(m: LedMovie): Result<seq<uint8>, MarshalError>
  {
    match Validate(m)
    case Err(e) => Err(e)
    case Ok(hasWhite) => Ok(EncodeFrames(m.frames, hasWhite))
  }

  /** The validation loops of Marshal: the reference LED count and white
      flag are unset until the first frame and the first LED set them. */
  method CheckFrames(m: LedMovie) returns (r: Result<bool, MarshalError>)
    ensures r == Validate(m)
  {
    if |m.frames| == 0 {
      return Err(EmptyMovie);
    }
    var prevHasWhite: Option<bool> := None;
    var prevLedCount: Option<nat> := None;
    var i := 0;
    while i < |m.frames|
      invariant 0 <= i <= |m.frames|
      invariant i > 0 ==> |m.frames[0].leds| > 0
      invariant prevLedCount == if i == 0 then None else Some(|m.frames[0].leds|)
      invariant prevHasWhite == if i == 0 then None else Some(RefWhite(m))
      invariant Validate(m) == ScanFrom(m.frames, i, |m.frames[0].leds|, RefWhite(m))
    {
      var leds := m.frames[i].leds;
      if |leds| == 0 {
        return Err(EmptyFrame(i));
      }
      match prevLedCount {
        case None =>
          prevLedCount := Some(|leds|);
        case Some(count) =>
          if count != |leds| {
            return Err(InconsistentLedCount);
          }
      }
      var j := 0;
      while j < |leds|
        invariant 0 <= j <= |leds|
        invariant prevHasWhite == if i == 0 && j == 0 then None else Some(RefWhite(m))
        invariant forall k :: 0 <= k < j ==> leds[k].HasWhite() == RefWhite(m)
      {
        match prevHasWhite {
          case None =>
            prevHasWhite := Some(leds[j].HasWhite());
          case Some(hasWhite) =>
            if hasWhite != leds[j].HasWhite() {
              return Err(InconsistentWhite);
            }
        }
        j := j + 1;
      }
      i := i + 1;
    }
    return Ok(prevHasWhite.value);
  }

  /** The population half of Marshal: a zeroed buffer of the exact size,
      filled frame by frame, each frame right after the previous one. */
  method FillBuffer(m: LedMovie, hasWhite: bool) returns (bytes: seq<uint8>)
    requires |m.frames| > 0 && Uniform(m.frames, |m.frames[0].leds|)
    ensures bytes == EncodeFrames(m.frames, hasWhite)
  {
    var n := |m.frames[0].leds|;
    var ledSize := LedSize(hasWhite);
    var buf := new uint8[|m.frames| * n * ledSize](_ => 0);
    assert buf.Length == |EncodeFrames(m.frames, hasWhite)| by {
      EncodeFramesLength(m.frames, n, hasWhite);
    }
    var start := 0;
    var i := 0;
    while i < |m.frames|
      invariant 0 <= i <= |m.frames|
      invariant start == |EncodeFrames(m.frames[..i], hasWhite)| <= buf.Length
      invariant buf[..start] == EncodeFrames(m.frames[..i], hasWhite)
    {
      start := FillFrame(buf, m.frames, i, start, hasWhite);
      i := i + 1;
    }
    assert m.frames[..i] == m.frames;
    assert buf[..start] == buf[..];
    bytes := buf[..];
  }

  /** The body of the outer loop: frame i written right after the frames
      before it; returns where the next frame starts. */
  method FillFrame(buf: array<uint8>, frames: seq<Frame>, i: nat, start: nat, hasWhite: bool) returns (next: nat)
    requires i < |frames| && buf.Length == |EncodeFrames(frames, hasWhite)|
    requires start == |EncodeFrames(frames[..i], hasWhite)| <= buf.Length
    requires buf[..start] == EncodeFrames(frames[..i], hasWhite)
    modifies buf
    ensures next == |EncodeFrames(frames[..i + 1], hasWhite)| <= buf.Length
    ensures buf[..next] == EncodeFrames(frames[..i + 1], hasWhite)
    ensures buf[next..] == old(buf[next..])
  {
    var leds := frames[i].leds;
    var ledSize := LedSize(hasWhite);
    FrameAppended(frames, i, hasWhite);
    ghost var frame := EncodeLeds(leds, hasWhite);
    next := start + |leds| * ledSize;
    ghost var encoded := buf[..start];
    ghost var rest := buf[next..];
    WriteFrame(buf, start, leds, hasWhite);
    PrefixOfSplice(buf[..], encoded, frame, rest);
  }

  /** The body of the inner loop: one LED's channels at its offset, every
      other byte unchanged. */
  method WriteLed(buf: array<uint8>, offset: nat, led: Led, hasWhite: bool)
    requires offset + LedSize(hasWhite) <= buf.Length
    modifies buf
    ensures buf[..] == old(buf[..offset]) + EncodeLed(led, hasWhite) + old(buf[offset + LedSize(hasWhite)..])
  {
    buf[offset] := led.Red();
    buf[offset + 1] := led.Green();
    buf[offset + 2] := led.Blue();
    if hasWhite {
      buf[offset + 3] := led.White();
    }
  }

  /** The inner loop of the population: the LEDs of one frame go one after
      another from the frame's first byte, channels in red, green, blue[,
      white] order; the bytes before and after the frame's slot are
      unchanged. The offset of LED j, written i * n * ledSize + j * ledSize
      in the source, is carried here as a running sum from the frame's
      start; MarshalLayout states where each LED ends up. */
  method WriteFrame(buf: array<uint8>, start: nat, leds: seq<Led>, hasWhite: bool)
    requires start + |leds| * LedSize(hasWhite) <= buf.Length
    modifies buf
    ensures buf[..] == old(buf[..start]) + EncodeLeds(leds, hasWhite) + old(buf[start + |leds| * LedSize(hasWhite)..])
  {
    var ledSize := LedSize(hasWhite);
    ghost var initial := buf[..];
    var offset := start;
    var j := 0;
    while j < |leds|
      invariant 0 <= j <= |leds|
      invariant offset + (|leds| - j) * ledSize == start + |leds| * ledSize
      invariant start + |EncodeLeds(leds[..j], hasWhite)| == offset
      invariant buf[..] == initial[..start] + EncodeLeds(leds[..j], hasWhite) + initial[offset..]
    {
      ghost var current := buf[..];
      WriteLed(buf, offset, leds[j], hasWhite);
      SpliceLed(current, initial, start, offset, leds, j, hasWhite);
      j := j + 1;
      offset := offset + ledSize;
    }
    assert leds[..j] == leds;
  }

  /** Writing LED j right after the first j encoded LEDs: the encoded
      part grows by that LED and the untouched tail shrinks by its size. */
  lemma SpliceLed(current: seq<uint8>, initial: seq<uint8>, start: nat, pos: nat,
                  leds: seq<Led>, j: nat, hasWhite: bool)
    requires j < |leds| && start <= pos && pos + LedSize(hasWhite) <= |initial|
    requires start + |EncodeLeds(leds[..j], hasWhite)| == pos
    requires current == initial[..start] + EncodeLeds(leds[..j], hasWhite) + initial[pos..]
    ensures current[..pos] + EncodeLed(leds[j], hasWhite) + current[pos + LedSize(hasWhite)..]
      == initial[..start] + EncodeLeds(leds[..j + 1], hasWhite) + initial[pos + LedSize(hasWhite)..]
  {
    var done := initial[..start] + EncodeLeds(leds[..j], hasWhite);
    var slot := EncodeLed(leds[j], hasWhite);
    assert current[..pos] == done;
    assert current[pos + |slot|..] == initial[pos + |slot|..];
    assert leds[..j + 1][..j] == leds[..j];
    assert EncodeLeds(leds[..j + 1], hasWhite) == EncodeLeds(leds[..j], hasWhite) + slot;
  }

  /** The prefix of a three-part buffer up to the end of its middle part. */
  lemma PrefixOfSplice(whole: seq<uint8>, a: seq<uint8>, b: seq<uint8>, c: seq<uint8>)
    requires whole == a + b + c
    ensures whole[..|a| + |b|] == a + b
  {
    assert whole[..|a| + |b|] == (a + b + c)[..|a + b|];
  }

  /** LedMovie.Marshal: validate, then encode. */
  method Marshal(m: LedMovie) returns (r: Result<seq<uint8>, MarshalError>)
    ensures r == MarshalSpec(m)
  {
    var format := CheckFrames(m);
    if format.Err? {
      return Err(format.error);
    }
    ValidateOk(m);
    var bytes := FillBuffer(m, format.value);
    return Ok(bytes);
  }

  // Arithmetic of the buffer layout.


  lemma SlotsOfFrame(i: nat, n: nat, ledSize: nat, count: nat)
    requires i < count
    ensures (i + 1) * n * ledSize == i * n * ledSize + n * ledSize
    ensures (i + 1) * n * ledSize <= count * n * ledSize
  {
    assert (i + 1) * n == i * n + n;
    assert (i + 1) * n * ledSize == (i * n + n) * ledSize == i * n * ledSize + n * ledSize;
    assert count * n * ledSize == (i + 1) * n * ledSize + (count - (i + 1)) * n * ledSize by {
      assert count * n == (i + 1) * n + (count - (i + 1)) * n;
    }
  }

  lemma OffsetInMovie(i: nat, j: nat, n: nat, ledSize: nat, count: nat)
    requires i < count && j < n
    ensures Offset(i, j, n, ledSize) + ledSize <= count * n * ledSize
  {
    SlotsOfFrame(i, n, ledSize, count);
    SlotOfLed(j, n, ledSize);
  }

  lemma SlotOfLed(j: nat, n: nat, ledSize: nat)
    requires j < n
    ensures j * ledSize + ledSize <= n * ledSize
    ensures (j + 1) * ledSize == j * ledSize + ledSize
  {
    assert n * ledSize == (j + 1) * ledSize + (n - (j + 1)) * ledSize;
  }

  // The validation scan.

  lemma {:induction false} ScanOkIff(frames: seq<Frame>, i: nat, n: nat, hasWhite: bool)
    requires i <= |frames|
    ensures ScanFrom(frames, i, n, hasWhite).Ok? <==>
      forall k :: i <= k < |frames| ==> FrameFits(frames[k], n, hasWhite)
    ensures ScanFrom(frames, i, n, hasWhite).Ok? ==> ScanFrom(frames, i, n, hasWhite).value == hasWhite
    decreases |frames| - i
  {
    if i < |frames| {
      ScanOkIff(frames, i + 1, n, hasWhite);
    }
  }

  lemma {:induction false} ScanSkipsFitting(frames: seq<Frame>, i: nat, n: nat, hasWhite: bool)
    requires i <= |frames|
    requires forall k :: 0 <= k < i ==> FrameFits(frames[k], n, hasWhite)
    ensures ScanFrom(frames, 0, n, hasWhite) == ScanFrom(frames, i, n, hasWhite)
  {
    if i > 0 {
      ScanSkipsFitting(frames, i - 1, n, hasWhite);
    }
  }

  /** Marshal accepts exactly the movies that have a frame and whose every
      frame has frame 0's non-zero LED count and the first LED's format. */
  lemma ValidateOk(m: LedMovie)
    ensures Validate(m).Ok? <==> |m.frames| > 0 && forall k :: 0 <= k < |m.frames| ==> Good(m, k)
    ensures Validate(m).Ok? ==>
      Uniform(m.frames, |m.frames[0].leds|) && |m.frames[0].leds| > 0 &&
      Validate(m).value == m.frames[0].leds[0].HasWhite()
    ensures Validate(m).Ok? ==>
      forall k, j :: 0 <= k < |m.frames| && 0 <= j < |m.frames[k].leds| ==>
        m.frames[k].leds[j].HasWhite() == m.frames[0].leds[0].HasWhite()
  {
    if |m.frames| > 0 {
      var n, w := |m.frames[0].leds|, RefWhite(m);
      ScanOkIff(m.frames, 0, n, w);
      if Validate(m).Ok? {
        forall k | 0 <= k < |m.frames| ensures Good(m, k) {
          assert FrameFits(m.frames[k], n, w);
        }
        assert Good(m, 0);
      }
      if forall k :: 0 <= k < |m.frames| ==> Good(m, k) {
        forall k | 0 <= k < |m.frames| ensures FrameFits(m.frames[k], n, w) {
          assert Good(m, k);
        }
      }
    }
  }

  /** The first frame that fails a check decides the error, and the checks
      on that frame run in the order empty, count, white. */
  lemma FirstBadFrameError(m: LedMovie, i: nat)
    requires i < |m.frames|
    requires forall k :: 0 <= k < i ==> Good(m, k)
    requires !Good(m, i)
    ensures |m.frames[i].leds| == 0 ==> MarshalSpec(m) == Err(EmptyFrame(i))
    ensures 0 < |m.frames[i].leds| != |m.frames[0].leds| ==> MarshalSpec(m) == Err(InconsistentLedCount)
    ensures 0 < |m.frames[i].leds| == |m.frames[0].leds| ==> MarshalSpec(m) == Err(InconsistentWhite)
  {
    var n, w := |m.frames[0].leds|, RefWhite(m);
    forall k | 0 <= k < i ensures FrameFits(m.frames[k], n, w) {
      assert Good(m, k);
    }
    ScanSkipsFitting(m.frames, i, n, w);
  }

  lemma {:induction false} ScanEmptyFrame(frames: seq<Frame>, s: nat, n: nat, hasWhite: bool, i: nat)
    requires s <= |frames|
    requires ScanFrom(frames, s, n, hasWhite) == Err(EmptyFrame(i))
    ensures s <= i < |frames| && |frames[i].leds| == 0
    ensures forall k :: s <= k < i ==> FrameFits(frames[k], n, hasWhite)
    decreases |frames| - s
  {
    if |frames[s].leds| != 0 {
      ScanEmptyFrame(frames, s + 1, n, hasWhite, i);
    }
  }

  /** An EmptyFrame error names a frame that is empty and that the scan
      reached: every earlier frame passed all its checks. */
  lemma EmptyFrameIsFirstReached(m: LedMovie, i: nat)
    requires MarshalSpec(m) == Err(EmptyFrame(i))
    ensures i < |m.frames| && |m.frames[i].leds| == 0
    ensures forall k :: 0 <= k < i ==> Good(m, k)
  {
    var n, w := |m.frames[0].leds|, RefWhite(m);
    ScanEmptyFrame(m.frames, 0, n, w, i);
    forall k | 0 <= k < i ensures Good(m, k) {
      assert FrameFits(m.frames[k], n, w);
    }
  }

  lemma {:induction false} FirstBadExists(m: LedMovie, k: nat)
    requires k < |m.frames| && !Good(m, k)
    ensures exists i :: 0 <= i <= k && !Good(m, i) && forall k' :: 0 <= k' < i ==> Good(m, k')
  {
    if forall k' :: 0 <= k' < k ==> Good(m, k') {
      assert !Good(m, k) && forall k' :: 0 <= k' < k ==> Good(m, k');
    } else {
      var k' :| 0 <= k' < k && !Good(m, k');
      FirstBadExists(m, k');
    }
  }

  /** A movie holding both an RGB and an RGBW LED is rejected for its
      format, wherever the two appear, as long as the LED counts agree. */
  lemma MixedFormatRejected(m: LedMovie, i1: nat, j1: nat, i2: nat, j2: nat)
    requires forall k :: 0 <= k < |m.frames| ==> 0 < |m.frames[k].leds| == |m.frames[0].leds|
    requires i1 < |m.frames| && j1 < |m.frames[i1].leds| && !m.frames[i1].leds[j1].HasWhite()
    requires i2 < |m.frames| && j2 < |m.frames[i2].leds| && m.frames[i2].leds[j2].HasWhite()
    ensures MarshalSpec(m) == Err(InconsistentWhite)
  {
    var bad := if RefWhite(m) then i1 else i2;
    assert !Good(m, bad);
    FirstBadExists(m, bad);
    var i :| 0 <= i <= bad && !Good(m, i) && forall k' :: 0 <= k' < i ==> Good(m, k');
    FirstBadFrameError(m, i);
  }

  /** A movie of non-empty frames in one format is rejected for its LED
      count as soon as one frame's count differs from frame 0's. */
  lemma InconsistentCountRejected(m: LedMovie, k: nat)
    requires forall k' :: 0 <= k' < |m.frames| ==> 0 < |m.frames[k'].leds|
    requires forall k' :: 0 <= k' < |m.frames| ==> AllWhiteAs(m.frames[k'].leds, RefWhite(m))
    requires k < |m.frames| && |m.frames[k].leds| != |m.frames[0].leds|
    ensures MarshalSpec(m) == Err(InconsistentLedCount)
  {
    assert !Good(m, k);
    FirstBadExists(m, k);
    var i :| 0 <= i <= k && !Good(m, i) && forall k' :: 0 <= k' < i ==> Good(m, k');
    FirstBadFrameError(m, i);
  }

  lemma ZeroFramesRejected(m: LedMovie)
    requires |m.frames| == 0
    ensures MarshalSpec(m) == Err(EmptyMovie)
  {
  }

  // The encoding.

  lemma {:induction false} EncodeLedsLength(leds: seq<Led>, hasWhite: bool)
    ensures |EncodeLeds(leds, hasWhite)| == |leds| * LedSize(hasWhite)
    decreases |leds|
  {
    if leds != [] {
      EncodeLedsLength(leds[..|leds| - 1], hasWhite);
    }
  }

  lemma {:induction false} EncodeFramesLength(frames: seq<Frame>, n: nat, hasWhite: bool)
    requires Uniform(frames, n)
    ensures |EncodeFrames(frames, hasWhite)| == |frames| * n * LedSize(hasWhite)
    decreases |frames|
  {
    if frames != [] {
      var init := frames[..|frames| - 1];
      assert Uniform(init, n) by {
        forall k | 0 <= k < |init| ensures |init[k].leds| == n { assert init[k] == frames[k]; }
      }
      EncodeFramesLength(init, n, hasWhite);
      EncodeLedsLength(frames[|frames| - 1].leds, hasWhite);
      SlotsOfFrame(|init|, n, LedSize(hasWhite), |frames|);
    }
  }

  lemma {:induction false} EncodeLedsAt(leds: seq<Led>, hasWhite: bool, j: nat)
    requires j < |leds|
    ensures j * LedSize(hasWhite) + LedSize(hasWhite) <= |EncodeLeds(leds, hasWhite)|
    ensures EncodeLeds(leds, hasWhite)[j * LedSize(hasWhite)..j * LedSize(hasWhite) + LedSize(hasWhite)]
      == EncodeLed(leds[j], hasWhite)
    decreases |leds|
  {
    var size := LedSize(hasWhite);
    var init := leds[..|leds| - 1];
    EncodeLedsLength(leds, hasWhite);
    EncodeLedsLength(init, hasWhite);
    SlotOfLed(j, |leds|, size);
    var e := EncodeLeds(leds, hasWhite);
    assert e == EncodeLeds(init, hasWhite) + EncodeLed(leds[|leds| - 1], hasWhite);
    if j < |init| {
      EncodeLedsAt(init, hasWhite, j);
      SlotOfLed(j, |init|, size);
      assert init[j] == leds[j];
      SliceOfConcat(EncodeLeds(init, hasWhite), EncodeLed(leds[|leds| - 1], hasWhite), j * size, j * size + size);
    } else {
      assert j * size == |EncodeLeds(init, hasWhite)|;
      SliceOfConcat(EncodeLeds(init, hasWhite), EncodeLed(leds[|leds| - 1], hasWhite), j * size, j * size + size);
    }
  }

  /** Frame i appended to the encoding of the frames before it, and the
      result still fits in the encoding of the whole movie. */
  lemma FrameAppended(frames: seq<Frame>, i: nat, hasWhite: bool)
    requires i < |frames|
    ensures EncodeFrames(frames[..i + 1], hasWhite) == EncodeFrames(frames[..i], hasWhite) + EncodeLeds(frames[i].leds, hasWhite)
    ensures |EncodeFrames(frames[..i + 1], hasWhite)| <= |EncodeFrames(frames, hasWhite)|
    ensures |EncodeLeds(frames[i].leds, hasWhite)| == |frames[i].leds| * LedSize(hasWhite)
  {
    assert frames[..i + 1][..i] == frames[..i];
    EncodedPrefixFits(frames, i + 1, hasWhite);
    EncodeLedsLength(frames[i].leds, hasWhite);
  }

  /** The encoding of the first k frames is no longer than that of all of them. */
  lemma {:induction false} EncodedPrefixFits(frames: seq<Frame>, k: nat, hasWhite: bool)
    requires k <= |frames|
    ensures |EncodeFrames(frames[..k], hasWhite)| <= |EncodeFrames(frames, hasWhite)|
    decreases |frames|
  {
    if k < |frames| {
      var init := frames[..|frames| - 1];
      assert init[..k] == frames[..k];
      EncodedPrefixFits(init, k, hasWhite);
    } else {
      assert frames[..k] == frames;
    }
  }

  lemma SliceOfConcat(a: seq<uint8>, b: seq<uint8>, lo: nat, hi: nat)
    requires lo <= hi <= |a| + |b|
    ensures hi <= |a| ==> (a + b)[lo..hi] == a[lo..hi]
    ensures |a| <= lo ==> (a + b)[lo..hi] == b[lo - |a|..hi - |a|]
  {
  }

  lemma {:induction false} EncodeFramesAt(frames: seq<Frame>, n: nat, hasWhite: bool, i: nat, j: nat)
    requires Uniform(frames, n) && i < |frames| && j < n
    ensures |EncodeFrames(frames, hasWhite)| == |frames| * n * LedSize(hasWhite)
    ensures Offset(i, j, n, LedSize(hasWhite)) + LedSize(hasWhite) <= |EncodeFrames(frames, hasWhite)|
    ensures
      var o := Offset(i, j, n, LedSize(hasWhite));
      EncodeFrames(frames, hasWhite)[o..o + LedSize(hasWhite)] == EncodeLed(frames[i].leds[j], hasWhite)
    decreases |frames|
  {
    var size := LedSize(hasWhite);
    var init := frames[..|frames| - 1];
    var o := Offset(i, j, n, size);
    assert Uniform(init, n) by {
      forall k | 0 <= k < |init| ensures |init[k].leds| == n { assert init[k] == frames[k]; }
    }
    EncodeFramesLength(frames, n, hasWhite);
    EncodeFramesLength(init, n, hasWhite);
    OffsetInMovie(i, j, n, size, |frames|);
    var head := EncodeFrames(init, hasWhite);
    var tail := EncodeLeds(frames[|frames| - 1].leds, hasWhite);
    assert EncodeFrames(frames, hasWhite) == head + tail;
    if i < |init| {
      EncodeFramesAt(init, n, hasWhite, i, j);
      assert init[i] == frames[i];
      SliceOfConcat(head, tail, o, o + size);
    } else {
      EncodeLedsAt(frames[i].leds, hasWhite, j);
      assert o == |head| + j * size;
      SliceOfConcat(head, tail, o, o + size);
    }
  }

  /** On success the buffer has exactly frames x LEDs x (3 or 4) bytes,
      the width fixed by the first LED's format. */
  lemma MarshalSize(m: LedMovie)
    requires MarshalSpec(m).Ok?
    ensures |m.frames| > 0 && |m.frames[0].leds| > 0
    ensures |MarshalSpec(m).value|
      == |m.frames| * |m.frames[0].leds| * LedSize(m.frames[0].leds[0].HasWhite())
  {
    ValidateOk(m);
    EncodeFramesLength(m.frames, |m.frames[0].leds|, m.frames[0].leds[0].HasWhite());
  }

  /** On success the buffer holds every frame, LED and channel in place:
      its size is frames x LEDs x (3 or 4), and LED j of frame i starts at
      Offset(i, j) with red, green, blue and, for RGBW only, white. */
  lemma MarshalLayout(m: LedMovie, i: nat, j: nat)
    requires MarshalSpec(m).Ok?
    requires i < |m.frames| && j < |m.frames[i].leds|
    ensures
      var n, led := |m.frames[0].leds|, m.frames[i].leds[j];
      var size := LedSize(led.HasWhite());
      var buf := MarshalSpec(m).value;
      var o := Offset(i, j, n, size);
      |buf| == |m.frames| * n * size && o + size <= |buf| &&
      buf[o] == led.Red() && buf[o + 1] == led.Green() && buf[o + 2] == led.Blue() &&
      (led.HasWhite() ==> buf[o + 3] == led.White())
  {
    ValidateOk(m);
    var n, hasWhite := |m.frames[0].leds|, m.frames[0].leds[0].HasWhite();
    var led := m.frames[i].leds[j];
    assert led.HasWhite() == hasWhite;
    var buf := EncodeFrames(m.frames, hasWhite);
    assert MarshalSpec(m).value == buf;
    var size := LedSize(hasWhite);
    EncodeFramesAt(m.frames, n, hasWhite, i, j);
    var o := Offset(i, j, n, size);
    var slot := buf[o..o + size];
    assert slot == EncodeLed(led, hasWhite);
    assert buf[o] == slot[0] && buf[o + 1] == slot[1] && buf[o + 2] == slot[2];
    assert hasWhite ==> buf[o + 3] == slot[3];
  }

  /** One RGB frame of red, green and blue encodes to FF 00 00 00 FF 00 00 00 FF. */
  lemma RgbFrameExample()
    ensures MarshalSpec(LedMovie([Frame([NewRgbLed(0xFF, 0, 0), NewRgbLed(0, 0xFF, 0), NewRgbLed(0, 0, 0xFF)])]))
      == Ok([0xFF, 0, 0, 0, 0xFF, 0, 0, 0, 0xFF])
  {
    var leds := [NewRgbLed(0xFF, 0, 0), NewRgbLed(0, 0xFF, 0), NewRgbLed(0, 0, 0xFF)];
    var m := LedMovie([Frame(leds)]);
    assert AllWhiteAs(leds, false);
    assert ScanFrom(m.frames, 1, 3, false) == Ok(false);
    assert Validate(m) == Ok(false);
    assert m.frames[..0] == [];
    assert leds[..2][..1] == leds[..1] && leds[..1][..0] == [] && leds[..3][..2] == leds[..2];
    assert EncodeLeds(leds[..0], false) == [];
    assert EncodeLeds(leds[..1], false) == [0xFF, 0, 0];
    assert EncodeLeds(leds[..2], false) == [0xFF, 0, 0, 0, 0xFF, 0];
    assert EncodeFrames(m.frames, false) == EncodeLeds(leds, false);
    assert EncodeLeds(leds, false) == EncodeLeds(leds[..2], false) + EncodeLed(leds[2], false);
    assert MarshalSpec(m) == Ok(EncodeFrames(m.frames, false));
    assert EncodeLeds(leds, false) == [0xFF, 0, 0, 0, 0xFF, 0, 0, 0, 0xFF];
  }

  /** One RGBW LED (10, 20, 30, 40) encodes to 0A 14 1E 28. */
  lemma RgbwLedExample()
    ensures MarshalSpec(LedMovie([Frame([NewRgbwLed(10, 20, 30, 40)])])) == Ok([0x0A, 0x14, 0x1E, 0x28])
  {
    var leds := [NewRgbwLed(10, 20, 30, 40)];
    var m := LedMovie([Frame(leds)]);
    assert AllWhiteAs(leds, true);
    assert ScanFrom(m.frames, 1, 1, true) == Ok(true);
    assert Validate(m) == Ok(true);
    assert m.frames[..0] == [] && leds[..0] == [];
    assert EncodeFrames(m.frames, true) == EncodeLeds(leds, true);
    assert EncodeLeds(leds, true) == EncodeLeds(leds[..0], true) + EncodeLed(leds[0], true);
    assert EncodeLed(leds[0], true) == [0x0A, 0x14, 0x1E, 0x28];
    assert MarshalSpec(m) == Ok(EncodeFrames(m.frames, true));
    assert EncodeLeds(leds[..0], true) == [];
    assert EncodeLeds(leds, true) == [0x0A, 0x14, 0x1E, 0x28];
    assert MarshalSpec(m) == Ok([0x0A, 0x14, 0x1E, 0x28]);
  }
}
