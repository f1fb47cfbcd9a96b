/**
 * The segmented MP3 writer of `src/writer.rs`: PCM conversion, the segment
 * capacity derived from a duration, and the `Mp3Splitter` state machine that
 * spreads a stream of frames over files `{prefix}_000.mp3`, `{prefix}_001.mp3`, ...
 *
 * The codec and the file system are opaque here. Each output file is a record
 * of the index its name was formatted from, its frame count, and whether its
 * encoder tail was written and the file flushed; the PCM handed to the
 * encoders is kept as one stream.
 */
module Writer {
  import opened Base
  import opened SegmentNames

  const U64_MAX: int := 0xFFFF_FFFF_FFFF_FFFF
  const U128_LIMIT: int := 0x1_0000_0000_0000_0000_0000_0000_0000_0000
  const NANOS_PER_SEC: int := 1_000_000_000
  const I16_MAX: int := 32767

  /** `SAMPLE_RATE` and `CHANNELS` of the program: 24 kHz mono. */
  const SAMPLE_RATE: U32 := 24_000
  const CHANNELS: nat := 1

  type U32 = x: int | 0 <= x <= 0xFFFF_FFFF
  type U64 = x: int | 0 <= x <= 0xFFFF_FFFF_FFFF_FFFF
  type SubsecNanos = x: int | 0 <= x < 1_000_000_000

  /** `std::time::Duration`: whole seconds and the nanoseconds below one second. */
  datatype Duration = Duration(secs: U64, subsecNanos: SubsecNanos)

  /** `Duration::as_nanos`. */
  function AsNanos(d: Duration): nat
  {
    d.secs * NANOS_PER_SEC + d.subsecNanos
  }

  /** The settings handed to the MP3 encoder. */
  datatype EncoderConfig = EncoderConfig(sampleRate: U32, bitrateKbps: nat, channels: nat)

  datatype ConfigError = InvalidConfig | DurationTooSmall | DurationTooLarge

  datatype WriteError =
    | UnsupportedChannels
    | PartialFrame
    | NotMono
    | CreateFileFailed(path: string)
    | CreateEncoderFailed
    | EncodeFailed
    | WriteBlockFailed
    | FinishFailed
    | WriteTailFailed
    | FlushFailed

  /** The largest duration times the largest sample rate still fits in a `u128`. */
  lemma ProductFitsU128(sampleRate: U32, d: Duration)
    ensures AsNanos(d) * sampleRate < U128_LIMIT
  {
    var n := AsNanos(d);
    assert n < 0x1_0000_0000_0000_0000 * NANOS_PER_SEC;
    assert NANOS_PER_SEC < 0x4000_0000;
    assert n < 0x4000_0000_0000_0000_0000_0000;
    assert n * sampleRate <= n * 0xFFFF_FFFF by {
      assert n * (0xFFFF_FFFF - sampleRate) >= 0;
    }
    assert n * 0xFFFF_FFFF < 0x4000_0000_0000_0000_0000_0000 * 0x1_0000_0000;
  }

  /**
   * `frames_for_duration`: the number of whole frames of `sampleRate` that fit
   * in `d`, or an error when that is zero or does not fit in a `u64`.
   */
  function FramesForDuration(sampleRate: U32, d: Duration): (r: Result<U64, ConfigError>)
    ensures r.Ok? ==>
      && 1 <= r.value
      && r.value * NANOS_PER_SEC <= AsNanos(d) * sampleRate < (r.value + 1) * NANOS_PER_SEC
    ensures r == Err(DurationTooSmall) <==> AsNanos(d) * sampleRate < NANOS_PER_SEC
    ensures r == Err(DurationTooLarge) <==> AsNanos(d) * sampleRate >= (U64_MAX + 1) * NANOS_PER_SEC
    ensures r.Ok? || r == Err(DurationTooSmall) || r == Err(DurationTooLarge)
  {
    ProductFitsU128(sampleRate, d);
    var frames := (AsNanos(d) * sampleRate) / NANOS_PER_SEC;
    if frames == 0 then Err(DurationTooSmall)
    else if frames > U64_MAX then Err(DurationTooLarge)
    else Ok(frames)
  }

  /** A longer duration never yields fewer frames per file. */
  lemma {:induction false} FramesForDurationMonotonic(sampleRate: U32, d1: Duration, d2: Duration)
    requires AsNanos(d1) <= AsNanos(d2)
    requires FramesForDuration(sampleRate, d1).Ok? && FramesForDuration(sampleRate, d2).Ok?
    ensures FramesForDuration(sampleRate, d1).value <= FramesForDuration(sampleRate, d2).value
  {
    var a, b := FramesForDuration(sampleRate, d1).value, FramesForDuration(sampleRate, d2).value;
    var x1, x2 := AsNanos(d1) * sampleRate, AsNanos(d2) * sampleRate;
    assert x1 <= x2 by {
      MulMonotonic(AsNanos(d1), AsNanos(d2), sampleRate);
    }
    assert a * NANOS_PER_SEC <= x1 && x2 < (b + 1) * NANOS_PER_SEC;
  }

  lemma MulMonotonic(a: nat, b: nat, k: nat)
    requires a <= b
    ensures a * k <= b * k
  {
    assert b * k == a * k + (b - a) * k;
  }

  function Clamp(x: real): (y: real)
    ensures -1.0 <= y <= 1.0
    ensures -1.0 <= x <= 1.0 ==> y == x
    ensures x < -1.0 ==> y == -1.0
    ensures x > 1.0 ==> y == 1.0
  {
    if x < -1.0 then -1.0 else if x > 1.0 then 1.0 else x
  }

  /**
   * `f32_to_i16`: clamp to [-1, 1], scale by `i16::MAX`, truncate toward zero
   * (the `as i16` cast). Samples are exact reals here.
   */
  function ToPcm16(x: real): (p: int)
    ensures -I16_MAX <= p <= I16_MAX
  {
    var scaled := Clamp(x) * I16_MAX as real;
    if scaled >= 0.0 then scaled.Floor else -((-scaled).Floor)
  }

  /**
   * The converted sample is an `i16` other than `i16::MIN`, lies within one
   * unit of the scaled sample, and keeps its sign, rounding toward zero.
   */
  lemma ToPcm16Bounds(x: real)
    ensures -I16_MAX <= ToPcm16(x) <= I16_MAX
    ensures -1.0 < ToPcm16(x) as real - Clamp(x) * I16_MAX as real < 1.0
    ensures x >= 0.0 ==> 0 <= ToPcm16(x) && ToPcm16(x) as real <= Clamp(x) * I16_MAX as real
    ensures x <= 0.0 ==> ToPcm16(x) <= 0 && Clamp(x) * I16_MAX as real <= ToPcm16(x) as real
  {
  }

  /** The interleaved `i16` buffer built from a run of `f32` samples. */
  function Pcm(samples: seq<real>): (pcm: seq<int>)
    ensures |pcm| == |samples|
  {
    seq(|samples|, i requires 0 <= i < |samples| => ToPcm16(samples[i]))
  }

  /** Converting a buffer piece by piece converts the whole buffer. */
  lemma PcmAppend(a: seq<real>, b: seq<real>)
    ensures Pcm(a + b) == Pcm(a) + Pcm(b)
  {
  }

  /** Converting the first `a` samples and then the next `b - a` converts the first `b`. */
  lemma PcmPrefix(samples: seq<real>, a: nat, b: nat)
    requires a <= b <= |samples|
    ensures Pcm(samples[..a]) + Pcm(samples[a..b]) == Pcm(samples[..b])
  {
    assert samples[..a] + samples[a..b] == samples[..b];
    PcmAppend(samples[..a], samples[a..b]);
  }

  /** What was fed after the first `m` samples lies between the old PCM and the whole call's. */
  lemma FedWithin(fed: seq<int>, samples: seq<real>, m: nat)
    requires m <= |samples|
    ensures fed <= fed + Pcm(samples[..m]) <= fed + Pcm(samples)
  {
    PcmPrefix(samples, m, |samples|);
    assert samples[..|samples|] == samples;
  }

  /** Feeding the samples in `[lo, hi)` after the first `lo` feeds the first `hi`. */
  lemma FedStep(fed: seq<int>, samples: seq<real>, lo: nat, hi: nat, before: seq<int>, after: seq<int>)
    requires lo <= hi <= |samples|
    requires before == fed + Pcm(samples[..lo]) && after == before + Pcm(samples[lo..hi])
    ensures after == fed + Pcm(samples[..hi])
  {
    PcmPrefix(samples, lo, hi);
    assert after == fed + (Pcm(samples[..lo]) + Pcm(samples[lo..hi]));
  }

  /**
   * The sample position where frame `frames` starts in an interleaved buffer of
   * `ch` channels (`frames * ch`), spelled out for the two channel counts the
   * splitter accepts.
   */
  function SampleIndex(frames: nat, ch: nat): nat
    requires ch == 1 || ch == 2
  {
    if ch == 1 then frames else frames + frames
  }

  /** A buffer of whole frames holds `len / ch` of them. */
  lemma WholeFrames(len: nat, ch: nat)
    requires (ch == 1 || ch == 2) && len % ch == 0
    ensures SampleIndex(len / ch, ch) == len
  {
  }

  /**
   * One output file: the index its name was formatted from (the file is
   * `SegmentName(prefix, number)`), the frames its encoder received, and
   * whether the encoder tail was written and the file flushed.
   */
  datatype OutFile = OutFile(number: nat, frames: nat, finished: bool)

  /** The frame count of every file, in creation order. */
  function FrameCounts(files: seq<OutFile>): (fr: seq<nat>)
    ensures |fr| == |files|
  {
    seq(|files|, i requires 0 <= i < |files| => files[i].frames)
  }

  function Sum(fr: seq<nat>): nat
  {
    if fr == [] then 0 else Sum(fr[..|fr| - 1]) + fr[|fr| - 1]
  }

  function CeilDiv(s: nat, k: nat): nat
    requires k > 0
  {
    (s + k - 1) / k
  }

  /**
   * The frame counts a writer leaves when nothing failed: every file but the
   * last is full, none is over capacity, and a later file is never empty.
   */
  ghost predicate Tiled(fr: seq<nat>, k: nat)
  {
    && (forall i :: 0 <= i < |fr| ==> fr[i] <= k)
    && (forall i :: 0 <= i < |fr| - 1 ==> fr[i] == k)
    && (|fr| > 1 ==> fr[|fr| - 1] > 0)
  }

  lemma {:induction false} SumOfFull(fr: seq<nat>, k: nat)
    requires forall i :: 0 <= i < |fr| ==> fr[i] == k
    ensures Sum(fr) == |fr| * k
  {
    if fr != [] {
      SumOfFull(fr[..|fr| - 1], k);
    }
  }

  /** A tiled sequence of files holds `(n - 1) * k` frames plus its last file's. */
  lemma TiledSum(fr: seq<nat>, k: nat)
    requires Tiled(fr, k) && fr != []
    ensures Sum(fr) == (|fr| - 1) * k + fr[|fr| - 1]
  {
    SumOfFull(fr[..|fr| - 1], k);
  }

  /**
   * The number of files is ceil(total / capacity) for a non-empty stream, and
   * at most one (segment 0, opened by a first empty write) for an empty one.
   */
  lemma SegmentCount(fr: seq<nat>, k: nat)
    requires k > 0 && Tiled(fr, k)
    ensures Sum(fr) > 0 ==> |fr| == CeilDiv(Sum(fr), k)
    ensures Sum(fr) == 0 ==> |fr| <= 1
  {
    if fr != [] {
      TiledSum(fr, k);
      var n, last := |fr|, fr[|fr| - 1];
      if Sum(fr) > 0 {
        assert 1 <= last <= k;
        assert Sum(fr) + k - 1 == n * k + (last - 1);
        assert 0 <= last - 1 < k;
        DivOfMultiplePlus(n, k, last - 1);
      }
    }
  }

  lemma DivOfMultiplePlus(n: nat, k: nat, r: nat)
    requires k > 0 && r < k
    ensures (n * k + r) / k == n
  {
    var q, m := (n * k + r) / k, (n * k + r) % k;
    assert q * k + m == n * k + r;
    if q > n {
      assert (q - n) * k == r - m;
      MulMonotonic(1, q - n, k);
      assert false;
    } else if q < n {
      assert (n - q) * k == m - r;
      MulMonotonic(1, n - q, k);
      assert false;
    }
  }

  /**
   * Where the segment boundaries fall depends only on the total number of
   * frames written: two tiled writers with the same total have the same files.
   */
  lemma TilingDeterminedByTotal(fr1: seq<nat>, fr2: seq<nat>, k: nat)
    requires k > 0 && Tiled(fr1, k) && Tiled(fr2, k)
    requires fr1 != [] && fr2 != [] && Sum(fr1) == Sum(fr2)
    ensures fr1 == fr2
  {
    SegmentCount(fr1, k);
    SegmentCount(fr2, k);
    TiledSum(fr1, k);
    TiledSum(fr2, k);
    assert |fr1| == |fr2|;
    assert fr1[|fr1| - 1] == fr2[|fr2| - 1];
  }

  /** The files after the open one (the last) has been finished, when `open`. */
  function Closed(files: seq<OutFile>, open: bool): seq<OutFile>
  {
    if open && files != [] then files[|files| - 1 := files[|files| - 1].(finished := true)] else files
  }

  /** Finishing the last file leaves the frame counts alone. */
  lemma ClosedKeepsContent(files: seq<OutFile>, open: bool)
    ensures |Closed(files, open)| == |files|
    ensures FrameCounts(Closed(files, open)) == FrameCounts(files)
  {
    var g := Closed(files, open);
    if open && files != [] {
      assert g[..|g| - 1] == files[..|files| - 1];
    }
  }

  /** Finishing the last file of a tiled sequence leaves every file finished. */
  lemma ClosedAllFinished(files: seq<OutFile>, k: nat)
    requires FullBeforeLast(files, k)
    ensures forall i :: 0 <= i < |files| ==> Closed(files, true)[i].finished
  {
  }

  /** The files after rotating: the open one finished, a new empty one numbered `index` appended. */
  function Opened(files: seq<OutFile>, open: bool, index: nat): seq<OutFile>
  {
    Closed(files, open) + [OutFile(index, 0, false)]
  }

  /** Rotating adds one file and no frames. */
  lemma OpenedContent(files: seq<OutFile>, open: bool, index: nat)
    ensures |Opened(files, open, index)| == |files| + 1
    ensures Sum(FrameCounts(Opened(files, open, index))) == Sum(FrameCounts(files))
  {
    var c := Closed(files, open);
    ClosedKeepsContent(files, open);
    SumAppend(FrameCounts(c), 0);
    assert FrameCounts(c + [OutFile(index, 0, false)]) == FrameCounts(c) + [0];
  }

  /** The files after `take` more frames went into the last one. */
  function Grown(files: seq<OutFile>, take: nat): seq<OutFile>
    requires files != []
  {
    var f := files[|files| - 1];
    files[|files| - 1 := f.(frames := f.frames + take)]
  }

  /** Growing the last file adds its new frames to the total. */
  lemma GrownContent(files: seq<OutFile>, take: nat)
    requires files != []
    ensures |Grown(files, take)| == |files|
    ensures Sum(FrameCounts(Grown(files, take))) == Sum(FrameCounts(files)) + take
  {
    var g := Grown(files, take);
    var fr := FrameCounts(files);
    SumGrowLast(fr, take);
    assert FrameCounts(g) == fr[|fr| - 1 := fr[|fr| - 1] + take];
  }

  lemma SumAppend(fr: seq<nat>, x: nat)
    ensures Sum(fr + [x]) == Sum(fr) + x
  {
    assert (fr + [x])[..|fr|] == fr;
  }

  lemma SumGrowLast(fr: seq<nat>, x: nat)
    requires fr != []
    ensures Sum(fr[|fr| - 1 := fr[|fr| - 1] + x]) == Sum(fr) + x
  {
    var g := fr[|fr| - 1 := fr[|fr| - 1] + x];
    assert g[..|g| - 1] == fr[..|fr| - 1];
  }

  /** Files numbered 0, 1, 2, ... in creation order. */
  ghost predicate Numbered(files: seq<OutFile>)
  {
    forall i :: 0 <= i < |files| ==> files[i].number == i
  }

  /** Every file but the last holds exactly `k` frames and was finished. */
  ghost predicate FullBeforeLast(files: seq<OutFile>, k: nat)
  {
    forall i :: 0 <= i < |files| - 1 ==> files[i].frames == k && files[i].finished
  }

  /** Rotating away from a full last file keeps the numbering and the tiling. */
  lemma RotateKeepsTiling(files: seq<OutFile>, open: bool, k: nat)
    requires Numbered(files) && FullBeforeLast(files, k)
    requires files != [] ==> open && files[|files| - 1].frames == k
    ensures Numbered(Opened(files, open, |files|)) && FullBeforeLast(Opened(files, open, |files|), k)
  {
  }

  /** Growing the last file keeps the numbering and the tiling. */
  lemma GrowLastKeepsTiling(files: seq<OutFile>, f: OutFile, k: nat)
    requires Numbered(files) && FullBeforeLast(files, k)
    requires files != [] && f.number == files[|files| - 1].number
    ensures Numbered(files[|files| - 1 := f]) && FullBeforeLast(files[|files| - 1 := f], k)
  {
  }

  /**
   * `Mp3Splitter`. `out` and `enc` stand for the open `BufWriter<File>` and the
   * live encoder; each is identified by the position in `files` of the file it
   * writes. `files` is the view of the output directory: every file created, in
   * creation order.
   *
   * The file system and the codec library are foreign: their calls are numbered
   * in the order they are made, and call number `k` fails exactly when `k` is in
   * `ioFaults`. `ioCalls` counts the calls made so far.
   */
  class Mp3Splitter {
    const prefix: string
    const config: EncoderConfig
    /** Max frames (per channel) per file. */
    const framesPerFile: nat
    const ioFaults: set<nat>

    var index: nat
    var writtenFrames: nat
    var out: Option<nat>
    var enc: Option<nat>
    /** Scratch buffer of the last chunk converted to interleaved `i16`. */
    var pcmScratch: seq<int>
    var files: seq<OutFile>
    /** Every PCM sample handed to an encoder so far, in order. */
    ghost var fed: seq<int>
    var ioCalls: nat

    /** A file as this writer creates it, given the next index to be used. */
    ghost predicate WellFormed(f: OutFile, nextIndex: nat)
    {
      && f.frames <= framesPerFile
      && f.number < nextIndex
    }

    /** The object invariant; it holds after every call, failed or not. */
    ghost predicate Valid()
      reads this`writtenFrames, this`out, this`enc, this`files, this`index
    {
      && framesPerFile > 0
      && writtenFrames <= framesPerFile
      && out == enc
      && (out.Some? ==>
            && out.value == |files| - 1
            && !files[out.value].finished
            && files[out.value].frames == writtenFrames)
      && FilesOk(files, index)
    }

    /** Every file well formed, numbers strictly increasing in creation order. */
    ghost predicate FilesOk(fs: seq<OutFile>, nextIndex: nat)
    {
      && (forall i :: 0 <= i < |fs| ==> WellFormed(fs[i], nextIndex))
      && (forall i :: 0 <= i < |fs| - 1 ==> fs[i].number < fs[i + 1].number)
    }

    lemma CreateKeepsFilesOk(fs: seq<OutFile>, nextIndex: nat)
      requires FilesOk(fs, nextIndex)
      ensures FilesOk(fs + [OutFile(nextIndex, 0, false)], nextIndex + 1)
    {
      var f := OutFile(nextIndex, 0, false);
      var gs := fs + [f];
      if fs != [] {
        assert WellFormed(fs[|fs| - 1], nextIndex);
      }
    }

    lemma ReplaceLastKeepsFilesOk(fs: seq<OutFile>, nextIndex: nat, f: OutFile)
      requires FilesOk(fs, nextIndex) && fs != []
      requires f.number == fs[|fs| - 1].number
      requires f.frames <= framesPerFile
      ensures FilesOk(fs[|fs| - 1 := f], nextIndex)
    {
      var gs := fs[|fs| - 1 := f];
      assert forall i :: 0 <= i < |gs| ==> gs[i].number == fs[i].number;
    }

    /**
     * What holds while no foreign call has failed: the files are numbered 0, 1, 2, ...
     * by creation, every file but the last is full and finished, a started writer
     * has its last file open, and a file after the first is never left empty.
     */
    ghost predicate Healthy()
      reads this`writtenFrames, this`out, this`enc, this`files, this`index
    {
      Tidy() && (|files| > 1 ==> writtenFrames > 0)
    }

    /** `Healthy` except that a freshly rotated-to last file may still be empty. */
    ghost predicate Tidy()
      reads this`writtenFrames, this`out, this`enc, this`files, this`index
    {
      && Valid()
      && index == |files|
      && Numbered(files)
      && FullBeforeLast(files, framesPerFile)
      && (files != [] ==> out.Some?)
    }

    /** No foreign call numbered `from` or later fails. */
    ghost predicate FaultFreeFrom(from: nat)
    {
      forall k :: k in ioFaults ==> k < from
    }

    /** No foreign call numbered in [from, to) failed. */
    ghost predicate FaultFreeBetween(from: nat, to: nat)
    {
      forall k :: from <= k < to ==> k !in ioFaults
    }

    lemma FaultFreeSplit(a: nat, b: nat, c: nat)
      requires a <= b <= c
      ensures FaultFreeBetween(a, c) <==> FaultFreeBetween(a, b) && FaultFreeBetween(b, c)
    {
    }

    lemma HealthyIsTiled()
      requires Healthy()
      ensures Tiled(FrameCounts(files), framesPerFile)
    {
    }

    /** The segment count of a writer that never failed: ceil(frames / capacity). */
    lemma HealthySegmentCount()
      requires Healthy()
      ensures Sum(FrameCounts(files)) > 0 ==> |files| == CeilDiv(Sum(FrameCounts(files)), framesPerFile)
      ensures Sum(FrameCounts(files)) == 0 ==> |files| <= 1
    {
      HealthyIsTiled();
      SegmentCount(FrameCounts(files), framesPerFile);
    }

    constructor (prefix: string, config: EncoderConfig, framesPerFile: nat, ioFaults: set<nat>, ioCalls: nat)
      requires framesPerFile > 0
      ensures this.prefix == prefix && this.config == config
      ensures this.framesPerFile == framesPerFile && this.ioFaults == ioFaults
      ensures index == 0 && writtenFrames == 0 && out.None? && enc.None?
      ensures files == [] && fed == [] && pcmScratch == [] && this.ioCalls == ioCalls
      ensures Healthy()
    {
      this.prefix := prefix;
      this.config := config;
      this.framesPerFile := framesPerFile;
      this.ioFaults := ioFaults;
      this.ioCalls := ioCalls;
      index := 0;
      writtenFrames := 0;
      out := None;
      enc := None;
      pcmScratch := [];
      fed := [];
      files := [];
    }

    /**
     * `Mp3Splitter::new`: the encoder library's verdict on `config` (a foreign
     * call, given here as `configAccepted`) and the frame capacity are checked
     * before any file exists.
     */
    static method New(prefix: string, config: EncoderConfig, configAccepted: bool, segment: Duration, ioFaults: set<nat>)
      returns (r: Result<Mp3Splitter, ConfigError>)
      ensures !configAccepted ==> r == Err(InvalidConfig)
      ensures configAccepted && FramesForDuration(config.sampleRate, segment).Err? ==>
        r == Err(FramesForDuration(config.sampleRate, segment).error)
      ensures configAccepted && FramesForDuration(config.sampleRate, segment).Ok? ==> r.Ok?
      ensures r.Ok? ==>
        && fresh(r.value)
        && r.value.framesPerFile == FramesForDuration(config.sampleRate, segment).value
        && r.value.prefix == prefix && r.value.config == config && r.value.ioFaults == ioFaults
        && r.value.index == 0 && r.value.writtenFrames == 0
        && r.value.out.None? && r.value.enc.None?
        && r.value.files == [] && r.value.ioCalls == 0
        && r.value.Healthy()
    {
      if !configAccepted {
        return Err(InvalidConfig);
      }
      var frames := FramesForDuration(config.sampleRate, segment);
      if frames.Err? {
        return Err(frames.error);
      }
      var w := new Mp3Splitter(prefix, config, frames.value, ioFaults, 0);
      return Ok(w);
    }

    /** One call into the file system or the codec library. */
    method Foreign() returns (ok: bool)
      modifies this`ioCalls
      ensures ioCalls == old(ioCalls) + 1
      ensures ok <==> old(ioCalls) !in ioFaults
    {
      ok := ioCalls !in ioFaults;
      ioCalls := ioCalls + 1;
    }

    /**
     * `finish_current`: nothing to do when no file is open; otherwise take the
     * writer and the encoder, finish the encoder, write its tail, flush, and
     * only then reset the frame count.
     */
    method FinishCurrent() returns (r: Outcome<WriteError>)
      requires Valid()
      modifies this`files, this`out, this`enc, this`writtenFrames, this`ioCalls
      ensures Valid() && old(ioCalls) <= ioCalls
      ensures old(out).None? ==> r == Pass && unchanged(this)
      ensures old(out).Some? ==>
        && out.None? && enc.None?
        && files == Closed(old(files), r.Pass?)
        && writtenFrames == (if r.Pass? then 0 else old(writtenFrames))
        && (r.Pass? <==> FaultFreeBetween(old(ioCalls), ioCalls))
        && (r.Fail? ==> r.error in {FinishFailed, WriteTailFailed, FlushFailed})
    {
      if out.None? && enc.None? {
        return Pass;
      }
      ghost var start := ioCalls;
      var last := out.value;
      out := None;
      enc := None;
      var ok := Foreign();
      if !ok {
        assert !FaultFreeBetween(start, ioCalls) by { assert start in ioFaults; }
        return Fail(FinishFailed);
      }
      ok := Foreign();
      if !ok {
        assert !FaultFreeBetween(start, ioCalls) by { assert start + 1 in ioFaults; }
        return Fail(WriteTailFailed);
      }
      ok := Foreign();
      if !ok {
        assert !FaultFreeBetween(start, ioCalls) by { assert start + 2 in ioFaults; }
        return Fail(FlushFailed);
      }
      assert FaultFreeBetween(start, ioCalls);
      ClosedKeepsContent(files, true);
      assert last == |files| - 1 && WellFormed(files[last], index);
      ReplaceLastKeepsFilesOk(files, index, files[last].(finished := true));
      files := files[last := files[last].(finished := true)];
      writtenFrames := 0;
      return Pass;
    }
  
    /**
     * The part of `open_next` after `finish_current`: create the file named after
     * the current index, bump the index, create a fresh encoder and reset the frame
     * count. A file created before the encoder failed stays behind, empty.
     */
    method CreateSegment() returns (r: Outcome<WriteError>)
      requires Valid() && out.None?
      modifies this`index, this`files, this`out, this`enc, this`writtenFrames, this`ioCalls
      ensures Valid() && old(ioCalls) <= ioCalls && index == old(index) + 1
      ensures r.Pass? <==> FaultFreeBetween(old(ioCalls), ioCalls)
      ensures r.Fail? ==> out.None? && writtenFrames == old(writtenFrames)
      ensures r.Fail? ==> files == old(files) || files == old(files) + [OutFile(old(index), 0, false)]
      ensures r.Pass? ==>
        && files == old(files) + [OutFile(old(index), 0, false)]
        && out == Some(|files| - 1) && writtenFrames == 0
    {
      ghost var start := ioCalls;
      var number := index;
      index := index + 1;
      var ok := Foreign();
      if !ok {
        assert !FaultFreeBetween(start, ioCalls) by { assert start in ioFaults; }
        return Fail(CreateFileFailed(SegmentName(prefix, number)));
      }
      CreateKeepsFilesOk(files, number);
      files := files + [OutFile(number, 0, false)];
      ok := Foreign();
      if !ok {
        assert !FaultFreeBetween(start, ioCalls) by { assert start + 1 in ioFaults; }
        return Fail(CreateEncoderFailed);
      }
      out := Some(|files| - 1);
      enc := Some(|files| - 1);
      writtenFrames := 0;
      return Pass;
    }

    /**
     * `open_next`: finish the open file, then start the next one. A failure
     * leaves no file open.
     */
    method OpenNext() returns (r: Outcome<WriteError>)
      requires Valid()
      modifies this`index, this`files, this`out, this`enc, this`writtenFrames, this`ioCalls
      ensures Valid() && old(ioCalls) <= ioCalls
      ensures r.Pass? <==> FaultFreeBetween(old(ioCalls), ioCalls)
      ensures r.Fail? ==> out.None?
      ensures r.Pass? ==>
        && index == old(index) + 1
        && out == Some(|files| - 1) && writtenFrames == 0
        && files == Opened(old(files), old(out).Some?, old(index))
        && |files| == |old(files)| + 1
        && Sum(FrameCounts(files)) == old(Sum(FrameCounts(files)))
      ensures r.Pass? && old(Tidy()) && (old(out).Some? ==> old(writtenFrames) == framesPerFile) ==> Tidy()
    {
      ghost var start := ioCalls;
      ghost var fs0 := files;
      r := FinishCurrent();
      if r.Fail? {
        return;
      }
      ghost var fs1 := files;
      ghost var mid := ioCalls;
      ghost var tidy := old(Tidy()) && (old(out).Some? ==> old(writtenFrames) == framesPerFile);
      if tidy {
        RotateKeepsTiling(fs0, old(out).Some?, framesPerFile);
      }
      r := CreateSegment();
      assert FaultFreeBetween(start, ioCalls) <==> FaultFreeBetween(mid, ioCalls);
      if r.Pass? {
        OpenedContent(fs0, old(out).Some?, old(index));
      }
    }

    /**
     * One pass of the loop body of `write_f32_interleaved` after the capacity
     * check: convert `take` frames into the scratch buffer, encode them and write
     * the encoded blocks, then count them against the open file.
     */
    method FeedChunk(chunk: seq<real>, take: nat) returns (r: Outcome<WriteError>)
      requires Valid() && out.Some?
      requires 0 < take <= framesPerFile - writtenFrames
      requires (config.channels == 1 || config.channels == 2) && |chunk| == SampleIndex(take, config.channels)
      modifies this`pcmScratch, this`fed, this`files, this`writtenFrames, this`ioCalls
      ensures Valid() && pcmScratch == Pcm(chunk) && old(ioCalls) <= ioCalls
      ensures r.Pass? <==> FaultFreeBetween(old(ioCalls), ioCalls)
      ensures fed == old(fed) || fed == old(fed) + Pcm(chunk)
      ensures r.Fail? ==> files == old(files) && writtenFrames == old(writtenFrames)
      ensures r.Pass? ==>
        && fed == old(fed) + Pcm(chunk)
        && files == Grown(old(files), take) && writtenFrames == old(writtenFrames) + take
      ensures old(Tidy()) ==> Tidy()
    {
      ghost var start := ioCalls;
      pcmScratch := Pcm(chunk);
      var ok := Foreign();
      if !ok {
        assert !FaultFreeBetween(start, ioCalls) by { assert start in ioFaults; }
        return Fail(EncodeFailed);
      }
      fed := fed + pcmScratch;
      ok := Foreign();
      if !ok {
        assert !FaultFreeBetween(start, ioCalls) by { assert start + 1 in ioFaults; }
        return Fail(WriteBlockFailed);
      }
      var last := out.value;
      var f' := files[last].(frames := files[last].frames + take);
      ReplaceLastKeepsFilesOk(files, index, f');
      if old(Tidy()) {
        GrowLastKeepsTiling(files, f', framesPerFile);
      }
      files := files[last := f'];
      writtenFrames := writtenFrames + take;
      return Pass;
    }

    /**
     * One pass of the loop of `write_f32_interleaved`, from frame `offset` of
     * `total`: a full open file is rotated (the pass then ends without feeding);
     * otherwise the next chunk is fed (as many frames as fit, at most what is
     * left of the call), and a file that chunk filled is rotated at once when
     * frames of the call remain. `fed0` is the PCM fed before the call; `next`
     * is the frame offset after the pass.
     */
    method Advance(samples: seq<real>, ch: nat, total: nat, offset: nat, ghost fed0: seq<int>)
      returns (r: Outcome<WriteError>, next: nat)
      requires Valid() && out.Some?
      requires ch == config.channels && (ch == 1 || ch == 2) && |samples| == SampleIndex(total, ch) && offset < total
      requires fed == fed0 + Pcm(samples[..SampleIndex(offset, ch)])
      modifies this`index, this`files, this`out, this`enc, this`writtenFrames, this`pcmScratch, this`fed, this`ioCalls
      ensures Valid() && old(ioCalls) <= ioCalls
      ensures r.Pass? <==> FaultFreeBetween(old(ioCalls), ioCalls)
      ensures fed0 <= fed <= fed0 + Pcm(samples)
      ensures r.Pass? ==>
        && out.Some? && offset <= next <= total
        && (old(writtenFrames) == framesPerFile ==> next == offset && writtenFrames == 0)
        && (old(writtenFrames) < framesPerFile ==>
              next == offset + Min(framesPerFile - old(writtenFrames), total - offset))
        && fed == fed0 + Pcm(samples[..SampleIndex(next, ch)])
        && Sum(FrameCounts(files)) == old(Sum(FrameCounts(files))) + (next - offset)
      ensures r.Pass? && old(Tidy()) ==> Tidy() && (|files| > 1 && writtenFrames == 0 ==> next < total)
      ensures r.Pass? && old(writtenFrames) + (total - offset) <= framesPerFile ==>
        |files| == |old(files)| && writtenFrames == old(writtenFrames) + (next - offset)
    {
      var lo := SampleIndex(offset, ch);
      FedWithin(fed0, samples, lo);
      if framesPerFile - writtenFrames == 0 {
        r := OpenNext();
        return r, offset;
      }
      var take := Min(framesPerFile - writtenFrames, total - offset);
      next := offset + take;
      var hi := SampleIndex(next, ch);
      FedWithin(fed0, samples, hi);
      FedStep(fed0, samples, lo, hi, fed, fed + Pcm(samples[lo..hi]));
      ghost var (start, fs) := (ioCalls, files);
      r := FeedChunk(samples[lo..hi], take);
      if r.Fail? {
        return;
      }
      GrownContent(fs, take);
      if writtenFrames == framesPerFile && next < total {
        ghost var mid := ioCalls;
        r := OpenNext();
        FaultFreeSplit(start, mid, ioCalls);
      }
    }

    /**
     * The loop of `write_f32_interleaved`, entered with a file open; each pass
     * either rotates a full file or feeds the next chunk.
     */
    method FeedFrames(samples: seq<real>, ch: nat, total: nat) returns (r: Outcome<WriteError>)
      requires Valid() && out.Some?
      requires ch == config.channels && (ch == 1 || ch == 2) && |samples| == SampleIndex(total, ch)
      modifies this`index, this`files, this`out, this`enc, this`writtenFrames, this`pcmScratch, this`fed, this`ioCalls
      ensures Valid() && old(ioCalls) <= ioCalls
      ensures r.Pass? <==> FaultFreeBetween(old(ioCalls), ioCalls)
      ensures old(fed) <= fed <= old(fed) + Pcm(samples)
      ensures r.Pass? ==>
        && out.Some?
        && fed == old(fed) + Pcm(samples)
        && Sum(FrameCounts(files)) == old(Sum(FrameCounts(files))) + total
      ensures r.Pass? && old(Tidy()) && (|old(files)| > 1 && old(writtenFrames) == 0 ==> total > 0) ==> Healthy()
      ensures r.Pass? && old(writtenFrames) + total <= framesPerFile ==>
        |files| == |old(files)| && writtenFrames == old(writtenFrames) + total
    {
      ghost var c0, fed0, n0, w0 := ioCalls, fed, |files|, writtenFrames;
      ghost var sum0 := Sum(FrameCounts(files));
      ghost var tidy := Tidy() && (|files| > 1 && writtenFrames == 0 ==> total > 0);
      ghost var lazy := writtenFrames + total <= framesPerFile;
      assert samples[..SampleIndex(0, ch)] == [];
      FedWithin(fed0, samples, 0);
      var offset := 0;
      while offset < total
        invariant Valid() && out.Some? && offset <= total
        invariant c0 <= ioCalls && FaultFreeBetween(c0, ioCalls)
        invariant fed == fed0 + Pcm(samples[..SampleIndex(offset, ch)])
        invariant Sum(FrameCounts(files)) == sum0 + offset
        invariant tidy ==> Tidy() && (|files| > 1 && writtenFrames == 0 ==> offset < total)
        invariant lazy ==> |files| == n0 && writtenFrames == w0 + offset
        decreases total - offset, if writtenFrames < framesPerFile then 0 else 1
      {
        ghost var mid := ioCalls;
        r, offset := Advance(samples, ch, total, offset, fed0);
        FaultFreeSplit(c0, mid, ioCalls);
        if r.Fail? {
          return;
        }
      }
      assert samples[..SampleIndex(offset, ch)] == samples;
      r := Pass;
    }

    /**
     * `write_f32_interleaved`: reject a channel count other than 1 or 2 and a
     * buffer that ends in a partial frame before touching anything; open the
     * first file if none is open; then feed the frames in chunks that never
     * overfill a file. A file that fills up is rotated immediately when more
     * frames of the same call remain, and otherwise only when the next frame
     * arrives.
     */
    method WriteInterleaved(samples: seq<real>) returns (r: Outcome<WriteError>)
      requires Valid()
      modifies this`index, this`files, this`out, this`enc, this`writtenFrames, this`pcmScratch, this`fed, this`ioCalls
      ensures Valid() && old(ioCalls) <= ioCalls
      ensures config.channels != 1 && config.channels != 2 ==> r == Fail(UnsupportedChannels) && unchanged(this)
      ensures (config.channels == 1 || config.channels == 2) && |samples| % config.channels != 0 ==>
        r == Fail(PartialFrame) && unchanged(this)
      ensures r.Pass? <==>
        (config.channels == 1 || config.channels == 2) && |samples| % config.channels == 0
        && FaultFreeBetween(old(ioCalls), ioCalls)
      ensures old(fed) <= fed <= old(fed) + Pcm(samples)
      ensures r.Pass? ==>
        && out.Some?
        && fed == old(fed) + Pcm(samples)
        && Sum(FrameCounts(files)) == old(Sum(FrameCounts(files))) + |samples| / config.channels
      ensures r.Pass? && old(Healthy()) ==> Healthy()
      ensures r.Pass? && old(out).Some? && old(writtenFrames) + |samples| / config.channels <= framesPerFile ==>
        |files| == |old(files)| && writtenFrames == old(writtenFrames) + |samples| / config.channels
    {
      FedWithin(fed, samples, 0);
      var ch := config.channels;
      if ch != 1 && ch != 2 {
        return Fail(UnsupportedChannels);
      }
      if |samples| % ch != 0 {
        return Fail(PartialFrame);
      }
      ghost var c0 := ioCalls;
      if enc.None? {
        r := OpenNext();
        if r.Fail? {
          return;
        }
      }
      ghost var mid := ioCalls;
      var total := |samples| / ch;
      WholeFrames(|samples|, ch);
      r := FeedFrames(samples, ch, total);
      FaultFreeSplit(c0, mid, ioCalls);
    }
  
    /**
     * `write_f32_mono`: refuses a writer not configured for one channel before
     * touching anything, and is otherwise `write_f32_interleaved`.
     */
    method WriteMono(samples: seq<real>) returns (r: Outcome<WriteError>)
      requires Valid()
      modifies this`index, this`files, this`out, this`enc, this`writtenFrames, this`pcmScratch, this`fed, this`ioCalls
      ensures Valid() && old(ioCalls) <= ioCalls
      ensures config.channels != 1 ==> r == Fail(NotMono) && unchanged(this)
      ensures config.channels == 1 ==> (r.Pass? <==> FaultFreeBetween(old(ioCalls), ioCalls))
      ensures r.Pass? ==>
        && out.Some?
        && fed == old(fed) + Pcm(samples)
        && Sum(FrameCounts(files)) == old(Sum(FrameCounts(files))) + |samples|
      ensures r.Pass? && old(Healthy()) ==> Healthy()
      ensures r.Pass? && old(out).Some? && old(writtenFrames) + |samples| <= framesPerFile ==>
        |files| == |old(files)| && writtenFrames == old(writtenFrames) + |samples|
    {
      if config.channels != 1 {
        return Fail(NotMono);
      }
      r := WriteInterleaved(samples);
    }

    /**
     * `finalize`: finish the open file, if any. The source takes the writer
     * by value; here it stays a valid writer with no file open. After a clean
     * run every file is finished and the files tile the stream.
     */
    method Finalize() returns (r: Outcome<WriteError>)
      requires Valid()
      modifies this`files, this`out, this`enc, this`writtenFrames, this`ioCalls
      ensures Valid() && out.None? && enc.None? && old(ioCalls) <= ioCalls
      ensures FrameCounts(files) == old(FrameCounts(files))
      ensures old(out).None? ==> r == Pass && unchanged(this)
      ensures r.Pass? <==> FaultFreeBetween(old(ioCalls), ioCalls)
      ensures r.Pass? && old(Healthy()) ==>
        && Numbered(files)
        && (forall i :: 0 <= i < |files| ==> files[i].finished)
        && Tiled(FrameCounts(files), framesPerFile)
    {
      ghost var fs := files;
      ghost var healthy := Healthy();
      if healthy {
        HealthyIsTiled();
        ClosedAllFinished(fs, framesPerFile);
      }
      ClosedKeepsContent(fs, true);
      r := FinishCurrent();
    }

    /**
     * File numbers only grow, so no two files this writer creates share a name:
     * `File::create` never truncates an earlier segment.
     */
    lemma NamesUsedOnce()
      requires Valid()
      ensures forall i, j :: 0 <= i < j < |files| ==>
        SegmentName(prefix, files[i].number) != SegmentName(prefix, files[j].number)
    {
      forall i, j | 0 <= i < j < |files|
        ensures SegmentName(prefix, files[i].number) != SegmentName(prefix, files[j].number)
      {
        NumbersIncrease(files, i, j);
        SegmentNamesDistinct(prefix, files[i].number, files[j].number);
      }
    }
  }

  lemma {:induction false} NumbersIncrease(fs: seq<OutFile>, i: nat, j: nat)
    requires forall k :: 0 <= k < |fs| - 1 ==> fs[k].number < fs[k + 1].number
    requires i < j < |fs|
    ensures fs[i].number < fs[j].number
  {
    if i + 1 < j {
      NumbersIncrease(fs, i, j - 1);
    }
  }

  /**
   * The splitting of writes of 40, 70 and 30 frames into 100-frame files: the
   * second write fills the first file and spills 10 frames into a second one,
   * so the files hold 100 and 40 frames.
   */
  method SplitExample() returns (counts: seq<nat>)
    ensures counts == [100, 40]
  {
    var config := EncoderConfig(1000, 64, 1);
    var made := Mp3Splitter.New("out", config, true, Duration(0, 100_000_000), {});
    assert FramesForDuration(1000, Duration(0, 100_000_000)).value == 100;
    var w := made.value;
    var r := w.WriteMono(seq(40, _ => 0.5));
    r := w.WriteMono(seq(70, _ => -0.25));
    r := w.WriteMono(seq(30, _ => 1.0));
    assert Sum(FrameCounts(w.files)) == 140;
    w.HealthySegmentCount();
    w.HealthyIsTiled();
    assert Sum([100, 40]) == 140 by {
      assert [100, 40][..1] == [100];
      assert [100][..0] == [];
    }
    TilingDeterminedByTotal(FrameCounts(w.files), [100, 40], 100);
    counts := FrameCounts(w.files);
  }
}
