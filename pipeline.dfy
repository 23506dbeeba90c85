/** The two download pipelines of the parser package: link, then options,
    then variant, then file name, then ffmpeg. The network, the playlist
    decoding, the file system and ffmpeg are inputs: the replies of the
    three locator endpoints for the link's id, the reply for the master
    manifest, whether the downloads directory could be created, and what
    ffmpeg did. */
module Pipeline {
  import opened Wrappers
  import opened Text
  import opened VideoId
  import opened Ttl
  import opened Locator
  import opened Variant
  import opened Sanitize
  import opened ProgressReader

  /** The replies of the three locator endpoints for one id: the init
      document, the play/options document and the video page. A reply is
      only looked at when the cascade reaches its strategy. */
  datatype Strategies = Strategies(init: HttpReply<Json>, play: HttpReply<PlayOptions>, html: HttpReply<string>)

  /** The options the cascade settles on: the first of the three strategies,
      read from its reply, that gives a non-empty reference. */
  function Options(st: Strategies): (r: Result<PlayOptions>)
    ensures r.Ok? ==> r.value.m3u8 != []
    ensures r.Ok? <==> Usable(FetchOptionsInit(st.init)) || Usable(FetchOptionsPlayOptions(st.play))
                       || Usable(FetchOptionsFromHTML(st.html))
    ensures Usable(FetchOptionsInit(st.init)) ==> r == FetchOptionsInit(st.init)
  {
    FetchOptions(FetchOptionsInit(st.init), FetchOptionsPlayOptions(st.play), FetchOptionsFromHTML(st.html)).options
  }

  /** Everything before ffmpeg succeeds: the link is a video link, the
      cascade found options, the manifest yields a URL and the downloads
      directory exists. */
  predicate Prepared(videoURL: string, st: Strategies, manifest: HttpReply<Manifest>, mkdirOk: bool) {
    ExtractID(videoURL).Ok? && Options(st).Ok? && Resolvable(manifest) && mkdirOk
  }

  /** Past the link and the cascade, a best variant of the manifest cannot
      be resolved: pickBestVariant may panic instead of returning. */
  ghost predicate VariantPanics(st: Strategies, manifest: HttpReply<Manifest>, join: (string, string) -> Option<string>) {
    Options(st).Ok? && Resolvable(manifest) && MayPanic(Options(st).value.m3u8, manifest, join)
  }

  /** The first failure before ffmpeg, in the order the steps run. */
  function PrepareFailure(videoURL: string, st: Strategies, manifest: HttpReply<Manifest>): Error {
    if ExtractID(videoURL).Err? then InvalidURL
    else if Options(st).Err? then ManifestNotFound
    else if !Resolvable(manifest) then ManifestFailure(manifest)
    else StorageError
  }

  /** What totalDurationSeconds did for the chosen playlist: summed its
      segment durations, failed with an error, or panicked. It panics when a
      master playlist leads it to resolveURL with the first variant's
      reference and that reference cannot be resolved. */
  datatype Duration = Summed(seconds: real) | Unknown | DurationPanicked

  /** The playlist's total duration as the progress reader uses it: the
      sum of the segment durations, or 0 when it could not be computed. */
  function TotalSeconds(duration: Duration): real {
    if duration.Summed? then duration.seconds else 0.0
  }

  /** ExtractMP4, with the Unix time of the call and the DOWNLOAD_TTL_MIN
      value passed in. On success the result is the sanitised title with
      ".mp4", and the removal goroutine is started with the configured
      minutes when there are any (RemovalDelay is how long it then sleeps);
      every failure is the first failing step's, and the only way the call
      does not return is the panic of resolveURL. */
  method ExtractMP4(videoURL: string, st: Strategies, manifest: HttpReply<Manifest>,
                    join: (string, string) -> Option<string>, unix: int, mkdirOk: bool, muxOk: bool, ttlEnv: string)
    returns (r: Result<string>, removeAfter: Option<nat>)
    requires MinInt64 <= unix <= MaxInt64
    ensures r.Ok? ==> Prepared(videoURL, st, manifest, mkdirOk) && muxOk
    ensures Prepared(videoURL, st, manifest, mkdirOk) && muxOk && !VariantPanics(st, manifest, join) ==> r.Ok?
    ensures r.Ok? ==> r.value == FileName(Options(st).value.title, unix)
    ensures r == Err(Panicked) ==> ExtractID(videoURL).Ok? && VariantPanics(st, manifest, join)
    ensures !Prepared(videoURL, st, manifest, mkdirOk) && r != Err(Panicked) ==>
      r == Err(PrepareFailure(videoURL, st, manifest))
    ensures Prepared(videoURL, st, manifest, mkdirOk) && !muxOk ==> r == Err(FfmpegFailed) || r == Err(Panicked)
    ensures removeAfter.Some? <==> r.Ok? && TtlFromEnv(ttlEnv) > 0
    ensures removeAfter.Some? ==> removeAfter.value == TtlFromEnv(ttlEnv)
  {
    removeAfter := None;
    var id := ExtractID(videoURL);
    if id.Err? {
      return Err(id.error), None;
    }
    var opts := Options(st);
    if opts.Err? {
      return Err(opts.error), None;
    }
    var variantURL := PickBestVariant(opts.value.m3u8, manifest, join);
    if variantURL.Err? {
      return Err(variantURL.error), None;
    }
    var fileName := FileName(opts.value.title, unix);
    if !mkdirOk {
      return Err(StorageError), None;
    }
    if !muxOk {
      return Err(FfmpegFailed), None;
    }
    var ttlMin := TtlFromEnv(ttlEnv);
    if ttlMin > 0 {
      removeAfter := Some(ttlMin);
    }
    return Ok(fileName), removeAfter;
  }

  /** ExtractMP4WithProgress: the same steps, the total duration of the
      chosen playlist handed to the progress reader (0 when it could not be
      computed, and a panic when computing it panicked). The progress
      callbacks are made only once ffmpeg has started, and they are the
      reader's calls followed by the final one. */
  method ExtractMP4WithProgress(videoURL: string, st: Strategies, manifest: HttpReply<Manifest>,
                                join: (string, string) -> Option<string>, duration: Duration, unix: int,
                                mkdirOk: bool, started: bool, pieces: seq<string>, exitOk: bool,
                                parse: string -> Option<real>)
    returns (r: Result<string>, calls: seq<Call>)
    requires MinInt64 <= unix <= MaxInt64
    ensures r.Ok? ==> Prepared(videoURL, st, manifest, mkdirOk) && started && exitOk
    ensures r.Ok? ==> !duration.DurationPanicked?
    ensures Prepared(videoURL, st, manifest, mkdirOk) && started && exitOk && !VariantPanics(st, manifest, join)
      ==> duration.DurationPanicked? || r.Ok?
    ensures r.Ok? ==> r.value == FileName(Options(st).value.title, unix)
    ensures r == Err(Panicked) ==>
      && ExtractID(videoURL).Ok? && Options(st).Ok? && Resolvable(manifest)
      && (VariantPanics(st, manifest, join) || duration.DurationPanicked?) && calls == []
    ensures ExtractID(videoURL).Ok? && Options(st).Ok? && Resolvable(manifest) && duration.DurationPanicked? ==>
      r == Err(Panicked)
    ensures !Prepared(videoURL, st, manifest, mkdirOk) && r != Err(Panicked) ==>
      r == Err(PrepareFailure(videoURL, st, manifest))
    ensures Prepared(videoURL, st, manifest, mkdirOk) && !(started && exitOk) ==>
      r == Err(FfmpegFailed) || r == Err(Panicked)
    ensures !(Prepared(videoURL, st, manifest, mkdirOk) && started) ==> calls == []
    ensures Prepared(videoURL, st, manifest, mkdirOk) && started && r != Err(Panicked) ==>
      var total := TotalSeconds(duration);
      calls == CallsOf(Lines(Concat(pieces)), OnLine(total, parse)) + FinalCall(exitOk, total)
  {
    var id := ExtractID(videoURL);
    if id.Err? {
      return Err(id.error), [];
    }
    var opts := Options(st);
    if opts.Err? {
      return Err(opts.error), [];
    }
    var variantURL := PickBestVariant(opts.value.m3u8, manifest, join);
    if variantURL.Err? {
      return Err(variantURL.error), [];
    }
    if duration.DurationPanicked? {
      return Err(Panicked), [];
    }
    var totalDur := TotalSeconds(duration);
    var fileName := FileName(opts.value.title, unix);
    if !mkdirOk {
      return Err(StorageError), [];
    }
    var ok;
    ok, calls := MuxWithProgress(started, pieces, exitOk, totalDur, parse);
    if !ok {
      return Err(FfmpegFailed), calls;
    }
    return Ok(fileName), calls;
  }

  // ---- the removal timer -------------------------------------------------

  const NanosPerMinute: int := 60_000_000_000

  /** Go's int64 arithmetic: x reduced modulo 2^64 into the int64 range. */
  function WrapInt64(x: int): (r: int)
    ensures MinInt64 <= r <= MaxInt64
    ensures MinInt64 <= x <= MaxInt64 ==> r == x
    ensures (x - r) % 0x1_0000_0000_0000_0000 == 0
  {
    (x - MinInt64) % 0x1_0000_0000_0000_0000 + MinInt64
  }

  /** How long the removal goroutine sleeps, in nanoseconds, for the given
      minutes: time.Duration(minutes) * time.Minute is an int64 product that
      wraps around, and time.Sleep returns at once for a duration that is not
      positive. */
  function RemovalDelay(minutes: int): (d: nat)
    ensures d <= MaxInt64
  {
    var product := WrapInt64(minutes * NanosPerMinute);
    if product > 0 then product else 0
  }

  /** The largest number of minutes whose product with a minute fits in int64. */
  const MaxExactMinutes: int := 153_722_867

  /** Up to MaxExactMinutes, the file is kept for exactly that many minutes. */
  lemma RemovalDelayExact(minutes: int)
    requires 0 < minutes <= MaxExactMinutes
    ensures RemovalDelay(minutes) == minutes * NanosPerMinute
  {
  }

  /** Beyond that the product wraps: DOWNLOAD_TTL_MIN=200000000 is read as
      200000000 minutes (TtlFromEnvReadsMinutes), which become a negative
      duration, so the file is removed right away. */
  lemma RemovalDelayWraps(minutes: nat)
    requires minutes == 200_000_000
    ensures minutes <= MaxInt64 && RemovalDelay(minutes) == 0
  {
    var x := minutes * NanosPerMinute;
    assert x - MinInt64 == 0x1_0000_0000_0000_0000 + 2_776_627_963_145_224_192;
    ModOfSum(x - MinInt64, 2_776_627_963_145_224_192);
  }

  /** a % 2^64 for a between 2^64 and 2^65, written as 2^64 + r. */
  lemma ModOfSum(a: int, r: int)
    requires 0 <= r < 0x1_0000_0000_0000_0000 && a == 0x1_0000_0000_0000_0000 + r
    ensures a % 0x1_0000_0000_0000_0000 == r
  {
  }

  /** The wait the configuration asks for, capped at the largest duration
      instead of wrapping around. */
  function IntendedDelay(minutes: nat): (d: nat)
    ensures d <= MaxInt64
  {
    if minutes * NanosPerMinute > MaxInt64 then MaxInt64 else minutes * NanosPerMinute
  }

  /** The capped wait never removes a file early: it grows with the minutes,
      is positive for any positive number of minutes, and agrees with
      RemovalDelay wherever the product does not wrap. */
  lemma IntendedDelayMonotone(m1: nat, m2: nat)
    requires m1 <= m2
    ensures IntendedDelay(m1) <= IntendedDelay(m2)
    ensures m1 > 0 ==> IntendedDelay(m1) > 0
    ensures m1 <= MaxExactMinutes ==> IntendedDelay(m1) == RemovalDelay(m1)
  {
    assert m1 * NanosPerMinute <= m2 * NanosPerMinute;
  }
}
