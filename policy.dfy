/**
  The retirement policy of one `checkerLoop` tick of client.js, as a pure
  function of the torrent's fields, what the history and the Drive probe
  answer, the engine's metrics and the current time. The Session class
  in module Client carries out the tick and is proved to follow `Step`.
*/
module Policy {
  import opened Wrappers

  type Positive = n: int | 0 < n witness 1

  /** `config.maxRatio` as the fraction num / den. */
  datatype Ratio = Ratio(num: int, den: Positive)

  datatype Config = Config(
    maxSimultaneousDownloads: int,
    minDownloadThresholdBytesPerSecond: int,
    maxOldnessSecondsWithoutPeers: int,
    maxRatio: Ratio,
    maxOldnessSecondsSeeding: int)

  /** The engine's live figures: `progress === 1` is `complete`, the speed in
      bytes per second, and the byte counts uploaded and downloaded. */
  datatype Metrics = Metrics(complete: bool, downloadSpeed: int, uploaded: nat, downloaded: nat)

  datatype Reason =
    | SeenInHistory       // "already downloaded (seen in history)"
    | SeenInDrive         // "already downloaded (seen in Drive, not added to history)"
    | NoPeers             // "max time without peers reached"
    | RatioReached        // "ratio reached"
    | SeedingTimeReached  // "max time seeding reached"

  datatype TickResult = Continue | Retire(reason: Reason)

  /** The fields client.js adds to a torrent; times are milliseconds. */
  datatype Fields = Fields(
    createdAt: int,
    uploadedToDrive: Option<bool>,
    downloadFinishedAt: Option<int>,
    initialCheckDone: bool)

  /** What a tick decides, the fields it leaves, and how many times it records
      the pair (magnet, "magnet"), (infoHash, "infoHash") in the history. */
  datatype Outcome = Outcome(result: TickResult, fields: Fields, pairsRecorded: nat)

  lemma CrossMultiply(a: real, b: real, c: real, d: real)
    requires b > 0.0 && d > 0.0
    ensures a / b > c / d <==> a * d > c * b
  {
    assert a / b * (b * d) == a * d;
    assert c / d * (b * d) == c * b;
  }

  /** `uploaded / downloaded > maxRatio` in JavaScript, by cross-multiplication;
      a positive count over zero is Infinity (exceeds), 0 / 0 is NaN (never exceeds). */
  function RatioExceeded(uploaded: nat, downloaded: nat, max: Ratio): bool
  {
    if downloaded == 0 then uploaded > 0
    else uploaded * max.den > max.num * downloaded
  }

  /** The cross-multiplication agrees with dividing the byte counts as numbers. */
  lemma RatioExceededMeansQuotient(uploaded: nat, downloaded: nat, max: Ratio)
    ensures downloaded > 0 ==>
      (RatioExceeded(uploaded, downloaded, max) <==> (uploaded as real) / (downloaded as real) > (max.num as real) / (max.den as real))
    ensures downloaded == 0 ==> (RatioExceeded(uploaded, downloaded, max) <==> uploaded > 0)
  {
    if downloaded > 0 {
      CrossMultiply(uploaded as real, downloaded as real, max.num as real, max.den as real);
      assert (uploaded as real) * (max.den as real) == (uploaded * max.den) as real;
      assert (max.num as real) * (downloaded as real) == (max.num * downloaded) as real;
    }
  }

  /** `(now - since) / 1000 > maxSeconds`, compared in whole milliseconds. */
  function ElapsedExceeds(now: int, since: int, maxSeconds: int): bool
  {
    now - since > maxSeconds * 1000
  }

  /** The millisecond comparison agrees with dividing by 1000 as JavaScript does. */
  lemma ElapsedExceedsMeansSeconds(now: int, since: int, maxSeconds: int)
    ensures ElapsedExceeds(now, since, maxSeconds) <==> ((now - since) as real) / 1000.0 > maxSeconds as real
  {
  }

  /** The checks after the first-tick history check and the Drive probe. */
  function Supervise(f: Fields, m: Metrics, now: int, cfg: Config): TickResult
  {
    if !m.complete && m.downloadSpeed < cfg.minDownloadThresholdBytesPerSecond
       && ElapsedExceeds(now, f.createdAt, cfg.maxOldnessSecondsWithoutPeers) then
      Retire(NoPeers)
    else if m.complete && f.uploadedToDrive == Some(true) then
      if RatioExceeded(m.uploaded, m.downloaded, cfg.maxRatio) then Retire(RatioReached)
      else if f.downloadFinishedAt.Some?
              && ElapsedExceeds(now, f.downloadFinishedAt.value, cfg.maxOldnessSecondsSeeding) then
        Retire(SeedingTimeReached)
      else Continue
    else Continue
  }

  /** The first-tick history check and the Drive probe. `infoHashSeen` is
      what the history answers for the torrent's info hash; `driveHasFolder`
      what the Drive probe answers. The result is Continue when neither retires. */
  function FirstChecks(f: Fields, infoHashSeen: bool, driveHasFolder: bool): Outcome
  {
    var f1 := f.(initialCheckDone := true);
    if !f.initialCheckDone && infoHashSeen then
      Outcome(Retire(SeenInHistory), f1, 0)
    else
      var first := if f.initialCheckDone then 0 else 1;
      if f.uploadedToDrive.None? && driveHasFolder then
        Outcome(Retire(SeenInDrive), f1.(uploadedToDrive := Some(true)), first + 1)
      else
        var f2 := if f.uploadedToDrive.None? then f1.(uploadedToDrive := Some(false)) else f1;
        Outcome(Continue, f2, first)
  }

  /** One tick: the first checks, then, unless they retired, the stall, ratio
      and seeding-time checks on the fields they leave. */
  function Step(f: Fields, infoHashSeen: bool, driveHasFolder: bool, m: Metrics, now: int, cfg: Config): Outcome
  {
    var pre := FirstChecks(f, infoHashSeen, driveHasFolder);
    if pre.result.Retire? then pre
    else pre.(result := Supervise(pre.fields, m, now, cfg))
  }

  /** The tick passes the first-tick history check and the Drive probe. */
  predicate PassesFirstChecks(f: Fields, infoHashSeen: bool, driveHasFolder: bool)
  {
    !(!f.initialCheckDone && infoHashSeen) && !(f.uploadedToDrive.None? && driveHasFolder)
  }

  /** A tick marks the initial check done and never changes the creation or
      completion time: only the `done` handler sets `downloadFinishedAt`. */
  lemma StepKeepsTimes(f: Fields, seen: bool, drive: bool, m: Metrics, now: int, cfg: Config)
    ensures var out := Step(f, seen, drive, m, now, cfg);
      out.fields.initialCheckDone
      && out.fields.createdAt == f.createdAt
      && out.fields.downloadFinishedAt == f.downloadFinishedAt
  {
  }

  /** The info-hash history check runs at most once: it retires exactly on the
      first tick with a hit, and a tick after the first never consults it. */
  lemma HistoryRetirement(f: Fields, seen: bool, drive: bool, m: Metrics, now: int, cfg: Config)
    ensures Step(f, seen, drive, m, now, cfg).result == Retire(SeenInHistory) <==> !f.initialCheckDone && seen
    ensures f.initialCheckDone ==> Step(f, seen, drive, m, now, cfg) == Step(f, !seen, drive, m, now, cfg)
  {
  }

  /** A history hit ends the tick: no probe, no write. */
  lemma HistoryRetirementEndsTick(f: Fields, seen: bool, drive: bool, m: Metrics, now: int, cfg: Config)
    requires Step(f, seen, drive, m, now, cfg).result == Retire(SeenInHistory)
    ensures Step(f, seen, drive, m, now, cfg).fields.uploadedToDrive == f.uploadedToDrive
    ensures Step(f, seen, drive, m, now, cfg).pairsRecorded == 0
  {
  }

  /** A first-tick miss records the magnet and the info hash; a found Drive
      folder records them (again); nothing else writes the history. */
  lemma HistoryWrites(f: Fields, seen: bool, drive: bool, m: Metrics, now: int, cfg: Config)
    ensures var out := Step(f, seen, drive, m, now, cfg);
      out.pairsRecorded
        == (if !f.initialCheckDone && !seen then 1 else 0)
         + (if out.result == Retire(SeenInDrive) then 1 else 0)
  {
  }

  /** The Drive probe runs only while `uploadedToDrive` is null: found retires,
      otherwise it becomes false; once set, a tick leaves it alone. */
  lemma DriveProbe(f: Fields, seen: bool, drive: bool, m: Metrics, now: int, cfg: Config)
    ensures var out := Step(f, seen, drive, m, now, cfg);
      ((out.result == Retire(SeenInDrive)) <==> (!(!f.initialCheckDone && seen) && f.uploadedToDrive.None? && drive))
      && (f.uploadedToDrive.Some? ==> out.fields.uploadedToDrive == f.uploadedToDrive)
      && (f.uploadedToDrive.None? && out.result != Retire(SeenInHistory) ==> out.fields.uploadedToDrive == Some(drive))
  {
  }

  /** Stall rule: an incomplete torrent below the speed floor retires once it
      is older than the window; within the window the tick continues. */
  lemma StallRetirement(f: Fields, seen: bool, drive: bool, m: Metrics, now: int, cfg: Config)
    ensures Step(f, seen, drive, m, now, cfg).result == Retire(NoPeers)
      <==> PassesFirstChecks(f, seen, drive) && !m.complete
           && m.downloadSpeed < cfg.minDownloadThresholdBytesPerSecond
           && now - f.createdAt > cfg.maxOldnessSecondsWithoutPeers * 1000
    ensures PassesFirstChecks(f, seen, drive) && !m.complete
              && !(now - f.createdAt > cfg.maxOldnessSecondsWithoutPeers * 1000)
            ==> Step(f, seen, drive, m, now, cfg).result == Continue
  {
  }

  /** An incomplete torrent is never retired by the post-completion rules. */
  lemma IncompleteOnlyStalls(f: Fields, seen: bool, drive: bool, m: Metrics, now: int, cfg: Config)
    requires !m.complete
    ensures Step(f, seen, drive, m, now, cfg).result in {Continue, Retire(SeenInHistory), Retire(SeenInDrive), Retire(NoPeers)}
  {
  }

  /** Ratio rule: only for a complete torrent whose upload callback already set
      `uploadedToDrive` to true, and it takes precedence over seeding time. */
  lemma RatioRetirement(f: Fields, seen: bool, drive: bool, m: Metrics, now: int, cfg: Config)
    ensures Step(f, seen, drive, m, now, cfg).result == Retire(RatioReached)
      <==> PassesFirstChecks(f, seen, drive) && m.complete && f.uploadedToDrive == Some(true)
           && RatioExceeded(m.uploaded, m.downloaded, cfg.maxRatio)
  {
  }

  /** Seeding rule: as the ratio rule, when the ratio is not exceeded, the
      download has finished and more than the seeding window has passed since. */
  lemma SeedingRetirement(f: Fields, seen: bool, drive: bool, m: Metrics, now: int, cfg: Config)
    ensures Step(f, seen, drive, m, now, cfg).result == Retire(SeedingTimeReached)
      <==> PassesFirstChecks(f, seen, drive) && m.complete && f.uploadedToDrive == Some(true)
           && !RatioExceeded(m.uploaded, m.downloaded, cfg.maxRatio)
           && f.downloadFinishedAt.Some?
           && now - f.downloadFinishedAt.value > cfg.maxOldnessSecondsSeeding * 1000
  {
  }

  /** The time-based retirements are stable: delaying a tick cannot undo them. */
  lemma TimeRetirementsPersist(f: Fields, seen: bool, drive: bool, m: Metrics, now: int, later: int, cfg: Config)
    requires now <= later
    requires Step(f, seen, drive, m, now, cfg).result in {Retire(NoPeers), Retire(SeedingTimeReached)}
    ensures Step(f, seen, drive, m, later, cfg).result == Step(f, seen, drive, m, now, cfg).result
  {
  }

  /** 300 bytes up for 100 down exceeds a maximum ratio of 2.0, so a complete,
      uploaded torrent retires with "ratio reached". */
  lemma RatioExample(f: Fields, now: int, cfg: Config)
    requires f.initialCheckDone && f.uploadedToDrive == Some(true)
    requires cfg.maxRatio == Ratio(2, 1)
    ensures Step(f, false, false, Metrics(true, 0, 300, 100), now, cfg).result == Retire(RatioReached)
  {
  }
}
