/**
  Adaptive throttling of accessibility-tree walks. Each app has a rolling window
  of walk durations and a truncation count, from which a tier is computed; the
  tier sets how long the app must be left alone. Durations and instants are
  integer nanoseconds, and the clock is a parameter.
 */
module WalkBudget {

  const MS: nat := 1_000_000
  const SEC: nat := 1_000_000_000

  datatype WalkTier = Light | Moderate | Heavy | Critical

  datatype WalkDecision = WalkDecision(walk: bool, maxNodes: nat, timeout: nat, tier: WalkTier)

  const WINDOW_SIZE: nat := 8
  const TRUNCATION_ESCALATE: nat := 3
  const DECAY_AFTER: nat := 30 * SEC

  // ----- One app's cost, as a value -----------------------------------------------------------

  datatype Cost = Cost(durations: seq<nat>, truncations: nat, lastWalk: nat, tier: WalkTier)

  function SaturatingSub(x: nat, y: nat): nat {
    if x < y then 0 else x - y
  }

  /** Ten minutes ago, if the clock goes back that far. */
  function FreshCost(now: nat): Cost {
    Cost([], 0, if now >= 600 * SEC then now - 600 * SEC else now, Light)
  }

  function Sum(s: seq<nat>): nat {
    if |s| == 0 then 0 else Sum(s[..|s| - 1]) + s[|s| - 1]
  }

  function AvgDuration(s: seq<nat>): nat {
    if |s| == 0 then 0 else Sum(s) / |s|
  }

  function ComputeTier(durations: seq<nat>, truncations: nat): WalkTier {
    var avg := AvgDuration(durations);
    if truncations >= TRUNCATION_ESCALATE then Critical
    else if avg >= 250 * MS then Critical
    else if avg >= 150 * MS then Heavy
    else if avg >= 50 * MS then Moderate
    else Light
  }

  /** A full window drops its oldest sample. */
  function Slide(ds: seq<nat>, duration: nat): seq<nat> {
    (if |ds| >= WINDOW_SIZE then ds[1..] else ds) + [duration]
  }

  function Recorded(c: Cost, duration: nat, truncated: bool, now: nat): Cost {
    var full := |c.durations| >= WINDOW_SIZE;
    var ds := Slide(c.durations, duration);
    var n := (if full then SaturatingSub(c.truncations, 1) else c.truncations) + if truncated then 1 else 0;
    Cost(ds, n, now, ComputeTier(ds, n))
  }

  predicate DecayFires(c: Cost, now: nat) {
    SaturatingSub(now, c.lastWalk) > DECAY_AFTER && c.tier != Light && |c.durations| > 2
  }

  function Decayed(c: Cost, now: nat): Cost {
    if DecayFires(c, now) then
      var ds := c.durations[|c.durations| / 2..];
      var n := SaturatingSub(c.truncations, 2);
      Cost(ds, n, c.lastWalk, ComputeTier(ds, n))
    else c
  }

  function MinInterval(t: WalkTier): nat {
    match t
    case Light => 200 * MS
    case Moderate => 2 * SEC
    case Heavy => 5 * SEC
    case Critical => 60 * SEC
  }

  function Decision(c: Cost, now: nat): WalkDecision {
    var walk := SaturatingSub(now, c.lastWalk) >= MinInterval(c.tier);
    match c.tier
    case Light => WalkDecision(walk, 5000, 250 * MS, Light)
    case Moderate => WalkDecision(walk, 2000, 200 * MS, Moderate)
    case Heavy => WalkDecision(walk, 1000, 150 * MS, Heavy)
    case Critical => WalkDecision(walk, 500, 100 * MS, Critical)
  }

  lemma DivideAtLeast(x: nat, n: nat, bound: nat)
    requires n > 0
    ensures x / n >= bound <==> x >= bound * n
  {
    assert x == x / n * n + x % n;
    if x / n >= bound {
      assert x / n * n >= bound * n;
    } else {
      assert (x / n + 1) * n <= bound * n;
    }
  }

  /** Cutting the average to whole nanoseconds never changes the tier: it is decided by the exact total. */
  lemma TierByTotals(ds: seq<nat>, truncations: nat)
    requires |ds| > 0
    ensures var t, total, n := ComputeTier(ds, truncations), Sum(ds), |ds|;
            && (t == Critical <==> truncations >= 3 || total >= 250 * MS * n)
            && (t == Heavy <==> truncations < 3 && 150 * MS * n <= total < 250 * MS * n)
            && (t == Moderate <==> truncations < 3 && 50 * MS * n <= total < 150 * MS * n)
            && (t == Light <==> truncations < 3 && total < 50 * MS * n)
  {
    DivideAtLeast(Sum(ds), |ds|, 250 * MS);
    DivideAtLeast(Sum(ds), |ds|, 150 * MS);
    DivideAtLeast(Sum(ds), |ds|, 50 * MS);
  }

  // ----- The table of apps ------------------------------------------------------------------------

  type Apps = map<string, Cost>

  datatype Call = ShouldWalk(app: string, now: nat) | RecordWalk(app: string, now: nat, duration: nat, truncated: bool)

  function Entry(b: Apps, app: string, now: nat): Cost {
    if app in b then b[app] else FreshCost(now)
  }

  function After(b: Apps, c: Call): Apps {
    match c
    case ShouldWalk(app, now) => b[app := Decayed(Entry(b, app, now), now)]
    case RecordWalk(app, now, d, t) => b[app := Recorded(Entry(b, app, now), d, t, now)]
  }

  /** The answer to a `ShouldWalk` call. */
  function Answer(b: Apps, app: string, now: nat): WalkDecision {
    Decision(Decayed(Entry(b, app, now), now), now)
  }

  function Run(calls: seq<Call>): Apps {
    if |calls| == 0 then map[] else After(Run(calls[..|calls| - 1]), calls[|calls| - 1])
  }

  lemma RunNext(calls: seq<Call>, c: Call)
    ensures Run(calls + [c]) == After(Run(calls), c)
  {
    assert (calls + [c])[..|calls|] == calls;
  }

  function Then(calls: seq<Call>, c: Call): seq<Call> {
    calls + [c]
  }

  /** `run` executes calls one by one, like `Run`. */
  ghost predicate Executes(run: seq<Call> -> Apps) {
    forall calls, c {:trigger Then(calls, c)} :: run(Then(calls, c)) == After(run(calls), c)
  }

  lemma RunExecutes()
    ensures Executes(Run)
  {
    forall calls, c ensures Run(Then(calls, c)) == After(Run(calls), c) {
      RunNext(calls, c);
    }
  }

  ghost predicate ClockAdvances(calls: seq<Call>) {
    forall i, j :: 0 <= i < j < |calls| ==> calls[i].now <= calls[j].now
  }

  // ----- What every call keeps ----------------------------------------------------------------------

  ghost predicate CostOk(c: Cost) {
    && c.tier == ComputeTier(c.durations, c.truncations)
    && |c.durations| <= WINDOW_SIZE
  }

  lemma {:induction false} RunKeepsTiers(calls: seq<Call>)
    ensures forall app :: app in Run(calls) ==> CostOk(Run(calls)[app])
  {
    if |calls| > 0 {
      RunKeepsTiers(calls[..|calls| - 1]);
    }
  }

  /** One app's cost depends on its own calls only. */
  function CallsOf(calls: seq<Call>, app: string): seq<Call> {
    if |calls| == 0 then []
    else
      var n := |calls| - 1;
      CallsOf(calls[..n], app) + if calls[n].app == app then [calls[n]] else []
  }

  lemma {:induction false} AppsAreIndependent(calls: seq<Call>, app: string)
    ensures app in Run(calls) <==> app in Run(CallsOf(calls, app))
    ensures app in Run(calls) ==> Run(calls)[app] == Run(CallsOf(calls, app))[app]
  {
    if |calls| > 0 {
      var n := |calls| - 1;
      AppsAreIndependent(calls[..n], app);
      var own := CallsOf(calls[..n], app);
      if calls[n].app == app {
        assert (own + [calls[n]])[..|own|] == own;
      } else {
        assert own + [] == own;
      }
    }
  }

  /** Whatever other apps do in between, an app gets the same answers. */
  lemma AnswersAreIndependent(calls: seq<Call>, app: string, now: nat)
    ensures Answer(Run(calls), app, now) == Answer(Run(CallsOf(calls, app)), app, now)
  {
    AppsAreIndependent(calls, app);
  }

  // ----- Throttling over whole runs --------------------------------------------------------------------

  /** Call `i` recorded a walk of `app`, the last one among the first `n` calls. */
  ghost predicate LastRecord(calls: seq<Call>, app: string, i: nat, n: nat) {
    && i < n <= |calls| && calls[i].RecordWalk? && calls[i].app == app
    && forall k :: i < k < n ==> !(calls[k].RecordWalk? && calls[k].app == app)
  }

  /** The last walk's time is remembered, whatever decays. */
  lemma {:induction false} LastWalkIsRemembered(calls: seq<Call>, app: string, i: nat, n: nat)
    requires LastRecord(calls, app, i, n)
    ensures app in Run(calls[..n]) && Run(calls[..n])[app].lastWalk == calls[i].now
    decreases n
  {
    assert calls[..n][..n - 1] == calls[..n - 1];
    if i < n - 1 {
      LastWalkIsRemembered(calls, app, i, n - 1);
    }
  }

  /** Up to thirty seconds after a walk nothing about its app changes. */
  lemma {:induction false} CostIsStable(calls: seq<Call>, app: string, i: nat, n: nat)
    requires LastRecord(calls, app, i, n)
    requires forall k :: i < k < n ==> calls[k].now <= calls[i].now + DECAY_AFTER
    ensures app in Run(calls[..n]) && Run(calls[..n])[app] == Run(calls[..i + 1])[app]
    ensures app in Run(calls[..i + 1])
    decreases n
  {
    assert calls[..n][..n - 1] == calls[..n - 1];
    if i < n - 1 {
      CostIsStable(calls, app, i, n - 1);
      LastWalkIsRemembered(calls, app, i, n - 1);
      QuietCall(Run(calls[..n - 1]), calls[n - 1], app);
    }
  }

  /** A call that records no walk of `app`, within thirty seconds of its last one. */
  lemma QuietCall(b: Apps, c: Call, app: string)
    requires app in b && !(c.RecordWalk? && c.app == app) && c.now <= b[app].lastWalk + DECAY_AFTER
    ensures app in After(b, c) && After(b, c)[app] == b[app]
  {
  }

  /**
    The answer its tier promises, in nanoseconds since the last walk: Light apps
    rest 200 ms, Moderate 2 s, Heavy 5 s and Critical a minute, and heavier
    apps are walked less deeply and for less time.
   */
  ghost predicate IsAnswer(d: WalkDecision, lastWalk: nat, now: nat) {
    match d.tier
    case Light => d.maxNodes == 5000 && d.timeout == 250_000_000 && (d.walk <==> now >= lastWalk + 200_000_000)
    case Moderate => d.maxNodes == 2000 && d.timeout == 200_000_000 && (d.walk <==> now >= lastWalk + 2_000_000_000)
    case Heavy => d.maxNodes == 1000 && d.timeout == 150_000_000 && (d.walk <==> now >= lastWalk + 5_000_000_000)
    case Critical => d.maxNodes == 500 && d.timeout == 100_000_000 && (d.walk <==> now >= lastWalk + 60_000_000_000)
  }

  lemma DecisionIsAnswer(c: Cost, now: nat)
    ensures IsAnswer(Decision(c, now), c.lastWalk, now)
    ensures Decision(c, now).tier == c.tier && Decayed(c, now).lastWalk == c.lastWalk
  {
  }

  /** Every answer about an app once walked is the one its tier promises. */
  lemma AnswerFollowsTier(calls: seq<Call>, app: string, i: nat, now: nat)
    requires LastRecord(calls, app, i, |calls|)
    ensures IsAnswer(Answer(Run(calls), app, now), calls[i].now, now)
  {
    LastWalkIsRemembered(calls, app, i, |calls|);
    assert calls[..|calls|] == calls;
    DecisionIsAnswer(Decayed(Run(calls)[app], now), now);
    DecisionIsAnswer(Run(calls)[app], now);
  }

  lemma DecisionAfterAMinute(c: Cost, now: nat)
    requires now >= c.lastWalk + 60 * SEC
    ensures Decision(Decayed(c, now), now).walk
  {
    assert Decayed(c, now).lastWalk == c.lastWalk;
  }

  /** Light apps from 200 ms on, Moderate ones from 2 s, Heavy ones from 5 s, Critical ones not. */
  ghost predicate WalksWhenRested(d: WalkDecision, lastWalk: nat, now: nat) {
    d.walk <==>
      match d.tier
      case Light => now >= lastWalk + 200_000_000
      case Moderate => now >= lastWalk + 2_000_000_000
      case Heavy => now >= lastWalk + 5_000_000_000
      case Critical => false
  }

  lemma RestedSoon(d: WalkDecision, lastWalk: nat, now: nat)
    requires IsAnswer(d, lastWalk, now) && now <= lastWalk + 30_000_000_000
    ensures WalksWhenRested(d, lastWalk, now)
  {
  }

  lemma SameTier(c: Cost, now: nat)
    requires now <= c.lastWalk + DECAY_AFTER
    ensures Decision(Decayed(c, now), now).tier == c.tier
  {
  }

  lemma TierIsKept(calls: seq<Call>, app: string, i: nat, now: nat)
    requires LastRecord(calls, app, i, |calls|) && now <= calls[i].now + DECAY_AFTER
    requires forall k :: 0 <= k < |calls| ==> calls[k].now <= now
    ensures app in Run(calls[..i + 1]) && Answer(Run(calls), app, now).tier == Run(calls[..i + 1])[app].tier
  {
    CostIsStable(calls, app, i, |calls|);
    LastWalkIsRemembered(calls, app, i, |calls|);
    assert calls[..|calls|] == calls;
    SameTier(Run(calls)[app], now);
  }

  /**
    For thirty seconds after a walk the app keeps the tier that walk left it in,
    and may be walked again exactly from 200 ms on if that is Light, from 2 s if
    Moderate, from 5 s if Heavy, and not at all if Critical.
   */
  lemma NoEarlyWalk(calls: seq<Call>, app: string, i: nat, now: nat)
    requires LastRecord(calls, app, i, |calls|)
    requires forall k :: 0 <= k < |calls| ==> calls[k].now <= now
    requires now <= calls[i].now + 30_000_000_000
    ensures app in Run(calls[..i + 1])
    ensures var a, at := Answer(Run(calls), app, now), calls[i].now;
            a.tier == Run(calls[..i + 1])[app].tier && WalksWhenRested(a, at, now)
  {
    TierIsKept(calls, app, i, now);
    AnswerFollowsTier(calls, app, i, now);
    RestedSoon(Answer(Run(calls), app, now), calls[i].now, now);
  }

  /** A minute after its last walk an app may always be walked. */
  lemma WalkAfterAMinute(calls: seq<Call>, app: string, i: nat, now: nat)
    requires LastRecord(calls, app, i, |calls|) && now >= calls[i].now + 60_000_000_000
    ensures Answer(Run(calls), app, now).walk
  {
    LastWalkIsRemembered(calls, app, i, |calls|);
    assert calls[..|calls|] == calls;
    DecisionAfterAMinute(Run(calls)[app], now);
  }

  /** An app's last walk is never dated after all calls about it. */
  lemma {:induction false} LastWalkIsPast(calls: seq<Call>, app: string, latest: nat)
    requires forall k :: 0 <= k < |calls| && calls[k].app == app ==> calls[k].now <= latest
    ensures app in Run(calls) ==> Run(calls)[app].lastWalk <= latest
  {
    if |calls| > 0 {
      LastWalkIsPast(calls[..|calls| - 1], app, latest);
    }
  }

  /** A minute in which nothing was said about a known app, walked or only asked about, always ends in a walk. */
  lemma WalkAfterAQuietMinute(calls: seq<Call>, app: string, latest: nat, now: nat)
    requires app in Run(calls) && now >= latest + 60_000_000_000
    requires forall k :: 0 <= k < |calls| && calls[k].app == app ==> calls[k].now <= latest
    ensures Answer(Run(calls), app, now).walk
  {
    LastWalkIsPast(calls, app, latest);
    DecisionAfterAMinute(Run(calls)[app], now);
  }

  /** An app that was only asked about keeps its fresh cost, dated by its first call. */
  lemma {:induction false} AskedOnlyStaysFresh(run: seq<Call> -> Apps, calls: seq<Call>, app: string, i: nat, n: nat)
    requires Executes(run) && i < n <= |calls| && calls[i].app == app && app !in run(calls[..i])
    requires forall k :: i <= k < n && calls[k].app == app ==> calls[k].ShouldWalk?
    ensures app in run(calls[..n]) && run(calls[..n])[app] == FreshCost(calls[i].now)
    decreases n
  {
    var before, c := calls[..n - 1], calls[n - 1];
    if i < n - 1 {
      AskedOnlyStaysFresh(run, calls, app, i, n - 1);
    }
    AskingKeepsFresh(run(before), c, app, calls[i].now);
    assert Then(before, c) == calls[..n];
  }

  lemma AskingKeepsFresh(b: Apps, c: Call, app: string, at: nat)
    requires c.app == app ==> c.ShouldWalk?
    requires if app in b then b[app] == FreshCost(at) else c.app == app && c.now == at
    ensures app in After(b, c) && After(b, c)[app] == FreshCost(at)
  {
  }

  lemma {:induction false} NeverMentioned(calls: seq<Call>, app: string)
    requires forall k :: 0 <= k < |calls| ==> calls[k].app != app
    ensures app !in Run(calls)
  {
    if |calls| > 0 {
      NeverMentioned(calls[..|calls| - 1], app);
    }
  }

  /** Such an app may be walked exactly from 200 ms after its fresh cost's date. */
  lemma AskedOnlyWalkIff(calls: seq<Call>, app: string, i: nat, now: nat)
    requires i < |calls| && calls[i].app == app && forall k :: 0 <= k < i ==> calls[k].app != app
    requires forall k :: 0 <= k < |calls| && calls[k].app == app ==> calls[k].ShouldWalk?
    ensures Answer(Run(calls), app, now).walk <==> now >= FreshCost(calls[i].now).lastWalk + 200_000_000
  {
    RunExecutes();
    NeverMentioned(calls[..i], app);
    AskedOnlyStaysFresh(Run, calls, app, i, |calls|);
    assert calls[..|calls|] == calls;
  }

  /**
    The first walk of an app is allowed at once exactly when the clock reaches
    back ten minutes; otherwise the app counts as walked just now.
   */
  lemma {:induction false} FirstWalkIffClockOldEnough(calls: seq<Call>, app: string, now: nat)
    requires CallsOf(calls, app) == []
    ensures Answer(Run(calls), app, now).walk <==> now >= 600_000_000_000
    ensures Answer(Run(calls), app, now).tier == Light
  {
    AppsAreIndependent(calls, app);
  }

  // ----- Recovery ------------------------------------------------------------------------------------------

  /** Untruncated walks under 50 ms, one after the other. */
  datatype Quick = Quick(duration: nat, now: nat)

  function RecordAll(c: Cost, walks: seq<Quick>): Cost {
    if |walks| == 0 then c
    else
      var n := |walks| - 1;
      Recorded(RecordAll(c, walks[..n]), walks[n].duration, false, walks[n].now)
  }

  ghost predicate AllQuick(s: seq<nat>) {
    forall k :: 0 <= k < |s| ==> s[k] < 50 * MS
  }

  lemma {:induction false} QuickAverage(s: seq<nat>)
    requires AllQuick(s) && |s| > 0
    ensures Sum(s) < 50 * MS * |s| && AvgDuration(s) < 50 * MS
  {
    if |s| > 1 {
      QuickAverage(s[..|s| - 1]);
    }
    assert Sum(s) == Sum(s[..|s| - 1]) + s[|s| - 1];
    assert Sum(s) < 50 * MS * |s|;
    DivideBelow(Sum(s), |s|, 50 * MS);
  }

  lemma DivideBelow(x: nat, n: nat, bound: nat)
    requires n > 0 && x < bound * n
    ensures x / n < bound
  {
    assert x == x / n * n + x % n;
  }

  /** The window grows to its size, and from then on every walk takes one truncation away. */
  lemma {:induction false} CountAfter(c: Cost, walks: seq<Quick>)
    requires |c.durations| <= WINDOW_SIZE
    ensures var r, m := RecordAll(c, walks), |walks|;
            && |r.durations| == (if |c.durations| + m < WINDOW_SIZE then |c.durations| + m else WINDOW_SIZE)
            && r.truncations == SaturatingSub(c.truncations, SaturatingSub(|c.durations| + m, WINDOW_SIZE))
  {
    if |walks| > 0 {
      CountAfter(c, walks[..|walks| - 1]);
    }
  }

  /** Counted from the end, a sample moves one place back. */
  lemma SlideShifts(ds: seq<nat>, duration: nat, k: nat)
    requires k < |Slide(ds, duration)|
    ensures k <= |ds|
    ensures Slide(ds, duration)[|Slide(ds, duration)| - 1 - k] == if k == 0 then duration else ds[|ds| - k]
  {
  }

  /** The window alone, after a run of walks. */
  function SlideAll(ds: seq<nat>, walks: seq<Quick>): seq<nat> {
    if |walks| == 0 then ds else Slide(SlideAll(ds, walks[..|walks| - 1]), walks[|walks| - 1].duration)
  }

  lemma {:induction false} WindowIsSlid(c: Cost, walks: seq<Quick>)
    ensures RecordAll(c, walks).durations == SlideAll(c.durations, walks)
  {
    if |walks| > 0 {
      WindowIsSlid(c, walks[..|walks| - 1]);
    }
  }

  /** Counted from the end, sample `k` of the window is walk `k`. */
  lemma {:induction false} WindowAfter(ds: seq<nat>, walks: seq<Quick>, k: nat)
    requires k < |walks| && k < |SlideAll(ds, walks)|
    ensures var w := SlideAll(ds, walks); w[|w| - 1 - k] == walks[|walks| - 1 - k].duration
  {
    var n := |walks| - 1;
    SlideShifts(SlideAll(ds, walks[..n]), walks[n].duration, k);
    if k > 0 {
      WindowAfter(ds, walks[..n], k - 1);
    }
  }

  /**
    After eight or more quick walks an app is Light exactly when the slides of
    the window have brought its truncation count below three.
   */
  lemma RecoveryIff(c: Cost, walks: seq<Quick>)
    requires |c.durations| <= WINDOW_SIZE && |walks| >= WINDOW_SIZE
    requires forall k :: 0 <= k < |walks| ==> walks[k].duration < 50 * MS
    ensures RecordAll(c, walks).tier == Light <==> c.truncations + 6 <= |c.durations| + |walks|
  {
    CountAfter(c, walks);
    var r := RecordAll(c, walks);
    WindowIsSlid(c, walks);
    forall k | 0 <= k < |r.durations| ensures r.durations[k] < 50 * MS {
      WindowAfter(c.durations, walks, |r.durations| - 1 - k);
    }
    QuickAverage(r.durations);
    assert r.tier == ComputeTier(r.durations, r.truncations);
  }

  // ----- Recovery while the app is also asked about -----------------------------------------------------------

  /** Among `more`, the app's recorded walks are all untruncated and under 50 ms; anything else may happen. */
  ghost predicate OnlyQuick(more: seq<Call>, app: string) {
    forall k :: 0 <= k < |more| && more[k].RecordWalk? && more[k].app == app ==>
      !more[k].truncated && more[k].duration < 50 * MS
  }

  predicate Records(c: Call, app: string) {
    c.RecordWalk? && c.app == app
  }

  /** How many walks of the app are recorded. */
  function RecordCount(more: seq<Call>, app: string): nat {
    if |more| == 0 then 0
    else RecordCount(more[..|more| - 1], app) + if Records(more[|more| - 1], app) then 1 else 0
  }

  /** The newest `r` samples, as far as the window reaches, are quick. */
  ghost predicate NewestQuick(ds: seq<nat>, r: nat) {
    forall k :: 0 <= k < |ds| && |ds| - r <= k ==> ds[k] < 50 * MS
  }

  /** What has to be worked off: a slide takes two from it, a refill one, and decay never adds to it. */
  function Burden(c: Cost): int {
    2 * c.truncations + WINDOW_SIZE - |c.durations|
  }

  /** `c` is `r` quick walks on the way from `c0`. */
  ghost predicate Recovering(c0: Cost, c: Cost, r: nat) {
    && CostOk(c) && NewestQuick(c.durations, r)
    && (c.truncations >= TRUNCATION_ESCALATE ==> Burden(c) + r <= Burden(c0))
  }

  lemma SlideKeepsQuick(ds: seq<nat>, r: nat, duration: nat)
    requires NewestQuick(ds, r) && duration < 50 * MS
    ensures NewestQuick(Slide(ds, duration), r + 1)
  {
    var next := Slide(ds, duration);
    forall k | 0 <= k < |next| && |next| - (r + 1) <= k ensures next[k] < 50 * MS {
      SlideShifts(ds, duration, |next| - 1 - k);
    }
  }

  lemma QuickWalkRecovers(c0: Cost, c: Cost, r: nat, duration: nat, now: nat)
    requires Recovering(c0, c, r) && duration < 50 * MS
    ensures Recovering(c0, Recorded(c, duration, false, now), r + 1)
  {
    SlideKeepsQuick(c.durations, r, duration);
    var next := Recorded(c, duration, false, now);
    assert next.tier == ComputeTier(next.durations, next.truncations);
  }

  lemma DecayRecovers(c0: Cost, c: Cost, r: nat, now: nat)
    requires Recovering(c0, c, r)
    ensures Recovering(c0, Decayed(c, now), r)
  {
    var m := |c.durations| / 2;
    assert forall k :: 0 <= k < |c.durations| - m ==> c.durations[m..][k] == c.durations[k + m];
  }

  lemma CallRecovers(c0: Cost, b: Apps, app: string, r: nat, c: Call)
    requires app in b && Recovering(c0, b[app], r)
    requires Records(c, app) ==> !c.truncated && c.duration < 50 * MS
    ensures app in After(b, c) && Recovering(c0, After(b, c)[app], if Records(c, app) then r + 1 else r)
  {
    if Records(c, app) {
      QuickWalkRecovers(c0, b[app], r, c.duration, c.now);
    } else if c.app == app {
      DecayRecovers(c0, b[app], r, c.now);
    }
  }

  lemma NextRecovers(run: seq<Call> -> Apps, c0: Cost, calls: seq<Call>, app: string, r: nat, c: Call)
    requires Executes(run) && app in run(calls) && Recovering(c0, run(calls)[app], r)
    requires Records(c, app) ==> !c.truncated && c.duration < 50 * MS
    ensures app in run(calls + [c]) && Recovering(c0, run(calls + [c])[app], if Records(c, app) then r + 1 else r)
  {
    assert Then(calls, c) == calls + [c];
    CallRecovers(c0, run(calls), app, r, c);
  }

  lemma {:induction false} RunRecovers(run: seq<Call> -> Apps, calls: seq<Call>, more: seq<Call>, app: string)
    requires Executes(run) && app in run(calls) && CostOk(run(calls)[app]) && OnlyQuick(more, app)
    ensures app in run(calls + more) && Recovering(run(calls)[app], run(calls + more)[app], RecordCount(more, app))
  {
    if |more| == 0 {
      assert calls + more == calls;
    } else {
      var before, c := more[..|more| - 1], more[|more| - 1];
      RunRecovers(run, calls, before, app);
      NextRecovers(run, run(calls)[app], calls + before, app, RecordCount(before, app), c);
      assert calls + more == calls + before + [c];
    }
  }

  lemma RecoveredIsLight(c0: Cost, c: Cost, r: nat)
    requires Recovering(c0, c, r) && r >= WINDOW_SIZE && r > Burden(c0) - 6
    ensures c.tier == Light
  {
    if |c.durations| > 0 {
      QuickAverage(c.durations);
    }
  }

  /**
    From every reachable state, whatever is asked in between and however often
    the window decays, an app is Light after eight quick walks and as many as
    `2 * truncations + 3 - window length`.
   */
  lemma RecoversWithin(calls: seq<Call>, more: seq<Call>, app: string)
    requires app in Run(calls) && OnlyQuick(more, app)
    requires RecordCount(more, app) >= WINDOW_SIZE
    requires RecordCount(more, app) + |Run(calls)[app].durations| >= 2 * Run(calls)[app].truncations + 3
    ensures app in Run(calls + more) && Run(calls + more)[app].tier == Light
  {
    RunExecutes();
    RunKeepsTiers(calls);
    RunRecovers(Run, calls, more, app);
    RecoveredIsLight(Run(calls)[app], Run(calls + more)[app], RecordCount(more, app));
  }

  /** In particular after eight walks plus two for every truncation. */
  lemma AlwaysRecovers(calls: seq<Call>, more: seq<Call>, app: string)
    requires app in Run(calls) && OnlyQuick(more, app)
    requires RecordCount(more, app) >= WINDOW_SIZE + 2 * Run(calls)[app].truncations
    ensures app in Run(calls + more) && Run(calls + more)[app].tier == Light
  {
    RecoversWithin(calls, more, app);
  }

  // ----- Rounds of calls ---------------------------------------------------------------------------------------------

  /** `n` walks that take no time, all at `now`. */
  function Burst(app: string, now: nat, truncated: bool, n: nat): seq<Call> {
    seq(n, _ => RecordWalk(app, now, 0, truncated))
  }

  /** Ask after a pause, then walk four times. */
  function Round(app: string, now: nat, truncated: bool): seq<Call> {
    [ShouldWalk(app, now)] + Burst(app, now, truncated, 4)
  }

  /** The time of round `k`: each just late enough for the window to decay. */
  function Tick(k: nat): nat {
    if k == 0 then 0 else Tick(k - 1) + DECAY_AFTER + 1
  }

  function Rounds(app: string, from: nat, n: nat, truncated: bool): seq<Call> {
    if n == 0 then [] else Rounds(app, from, n - 1, truncated) + Round(app, Tick(from + n), truncated)
  }

  /** The app has `size` samples and `n` truncations, its last walk was at `at`, and three truncations make it Critical. */
  ghost predicate Stands(b: Apps, app: string, size: nat, n: int, at: nat) {
    && app in b && |b[app].durations| == size && b[app].truncations == n && b[app].lastWalk == at
    && (n >= TRUNCATION_ESCALATE ==> b[app].tier == Critical)
  }

  lemma RecordStands(run: seq<Call> -> Apps, calls: seq<Call>, app: string, size: nat, n: nat, at: nat, now: nat,
                     truncated: bool)
    requires Executes(run) && Stands(run(calls), app, size, n, at) && size < WINDOW_SIZE
    ensures Stands(run(calls + [RecordWalk(app, now, 0, truncated)]), app, size + 1, n + (if truncated then 1 else 0), now)
  {
    assert Then(calls, RecordWalk(app, now, 0, truncated)) == calls + [RecordWalk(app, now, 0, truncated)];
  }

  /** On a full window decay drops four samples and two truncations. */
  lemma AskStands(run: seq<Call> -> Apps, calls: seq<Call>, app: string, n: nat, at: nat, now: nat)
    requires Executes(run) && Stands(run(calls), app, WINDOW_SIZE, n, at)
    requires n >= TRUNCATION_ESCALATE && now > at + DECAY_AFTER
    ensures Stands(run(calls + [ShouldWalk(app, now)]), app, 4, n - 2, at)
  {
    assert Then(calls, ShouldWalk(app, now)) == calls + [ShouldWalk(app, now)];
  }

  /** While the window has room, walks add samples, and truncated ones add truncations. */
  lemma {:induction false} BurstStands(run: seq<Call> -> Apps, calls: seq<Call>, app: string, size: nat, n: nat, at: nat,
                                       now: nat, truncated: bool, m: nat)
    requires Executes(run) && Stands(run(calls), app, size, n, at) && size + m <= WINDOW_SIZE && m > 0
    ensures Stands(run(calls + Burst(app, now, truncated, m)), app, size + m, n + (if truncated then m else 0), now)
  {
    var before := calls + Burst(app, now, truncated, m - 1);
    if m == 1 {
      assert before == calls;
      RecordStands(run, calls, app, size, n, at, now, truncated);
    } else {
      BurstStands(run, calls, app, size, n, at, now, truncated, m - 1);
      RecordStands(run, before, app, size + m - 1, n + (if truncated then m - 1 else 0), now, now, truncated);
    }
    assert calls + Burst(app, now, truncated, m) == before + [RecordWalk(app, now, 0, truncated)];
  }

  /** The truncation count after `m` rounds. */
  function CountAt(n: int, m: nat, truncated: bool): int {
    if truncated then n + 2 * m else n - 2 * m
  }

  /** A round leaves a full window full, with two truncations more or fewer. */
  lemma RoundStands(run: seq<Call> -> Apps, calls: seq<Call>, app: string, n: nat, at: nat, now: nat, truncated: bool)
    requires Executes(run) && Stands(run(calls), app, WINDOW_SIZE, n, at)
    requires n >= TRUNCATION_ESCALATE && now > at + DECAY_AFTER
    ensures Stands(run(calls + Round(app, now, truncated)), app, WINDOW_SIZE, CountAt(n, 1, truncated), now)
  {
    var asked := calls + [ShouldWalk(app, now)];
    AskStands(run, calls, app, n, at, now);
    BurstStands(run, asked, app, 4, n - 2, at, now, truncated, 4);
    assert calls + Round(app, now, truncated) == asked + Burst(app, now, truncated, 4);
  }

  lemma {:induction false} RoundsStand(run: seq<Call> -> Apps, calls: seq<Call>, app: string, n: nat, from: nat, m: nat,
                                       truncated: bool)
    requires Executes(run) && Stands(run(calls), app, WINDOW_SIZE, n, Tick(from))
    requires n >= TRUNCATION_ESCALATE && CountAt(n, m, truncated) >= TRUNCATION_ESCALATE
    ensures Stands(run(calls + Rounds(app, from, m, truncated)), app, WINDOW_SIZE, CountAt(n, m, truncated),
                   Tick(from + m))
  {
    if m == 0 {
      assert calls + Rounds(app, from, 0, truncated) == calls;
    } else {
      var before, round := Rounds(app, from, m - 1, truncated), Round(app, Tick(from + m), truncated);
      RoundsStand(run, calls, app, n, from, m - 1, truncated);
      RoundStands(run, calls + before, app, CountAt(n, m - 1, truncated), Tick(from + m - 1), Tick(from + m), truncated);
      assert calls + before + round == calls + (before + round);
    }
  }

  /** Calls in order of time, none after `latest`. */
  ghost predicate Timed(calls: seq<Call>, latest: nat) {
    ClockAdvances(calls) && forall k :: 0 <= k < |calls| ==> calls[k].now <= latest
  }

  lemma TimedConcat(calls: seq<Call>, more: seq<Call>, latest: nat, now: nat)
    requires Timed(calls, latest) && latest <= now && forall k :: 0 <= k < |more| ==> more[k].now == now
    ensures Timed(calls + more, now)
  {
  }

  lemma {:induction false} TimedRounds(calls: seq<Call>, app: string, from: nat, n: nat, truncated: bool)
    requires Timed(calls, Tick(from))
    ensures Timed(calls + Rounds(app, from, n, truncated), Tick(from + n))
  {
    if n == 0 {
      assert calls + Rounds(app, from, 0, truncated) == calls;
    } else {
      var before, round := Rounds(app, from, n - 1, truncated), Round(app, Tick(from + n), truncated);
      TimedRounds(calls, app, from, n - 1, truncated);
      TimedConcat(calls + before, round, Tick(from + n - 1), Tick(from + n));
      assert calls + before + round == calls + (before + round);
    }
  }

  // ----- Runs that show the bounds are sharp -----------------------------------------------------------------------------

  /** After `calls`, in order of time, the app's window is full with `n` truncations, its last walk at `at`. */
  ghost predicate Fills(run: seq<Call> -> Apps, calls: seq<Call>, app: string, n: int, at: nat) {
    Timed(calls, at) && Stands(run(calls), app, WINDOW_SIZE, n, at)
  }

  lemma RoundsFill(run: seq<Call> -> Apps, calls: seq<Call>, app: string, n: nat, from: nat, m: nat, truncated: bool)
    requires Executes(run) && Fills(run, calls, app, n, Tick(from))
    requires n >= TRUNCATION_ESCALATE && CountAt(n, m, truncated) >= TRUNCATION_ESCALATE
    ensures Fills(run, calls + Rounds(app, from, m, truncated), app, CountAt(n, m, truncated), Tick(from + m))
  {
    RoundsStand(run, calls, app, n, from, m, truncated);
    TimedRounds(calls, app, from, m, truncated);
  }

  /** Eight walks at time 0, all truncated, or all but the first. */
  function Opening(app: string, odd: bool): seq<Call> {
    [RecordWalk(app, 0, 0, !odd)] + Burst(app, 0, true, 7)
  }

  lemma OpeningFills(run: seq<Call> -> Apps, app: string, odd: bool)
    requires Executes(run) && run([]) == map[]
    ensures Fills(run, Opening(app, odd), app, if odd then 7 else 8, Tick(0))
  {
    var first := RecordWalk(app, 0, 0, !odd);
    assert Then([], first) == [first];
    assert Stands(run([first]), app, 1, if odd then 0 else 1, 0);
    BurstStands(run, [first], app, 1, if odd then 0 else 1, 0, 0, true, 7);
  }

  lemma LoadedRun(run: seq<Call> -> Apps, app: string, n: nat, odd: bool) returns (calls: seq<Call>)
    requires Executes(run) && run([]) == map[]
    ensures Fills(run, calls, app, (if odd then 7 else 8) + 2 * n, Tick(n))
  {
    OpeningFills(run, app, odd);
    RoundsFill(run, Opening(app, odd), app, if odd then 7 else 8, 0, n, true);
    calls := Opening(app, odd) + Rounds(app, 0, n, true);
  }

  /**
    The truncation count is not bounded by the window: for every `n` there is a
    run that leaves a window of eight samples with `8 + 2 * n` truncations.
   */
  lemma TruncationsAreUnbounded(app: string, n: nat) returns (calls: seq<Call>)
    ensures ClockAdvances(calls) && app in Run(calls)
    ensures |Run(calls)[app].durations| == 8 && Run(calls)[app].truncations == 8 + 2 * n
  {
    RunExecutes();
    calls := LoadedRun(Run, app, n, false);
  }

  lemma {:induction false} CountConcat(a: seq<Call>, b: seq<Call>, app: string)
    ensures RecordCount(a + b, app) == RecordCount(a, app) + RecordCount(b, app)
    decreases |b|
  {
    if |b| == 0 {
      assert a + b == a;
    } else {
      assert (a + b)[..|a + b| - 1] == a + b[..|b| - 1];
      CountConcat(a, b[..|b| - 1], app);
    }
  }

  lemma {:induction false} CountBurst(app: string, now: nat, truncated: bool, n: nat)
    ensures RecordCount(Burst(app, now, truncated, n), app) == n
  {
    if n > 0 {
      CountBurst(app, now, truncated, n - 1);
      assert Burst(app, now, truncated, n)[..n - 1] == Burst(app, now, truncated, n - 1);
    }
  }

  lemma {:induction false} QuickRounds(app: string, from: nat, n: nat)
    ensures OnlyQuick(Rounds(app, from, n, false), app) && RecordCount(Rounds(app, from, n, false), app) == 4 * n
  {
    if n > 0 {
      QuickRounds(app, from, n - 1);
      var now := Tick(from + n);
      CountBurst(app, now, false, 4);
      assert [ShouldWalk(app, now)][..0] == [];
      CountConcat([ShouldWalk(app, now)], Burst(app, now, false, 4), app);
      CountConcat(Rounds(app, from, n - 1, false), Round(app, now, false), app);
    }
  }

  lemma SharpRun(run: seq<Call> -> Apps, app: string, n: nat) returns (calls: seq<Call>, more: seq<Call>)
    requires Executes(run) && run([]) == map[] && n >= 2
    ensures Fills(run, calls, app, 2 * n + 3, Tick(n - 2)) && Fills(run, calls + more, app, 3, Tick(n - 2 + n))
    ensures OnlyQuick(more, app) && RecordCount(more, app) == 4 * n
  {
    calls := LoadedRun(run, app, n - 2, true);
    more := Rounds(app, n - 2, n, false);
    RoundsFill(run, calls, app, 2 * n + 3, n - 2, n, false);
    QuickRounds(app, n - 2, n);
  }

  /**
    The bound is sharp, and eight plus the truncation count is not enough: for
    every `n >= 2` there is a reachable full window with `2 * n + 3` truncations
    that `4 * n`, one fewer than the bound, quick walks leave Critical.
   */
  lemma RecoveryIsSharp(app: string, n: nat) returns (calls: seq<Call>, more: seq<Call>)
    requires n >= 2
    ensures ClockAdvances(calls + more) && app in Run(calls) && app in Run(calls + more) && OnlyQuick(more, app)
    ensures |Run(calls)[app].durations| == WINDOW_SIZE && Run(calls)[app].truncations == 2 * n + 3
    ensures RecordCount(more, app) == 4 * n
    ensures RecordCount(more, app) + |Run(calls)[app].durations| == 2 * Run(calls)[app].truncations + 2
    ensures n >= 6 ==> RecordCount(more, app) > WINDOW_SIZE + Run(calls)[app].truncations
    ensures Run(calls + more)[app].tier == Critical
  {
    RunExecutes();
    calls, more := SharpRun(Run, app, n);
  }

  // ----- What decay does and does not do ----------------------------------------------------------------------------

  /**
    A question changes an app's cost exactly when the app has rested for more
    than 30 s, is not Light and has more than two samples; then the newest half
    stays, rounded up, and two truncations go.
   */
  lemma DecayIff(c: Cost, now: nat)
    ensures Decayed(c, now) != c <==> now > c.lastWalk + 30_000_000_000 && c.tier != Light && |c.durations| >= 3
    ensures Decayed(c, now) != c ==>
      var d, n := Decayed(c, now), |c.durations|;
      && d.durations <= c.durations[n / 2..] && |d.durations| == n - n / 2 && d.lastWalk == c.lastWalk
      && d.truncations == if c.truncations < 2 then 0 else c.truncations - 2
  {
    if DecayFires(c, now) {
      assert |Decayed(c, now).durations| < |c.durations|;
    }
  }

  /** Recording a walk never lifts the truncation count above the number of samples. */
  lemma RecordKeepsCountInWindow(c: Cost, duration: nat, truncated: bool, now: nat)
    requires c.truncations <= |c.durations| <= WINDOW_SIZE
    ensures var r := Recorded(c, duration, truncated, now); r.truncations <= |r.durations| <= WINDOW_SIZE
  {
  }

  /** Halving the window leaves room for all but two of the truncations. */
  predicate Gentle(c: Cost) {
    c.truncations - 2 <= |c.durations| - |c.durations| / 2
  }

  /** A decay keeps it so exactly when it is gentle; windows of up to five samples are safe. */
  lemma DecayKeepsCountIff(c: Cost, now: nat)
    requires DecayFires(c, now)
    ensures var d := Decayed(c, now); d.truncations <= |d.durations| <==> Gentle(c)
    ensures c.truncations <= |c.durations| <= 5 ==> Decayed(c, now).truncations <= |Decayed(c, now).durations|
  {
  }

  /** Call `k` is the app's and makes its window decay. */
  ghost predicate Decays(calls: seq<Call>, app: string, k: nat) {
    && k < |calls| && calls[k].app == app && calls[k].ShouldWalk?
    && app in Run(calls[..k]) && DecayFires(Run(calls[..k])[app], calls[k].now)
  }

  ghost predicate CountInWindow(b: Apps, app: string) {
    app in b ==> b[app].truncations <= |b[app].durations|
  }

  lemma CallKeepsCountIff(b: Apps, c: Call, app: string)
    requires CountInWindow(b, app) && (app in b ==> CostOk(b[app]))
    ensures CountInWindow(After(b, c), app) <==>
      (c.app == app && c.ShouldWalk? && app in b && DecayFires(b[app], c.now) ==>
         Gentle(b[app]))
  {
    if app in b && c.app == app {
      if c.RecordWalk? {
        RecordKeepsCountInWindow(b[app], c.duration, c.truncated, c.now);
      } else if DecayFires(b[app], c.now) {
        DecayKeepsCountIff(b[app], c.now);
      }
    }
  }

  lemma RoughDecay(calls: seq<Call>, app: string, k: nat)
    requires Decays(calls, app, k) && !Gentle(Run(calls[..k])[app]) && CountInWindow(Run(calls[..k]), app)
    ensures !CountInWindow(Run(calls[..k + 1]), app)
  {
    RunKeepsTiers(calls[..k]);
    CallKeepsCountIff(Run(calls[..k]), calls[k], app);
    RunNext(calls[..k], calls[k]);
    assert calls[..k + 1] == calls[..k] + [calls[k]];
  }

  /** Over a whole run the count stays within the window exactly when every decay drops few enough samples. */
  lemma CountStaysInWindowIff(calls: seq<Call>, app: string)
    ensures (forall n :: 0 <= n <= |calls| ==> CountInWindow(Run(calls[..n]), app)) <==>
            (forall k: nat :: Decays(calls, app, k) ==> Gentle(Run(calls[..k])[app]))
  {
    if k: nat :| Decays(calls, app, k) && !Gentle(Run(calls[..k])[app]) {
      if CountInWindow(Run(calls[..k]), app) {
        RoughDecay(calls, app, k);
      }
    } else {
      forall n | 0 <= n <= |calls| ensures CountInWindow(Run(calls[..n]), app) {
        GentleRun(calls, app, n);
      }
    }
  }

  lemma {:induction false} GentleRun(calls: seq<Call>, app: string, n: nat)
    requires n <= |calls|
    requires forall k: nat :: Decays(calls, app, k) ==> Gentle(Run(calls[..k])[app])
    ensures CountInWindow(Run(calls[..n]), app)
  {
    if n > 0 {
      GentleRun(calls, app, n - 1);
      RunKeepsTiers(calls[..n - 1]);
      CallKeepsCountIff(Run(calls[..n - 1]), calls[n - 1], app);
      assert calls[..n][..n - 1] == calls[..n - 1];
      assert Decays(calls, app, n - 1) || !Decays(calls, app, n - 1);
    }
  }

  function Rank(t: WalkTier): nat {
    match t
    case Light => 0
    case Moderate => 1
    case Heavy => 2
    case Critical => 3
  }

  /**
    Decay makes the tier worse exactly when the newest half of the window alone
    reaches the next threshold: from Heavy at 250 ms, from Moderate at 150 ms.
   */
  lemma DecayEscalatesIff(c: Cost, now: nat)
    requires CostOk(c) && DecayFires(c, now)
    ensures var half := c.durations[|c.durations| / 2..];
            Rank(Decayed(c, now).tier) > Rank(c.tier) <==>
              || (c.tier == Heavy && Sum(half) >= 250 * MS * |half|)
              || (c.tier == Moderate && Sum(half) >= 150 * MS * |half|)
    ensures c.tier == Heavy ==>
      var half := c.durations[|c.durations| / 2..]; Decayed(c, now).tier == Critical <==> Sum(half) >= 250 * MS * |half|
  {
    var half := c.durations[|c.durations| / 2..];
    TierByTotals(c.durations, c.truncations);
    TierByTotals(half, SaturatingSub(c.truncations, 2));
  }

  /** Two instant walks and two of 400 ms. */
  function SlowingDown(app: string, at: nat): seq<Call> {
    [RecordWalk(app, at, 0, false), RecordWalk(app, at, 0, false),
     RecordWalk(app, at, 400 * MS, false), RecordWalk(app, at, 400 * MS, false)]
  }

  /** The app's window is `ds`, without truncations, its last walk at `at`. */
  ghost predicate HasWindow(b: Apps, app: string, ds: seq<nat>, at: nat) {
    app in b && b[app].durations == ds && b[app].truncations == 0 && b[app].lastWalk == at
  }

  lemma WindowGrows(run: seq<Call> -> Apps, calls: seq<Call>, app: string, ds: seq<nat>, at: nat, duration: nat)
    requires Executes(run) && |ds| < WINDOW_SIZE
    requires HasWindow(run(calls), app, ds, at) || (ds == [] && app !in run(calls))
    ensures HasWindow(run(calls + [RecordWalk(app, at, duration, false)]), app, ds + [duration], at)
  {
    assert Then(calls, RecordWalk(app, at, duration, false)) == calls + [RecordWalk(app, at, duration, false)];
  }

  lemma SlowingWindow(run: seq<Call> -> Apps, app: string, at: nat)
    requires Executes(run) && run([]) == map[]
    ensures HasWindow(run(SlowingDown(app, at)), app, [0, 0, 400 * MS, 400 * MS], at)
  {
    var quick, slow := RecordWalk(app, at, 0, false), RecordWalk(app, at, 400 * MS, false);
    WindowGrows(run, [], app, [], at, 0);
    assert [] + [quick] == [quick] && [] + [0] == [0];
    WindowGrows(run, [quick], app, [0], at, 0);
    assert [quick] + [quick] == [quick, quick] && [0] + [0] == [0, 0];
    WindowGrows(run, [quick, quick], app, [0, 0], at, 400 * MS);
    assert [quick, quick] + [slow] == [quick, quick, slow] && [0, 0] + [400 * MS] == [0, 0, 400 * MS];
    WindowGrows(run, [quick, quick, slow], app, [0, 0, 400 * MS], at, 400 * MS);
    assert [quick, quick, slow] + [slow] == SlowingDown(app, at);
    assert [0, 0, 400 * MS] + [400 * MS] == [0, 0, 400 * MS, 400 * MS];
  }

  lemma RunSlowingDown(app: string, at: nat)
    ensures HasWindow(Run(SlowingDown(app, at)), app, [0, 0, 400 * MS, 400 * MS], at)
    ensures CostOk(Run(SlowingDown(app, at))[app])
  {
    var run := Run;
    RunExecutes();
    SlowingWindow(run, app, at);
    RunKeepsTiers(SlowingDown(app, at));
  }

  lemma SlowHalf(c: Cost, now: nat)
    requires CostOk(c) && c.durations == [0, 0, 400 * MS, 400 * MS] && c.truncations == 0 && now > c.lastWalk + DECAY_AFTER
    ensures c.tier == Heavy && Decayed(c, now).tier == Critical
  {
    var s := c.durations;
    assert s[..3] == [0, 0, 400 * MS] && s[..3][..2] == [0, 0] && s[2..] == [400 * MS, 400 * MS];
    assert Sum([0, 0]) == 0 by { assert [0, 0][..1] == [0]; }
    assert Sum(s[..3]) == 400 * MS;
    assert Sum(s) == 800 * MS;
    assert Sum(s[2..]) == 800 * MS by { assert s[2..][..1] == [400 * MS]; }
    TierByTotals(s, 0);
    DecayEscalatesIff(c, now);
  }

  /** It does happen: a Heavy app is Critical when it is next asked about. */
  lemma DecayCanEscalate(app: string, at: nat, now: nat)
    requires now > at + 30_000_000_000
    ensures app in Run(SlowingDown(app, at)) && Run(SlowingDown(app, at))[app].tier == Heavy
    ensures Answer(Run(SlowingDown(app, at)), app, now).tier == Critical
  {
    RunSlowingDown(app, at);
    SlowHalf(Run(SlowingDown(app, at))[app], now);
  }

  // ----- The objects the capture loop holds ---------------------------------------------------------------------

  class AppCost {
    var durations: seq<nat>
    var truncationCount: nat
    var lastWalk: nat
    var tier: WalkTier

    ghost function Value(): Cost
      reads this
    {
      Cost(durations, truncationCount, lastWalk, tier)
    }

    constructor (now: nat)
      ensures Value() == FreshCost(now)
    {
      durations, truncationCount, tier := [], 0, Light;
      lastWalk := if now >= 600 * SEC then now - 600 * SEC else now;
    }

    method Average() returns (avg: nat)
      ensures avg == AvgDuration(durations)
    {
      if |durations| == 0 {
        return 0;
      }
      var sum := 0;
      for i := 0 to |durations|
        invariant sum == Sum(durations[..i])
      {
        assert durations[..i + 1][..i] == durations[..i];
        sum := sum + durations[i];
      }
      assert durations[..|durations|] == durations;
      avg := sum / |durations|;
    }

    method TierNow() returns (t: WalkTier)
      ensures t == ComputeTier(durations, truncationCount)
    {
      if truncationCount >= TRUNCATION_ESCALATE {
        return Critical;
      }
      var avg := Average();
      t := if avg >= 250 * MS then Critical
      else if avg >= 150 * MS then Heavy
      else if avg >= 50 * MS then Moderate
      else Light;
    }

    method Record(duration: nat, truncated: bool, now: nat)
      modifies this
      ensures Value() == Recorded(old(Value()), duration, truncated, now)
    {
      if |durations| >= WINDOW_SIZE {
        durations := durations[1..];
        truncationCount := SaturatingSub(truncationCount, 1);
      }
      durations := durations + [duration];
      if truncated {
        truncationCount := truncationCount + 1;
      }
      lastWalk := now;
      tier := TierNow();
    }

    method MaybeDecay(now: nat)
      modifies this
      ensures Value() == Decayed(old(Value()), now)
    {
      if SaturatingSub(now, lastWalk) > DECAY_AFTER && tier != Light {
        if |durations| > 2 {
          durations := durations[|durations| / 2..];
          truncationCount := SaturatingSub(truncationCount, 2);
          tier := TierNow();
        }
      }
    }
  }

  class AppWalkBudget {
    var apps: map<string, AppCost>

    /** No two apps share a cost object. */
    ghost predicate Valid()
      reads this
    {
      forall x, y :: x in apps && y in apps && x != y ==> apps[x] != apps[y]
    }

    ghost function View(): Apps
      reads this, apps.Values
    {
      map x | x in apps :: apps[x].Value()
    }

    constructor ()
      ensures Valid() && View() == Run([])
    {
      apps := map[];
    }

    /** The app's cost object, created if this is its first call. */
    method GetEntry(app: string, now: nat) returns (cost: AppCost)
      requires Valid()
      modifies this
      ensures Valid() && app in apps && apps[app] == cost
      ensures View() == old(View())[app := Entry(old(View()), app, now)]
      ensures fresh(apps.Values - old(apps.Values))
    {
      if app !in apps {
        cost := new AppCost(now);
        apps := apps[app := cost];
      } else {
        cost := apps[app];
      }
    }

    method ShouldWalk(app: string, now: nat) returns (d: WalkDecision)
      requires Valid()
      modifies this, apps.Values
      ensures Valid() && View() == After(old(View()), Call.ShouldWalk(app, now))
      ensures d == Answer(old(View()), app, now)
      ensures app in View() && d.tier == View()[app].tier && IsAnswer(d, View()[app].lastWalk, now)
      ensures fresh(apps.Values - old(apps.Values))
    {
      var cost := GetEntry(app, now);
      ghost var mid := View();
      cost.MaybeDecay(now);
      assert View() == mid[app := Decayed(mid[app], now)];
      var limits := match cost.tier
        case Light => (200 * MS, 5000, 250 * MS)
        case Moderate => (2 * SEC, 2000, 200 * MS)
        case Heavy => (5 * SEC, 1000, 150 * MS)
        case Critical => (60 * SEC, 500, 100 * MS);
      var walk := SaturatingSub(now, cost.lastWalk) >= limits.0;
      d := WalkDecision(walk, limits.1, limits.2, cost.tier);
    }

    method RecordWalk(app: string, now: nat, duration: nat, truncated: bool)
      requires Valid()
      modifies this, apps.Values
      ensures Valid() && View() == After(old(View()), Call.RecordWalk(app, now, duration, truncated))
      ensures fresh(apps.Values - old(apps.Values))
    {
      var cost := GetEntry(app, now);
      ghost var mid := View();
      cost.Record(duration, truncated, now);
      assert View() == mid[app := Recorded(mid[app], duration, truncated, now)];
    }
  }
}
