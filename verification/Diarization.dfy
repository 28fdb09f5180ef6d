/**
  The diarization scorer: paint segments onto 10 ms frames, rename hypothesis
  speakers through the greedy mapping, and tally the disagreements.
 */
module Diarization {
  import opened Segments
  import opened FrameCount
  import opened SpeakerMapping

  const FRAME_SECS: real := 0.01

  // ----- Painting --------------------------------------------------------------------

  function Ceil(x: real): int {
    -(-x).Floor
  }

  /** A float cast to an index: negative values become 0. */
  function AsIndex(x: int): nat {
    if x < 0 then 0 else x
  }

  function StartIndex(s: Segment): nat {
    AsIndex((s.start / FRAME_SECS).Floor)
  }

  function EndIndex(s: Segment): nat {
    AsIndex(Ceil((s.start + s.duration) / FRAME_SECS))
  }

  /** Frame `i` is the stretch from `i * 10 ms` up to, not including, `(i + 1) * 10 ms`; the segment meets it. */
  predicate Meets(s: Segment, i: nat) {
    s.start < (i + 1) as real * FRAME_SECS && i as real * FRAME_SECS < s.End()
  }

  lemma IndexRange(s: Segment, i: nat)
    ensures StartIndex(s) <= i < EndIndex(s) <==> Meets(s, i)
  {
    var a, b := s.start / FRAME_SECS, s.End() / FRAME_SECS;
    assert a.Floor <= i <==> a < (i + 1) as real;
    assert i < Ceil(b) <==> i as real < b;
  }

  /** The last segment that meets the frame wins. */
  function LabelAt(segments: seq<Segment>, i: nat): Label {
    if |segments| == 0 then SILENCE
    else
      var last := segments[|segments| - 1];
      if Meets(last, i) then last.speaker else LabelAt(segments[..|segments| - 1], i)
  }

  /** In a frame of 10 ms that some segment touches, the last such segment is heard; elsewhere it is silent. */
  lemma {:induction false} LastSegmentWins(segments: seq<Segment>, i: nat, k: nat)
    requires k < |segments|
    requires segments[k].start < 0.01 * (i + 1) as real && 0.01 * i as real < segments[k].start + segments[k].duration
    requires forall j :: k < j < |segments| ==>
      !(segments[j].start < 0.01 * (i + 1) as real && 0.01 * i as real < segments[j].start + segments[j].duration)
    ensures LabelAt(segments, i) == segments[k].speaker
  {
    if k < |segments| - 1 {
      LastSegmentWins(segments[..|segments| - 1], i, k);
    }
  }

  lemma {:induction false} SilentElsewhere(segments: seq<Segment>, i: nat)
    requires forall j :: 0 <= j < |segments| ==>
      !(segments[j].start < 0.01 * (i + 1) as real && 0.01 * i as real < segments[j].start + segments[j].duration)
    ensures LabelAt(segments, i) == SILENCE
  {
    if |segments| > 0 {
      SilentElsewhere(segments[..|segments| - 1], i);
    }
  }

  ghost function Painted(segments: seq<Segment>, n: nat): seq<Label> {
    seq(n, i requires 0 <= i < n => LabelAt(segments, i))
  }

  /** Overwrite the frames of one segment. */
  method Paint(frames: array<Label>, s: Segment)
    modifies frames
    ensures forall i :: 0 <= i < frames.Length ==> frames[i] == if Meets(s, i) then s.speaker else old(frames[i])
  {
    var start := StartIndex(s);
    var end := if EndIndex(s) < frames.Length then EndIndex(s) else frames.Length;
    var i := start;
    while i < end
      invariant start <= i && (if start <= end then i <= end else i == start)
      invariant forall k :: 0 <= k < frames.Length ==> frames[k] == if start <= k < i then s.speaker else old(frames[k])
    {
      frames[i] := s.speaker;
      i := i + 1;
    }
    forall k | 0 <= k < frames.Length ensures start <= k < i <==> Meets(s, k) {
      IndexRange(s, k);
    }
  }

  method RenderFrames(segments: seq<Segment>, n: nat) returns (frames: seq<Label>)
    ensures frames == Painted(segments, n)
  {
    var a := new Label[n](_ => SILENCE);
    for k := 0 to |segments|
      invariant forall i :: 0 <= i < n ==> a[i] == LabelAt(segments[..k], i)
    {
      Paint(a, segments[k]);
      assert segments[..k + 1][..k] == segments[..k];
    }
    assert segments[..|segments|] == segments;
    frames := a[..];
  }

  // ----- The timeline ------------------------------------------------------------------

  /** Latest end on either side, at least 0. */
  function TotalEnd(segments: seq<Segment>): real {
    if |segments| == 0 then 0.0
    else
      var m, e := TotalEnd(segments[..|segments| - 1]), segments[|segments| - 1].End();
      if m < e then e else m
  }

  function FrameTotal(reference: seq<Segment>, hypothesis: seq<Segment>): nat {
    var end := TotalEnd(reference + hypothesis);
    if end == 0.0 then 0 else AsIndex(Ceil(end / FRAME_SECS)) + 1
  }

  ghost function Timeline(reference: seq<Segment>, hypothesis: seq<Segment>): Frames {
    var n := FrameTotal(reference, hypothesis);
    Frames(Painted(reference, n), Painted(hypothesis, n))
  }

  lemma {:induction false} EndsBound(segments: seq<Segment>, k: nat)
    requires k < |segments|
    ensures 0.0 <= TotalEnd(segments) && segments[k].End() <= TotalEnd(segments)
  {
    if k < |segments| - 1 {
      EndsBound(segments[..|segments| - 1], k);
    } else if |segments| > 1 {
      EndsBound(segments[..|segments| - 1], 0);
    }
  }

  /** No segment meets a frame beyond the timeline: the painter's cut-off never loses speech. */
  lemma NothingIsCutOff(reference: seq<Segment>, hypothesis: seq<Segment>, k: nat, i: nat)
    requires k < |reference + hypothesis| && Meets((reference + hypothesis)[k], i)
    ensures i < FrameTotal(reference, hypothesis)
  {
    var all := reference + hypothesis;
    EndsBound(all, k);
    var end := TotalEnd(all);
    assert i as real < end / FRAME_SECS;
  }

  lemma {:induction false} EndIsReached(segments: seq<Segment>)
    ensures TotalEnd(segments) > 0.0 ==> exists k :: 0 <= k < |segments| && segments[k].End() == TotalEnd(segments)
    ensures TotalEnd(segments) >= 0.0
  {
    if |segments| > 0 {
      var before := segments[..|segments| - 1];
      EndIsReached(before);
      if TotalEnd(before) > 0.0 && TotalEnd(segments) == TotalEnd(before) {
        var k :| 0 <= k < |before| && before[k].End() == TotalEnd(before);
        assert segments[k].End() == TotalEnd(segments);
      }
    }
  }

  /**
    The timeline has no frames if nothing ends after 0; otherwise its last frame
    begins after the last segment has ended, or as it ends, and the one before does not.
   */
  lemma TimelineLength(reference: seq<Segment>, hypothesis: seq<Segment>)
    ensures var all, n := reference + hypothesis, FrameTotal(reference, hypothesis);
            && (n == 0 <==> forall k :: 0 <= k < |all| ==> all[k].start + all[k].duration <= 0.0)
            && (n > 0 ==> forall k :: 0 <= k < |all| ==> all[k].start + all[k].duration <= 0.01 * (n - 1) as real)
            && (n > 0 ==> exists k :: 0 <= k < |all| && all[k].start + all[k].duration > 0.01 * (n - 2) as real)
  {
    var all := reference + hypothesis;
    var end := TotalEnd(all);
    EndIsReached(all);
    forall k | 0 <= k < |all| ensures all[k].End() <= end {
      EndsBound(all, k);
    }
    if end > 0.0 {
      var k :| 0 <= k < |all| && all[k].End() == end;
      var c := Ceil(end / FRAME_SECS);
      assert c as real - 1.0 < end / FRAME_SECS <= c as real;
    }
  }

  // ----- The tally ---------------------------------------------------------------------

  /** An unmapped label keeps its own name. */
  function Renamed(m: map<Label, Label>, h: Label): Label {
    if h in m then m[h] else h
  }

  ghost function ReferenceSpeaks(f: Frames): nat -> bool {
    (i: nat) => i < f.Length() && f.ref[i] != SILENCE
  }

  ghost function BothSpeak(f: Frames): nat -> bool {
    (i: nat) => BothSpeakAt(f, i)
  }

  ghost function FalseAlarm(f: Frames, m: map<Label, Label>): nat -> bool {
    (i: nat) => i < f.Length() && f.ref[i] == SILENCE && Renamed(m, f.hyp[i]) != SILENCE
  }

  ghost function Missed(f: Frames, m: map<Label, Label>): nat -> bool {
    (i: nat) => i < f.Length() && f.ref[i] != SILENCE && Renamed(m, f.hyp[i]) == SILENCE
  }

  ghost function Confused(f: Frames, m: map<Label, Label>): nat -> bool {
    (i: nat) =>
      i < f.Length() && f.ref[i] != SILENCE && Renamed(m, f.hyp[i]) != SILENCE && f.ref[i] != Renamed(m, f.hyp[i])
  }

  ghost function Agreed(f: Frames, m: map<Label, Label>): nat -> bool {
    (i: nat) => BothSpeakAt(f, i) && f.ref[i] == Renamed(m, f.hyp[i])
  }

  /** Frames that agree only because an unmapped label happens to carry the reference's name. */
  ghost function Coincidence(f: Frames, m: map<Label, Label>): nat -> bool {
    (i: nat) => BothSpeakAt(f, i) && f.hyp[i] !in m && f.hyp[i] == f.ref[i]
  }

  ghost predicate NoCoincidence(f: Frames, m: map<Label, Label>) {
    forall i: nat :: i < f.Length() ==> !Coincidence(f, m)(i)
  }

  datatype Tally = Tally(speech: nat, falseAlarm: nat, missed: nat, confused: nat)

  ghost function TallyOf(f: Frames, m: map<Label, Label>): Tally {
    var n := f.Length();
    Tally(Count(ReferenceSpeaks(f), n), Count(FalseAlarm(f, m), n), Count(Missed(f, m), n), Count(Confused(f, m), n))
  }

  method CountErrors(f: Frames, m: map<Label, Label>) returns (t: Tally)
    ensures t == TallyOf(f, m)
  {
    var speech, falseAlarm, missed, confused := 0, 0, 0, 0;
    for i := 0 to f.Length()
      invariant speech == Count(ReferenceSpeaks(f), i) && falseAlarm == Count(FalseAlarm(f, m), i)
      invariant missed == Count(Missed(f, m), i) && confused == Count(Confused(f, m), i)
    {
      var r, h := f.ref[i], Renamed(m, f.hyp[i]);
      if r != SILENCE {
        speech := speech + 1;
      }
      match (r != SILENCE, h != SILENCE) {
        case (false, true) => falseAlarm := falseAlarm + 1;
        case (true, false) => missed := missed + 1;
        case (true, true) => if r != h { confused := confused + 1; }
        case (false, false) =>
      }
    }
    t := Tally(speech, falseAlarm, missed, confused);
  }

  /**
    Conservation: a frame on which both sides speak is matched, confused, or a
    coincidence of names. Counting only the first two is exact just when there
    is no coincidence, in particular when the two sides share no name.
   */
  lemma SpeechIsAccountedFor(f: Frames, m: map<Label, Label>)
    requires IsGreedy(f, m)
    ensures Count(BothSpeak(f), f.Length()) ==
            Matched(f, m) + TallyOf(f, m).confused + Count(Coincidence(f, m), f.Length())
    ensures Count(BothSpeak(f), f.Length()) == Matched(f, m) + TallyOf(f, m).confused
            <==> NoCoincidence(f, m)
    ensures DisjointNames(f) ==> Count(BothSpeak(f), f.Length()) == Matched(f, m) + TallyOf(f, m).confused
  {
    var n := f.Length();
    GreedyIsMaximal(f, m);
    CountSplit(BothSpeak(f), Agreed(f, m), Confused(f, m), n);
    CountSplit(Agreed(f, m), Hit(f, m), Coincidence(f, m), n);
    CountZero(Coincidence(f, m), n);
  }

  ghost predicate DisjointNames(f: Frames) {
    forall i, j :: 0 <= i < f.Length() && 0 <= j < f.Length() && f.ref[i] != SILENCE ==> f.ref[i] != f.hyp[j]
  }

  /**
    How far greedy matching can inflate the confusion: with disjoint names, its
    confused frames are at most halfway between those of any one-to-one map and
    all frames on which both sides speak.
   */
  lemma ConfusionIsBounded(f: Frames, g: map<Label, Label>, m: map<Label, Label>)
    requires IsGreedy(f, g) && OneToOne(m) && DisjointNames(f)
    ensures var both := Count(BothSpeak(f), f.Length());
            2 * TallyOf(f, g).confused <= (both - Matched(f, m)) + both
  {
    SpeechIsAccountedFor(f, g);
    GreedyIsHalfOptimal(f, g, m);
  }

  /** Reference speech splits into missed frames and frames where both speak. */
  lemma SpeechSplits(f: Frames, m: map<Label, Label>)
    requires IsGreedy(f, m)
    ensures TallyOf(f, m).speech == TallyOf(f, m).missed + Count(BothSpeak(f), f.Length())
    ensures TallyOf(f, m).missed + TallyOf(f, m).confused <= TallyOf(f, m).speech
  {
    GreedyIsMaximal(f, m);
    CountSplit(ReferenceSpeaks(f), Missed(f, m), BothSpeak(f), f.Length());
    CountMono(Confused(f, m), BothSpeak(f), f.Length());
  }

  // ----- The score ----------------------------------------------------------------------

  datatype DerScore = DerScore(der: real, falseAlarm: real, missed: real, confused: real, speechSeconds: real)

  function ScoreOf(t: Tally): DerScore {
    if t.speech == 0 then DerScore(0.0, 0.0, 0.0, 0.0, 0.0)
    else
      var d := t.speech as real;
      DerScore((t.falseAlarm + t.missed + t.confused) as real / d, t.falseAlarm as real / d, t.missed as real / d,
               t.confused as real / d, d * FRAME_SECS)
  }

  /** The rates are shares of the frames with speech, which last 10 ms each; without any speech all is 0. */
  ghost predicate AreShares(s: DerScore, speech: nat, alarms: nat, missed: nat, confused: nat) {
    if speech == 0 then s == DerScore(0.0, 0.0, 0.0, 0.0, 0.0)
    else
      var n := speech as real;
      && s.falseAlarm * n == alarms as real && s.missed * n == missed as real && s.confused * n == confused as real
      && s.der * n == (alarms + missed + confused) as real && s.speechSeconds == n * 0.01
  }

  /** The score counts reference speech, false alarms, missed and confused frames under the renaming `m`. */
  ghost predicate IsScore(f: Frames, m: map<Label, Label>, s: DerScore) {
    var n := f.Length();
    AreShares(s, Count(ReferenceSpeaks(f), n), Count(FalseAlarm(f, m), n), Count(Missed(f, m), n),
              Count(Confused(f, m), n))
  }

  lemma ScoreIsShares(t: Tally)
    ensures AreShares(ScoreOf(t), t.speech, t.falseAlarm, t.missed, t.confused)
  {
    if t.speech > 0 {
      var d := t.speech as real;
      Share(t.falseAlarm as real, d);
      Share(t.missed as real, d);
      Share(t.confused as real, d);
      Share((t.falseAlarm + t.missed + t.confused) as real, d);
    }
  }

  lemma Share(a: real, d: real)
    requires d > 0.0
    ensures a / d * d == a
  {
  }

  method ScoreDer(reference: seq<Segment>, hypothesis: seq<Segment>) returns (s: DerScore)
    ensures var f := Timeline(reference, hypothesis);
            exists m :: IsGreedy(f, m) && IsScore(f, m, s) && s == ScoreOf(TallyOf(f, m))
    ensures s.der == s.falseAlarm + s.missed + s.confused
    ensures 0.0 <= s.missed && 0.0 <= s.confused && s.missed + s.confused <= 1.0
  {
    var n := FrameTotal(reference, hypothesis);
    var ref := RenderFrames(reference, n);
    var hyp := RenderFrames(hypothesis, n);
    var f := Frames(ref, hyp);
    var mapping := GreedySpeakerMapping(f);
    var t := CountErrors(f, mapping);
    SpeechSplits(f, mapping);
    ScoreLaws(t);
    ScoreIsShares(t);
    s := ScoreOf(t);
    assert f == Timeline(reference, hypothesis);
    assert IsGreedy(f, mapping) && s == ScoreOf(TallyOf(f, mapping));
  }

  lemma ScoreLaws(t: Tally)
    requires t.missed + t.confused <= t.speech
    ensures var s := ScoreOf(t); s.der == s.falseAlarm + s.missed + s.confused
    ensures var s := ScoreOf(t); 0.0 <= s.missed && 0.0 <= s.confused && s.missed + s.confused <= 1.0
    ensures t.speech > 0 ==> (ScoreOf(t).der == 0.0 <==> t.falseAlarm == t.missed == t.confused == 0)
  {
    if t.speech > 0 {
      var d, fa, mi, co := t.speech as real, t.falseAlarm as real, t.missed as real, t.confused as real;
      DivideSum(fa + mi, co, d);
      DivideSum(fa, mi, d);
      DivideSum(mi, co, d);
      DivideOrder(mi, d);
      DivideOrder(co, d);
      DivideOrder(mi + co, d);
      DivideOrder(fa + mi + co, d);
    }
  }

  lemma DivideSum(a: real, b: real, d: real)
    requires d > 0.0
    ensures (a + b) / d == a / d + b / d
  {
    assert (a / d + b / d) * d == a / d * d + b / d * d == a + b;
  }

  lemma DivideOrder(a: real, d: real)
    requires d > 0.0 && 0.0 <= a
    ensures 0.0 <= a / d && (a <= d ==> a / d <= 1.0) && (a / d == 0.0 <==> a == 0.0)
  {
    assert a / d * d == a;
  }

  // ----- Speech against silence ------------------------------------------------------------

  ghost function SpeechMissed(f: Frames): nat -> bool {
    (i: nat) => i < f.Length() && f.ref[i] != SILENCE && f.hyp[i] == SILENCE
  }

  ghost function SilenceFilled(f: Frames): nat -> bool {
    (i: nat) => i < f.Length() && f.ref[i] == SILENCE && f.hyp[i] != SILENCE
  }

  ghost function ReferenceSilent(f: Frames): nat -> bool {
    (i: nat) => i < f.Length() && f.ref[i] == SILENCE
  }

  function Ratio(a: nat, b: nat): real {
    if b == 0 then 0.0 else a as real / b as real
  }

  /** `x` is the share of `a` in `b`, and 0 of nothing. */
  ghost predicate IsShare(x: real, a: nat, b: nat) {
    if b == 0 then x == 0.0 else x * b as real == a as real
  }

  lemma RatioIsShare(a: nat, b: nat)
    ensures IsShare(Ratio(a, b), a, b)
    ensures forall x :: IsShare(x, a, b) ==> x == Ratio(a, b)
  {
    if b > 0 {
      Share(a as real, b as real);
      forall x | IsShare(x, a, b) ensures x == Ratio(a, b) {
        assert x * b as real == Ratio(a, b) * b as real;
      }
    }
  }

  method VadRates(reference: seq<Segment>, hypothesis: seq<Segment>, n: nat) returns (fp: real, fn: real)
    ensures var f := Frames(Painted(reference, n), Painted(hypothesis, n));
            && IsShare(fp, Count(SilenceFilled(f), n), Count(ReferenceSilent(f), n))
            && IsShare(fn, Count(SpeechMissed(f), n), Count(ReferenceSpeaks(f), n))
  {
    if n == 0 {
      return 0.0, 0.0;
    }
    var ref := RenderFrames(reference, n);
    var hyp := RenderFrames(hypothesis, n);
    ghost var f := Frames(ref, hyp);
    var silence, speech, filled, missed := 0, 0, 0, 0;
    for i := 0 to n
      invariant silence == Count(ReferenceSilent(f), i) && speech == Count(ReferenceSpeaks(f), i)
      invariant filled == Count(SilenceFilled(f), i) && missed == Count(SpeechMissed(f), i)
    {
      if ref[i] != SILENCE {
        speech := speech + 1;
        if hyp[i] == SILENCE {
          missed := missed + 1;
        }
      } else {
        silence := silence + 1;
        if hyp[i] != SILENCE {
          filled := filled + 1;
        }
      }
    }
    RatioIsShare(filled, silence);
    RatioIsShare(missed, speech);
    fp, fn := Ratio(filled, silence), Ratio(missed, speech);
  }

  /** The clustering-free rates and the diarization rates agree on missed speech. */
  method ScorePipeline(reference: seq<Segment>, hypothesis: seq<Segment>)
    returns (der: DerScore, vadFalsePositive: real, vadFalseNegative: real)
    ensures var f := Timeline(reference, hypothesis);
            && (exists m :: IsGreedy(f, m) && IsScore(f, m, der))
            && IsShare(vadFalsePositive, Count(SilenceFilled(f), f.Length()), Count(ReferenceSilent(f), f.Length()))
            && IsShare(vadFalseNegative, Count(SpeechMissed(f), f.Length()), Count(ReferenceSpeaks(f), f.Length()))
    ensures der.missed == vadFalseNegative
  {
    der := ScoreDer(reference, hypothesis);
    var n := FrameTotal(reference, hypothesis);
    vadFalsePositive, vadFalseNegative := VadRates(reference, hypothesis, n);
    ghost var f := Timeline(reference, hypothesis);
    ghost var m :| IsGreedy(f, m) && der == ScoreOf(TallyOf(f, m));
    VadAgrees(f, m);
  }

  lemma VadAgrees(f: Frames, m: map<Label, Label>)
    requires IsGreedy(f, m)
    ensures ScoreOf(TallyOf(f, m)).missed ==
            Ratio(Count(SpeechMissed(f), f.Length()), Count(ReferenceSpeaks(f), f.Length()))
    ensures Count(SilenceFilled(f), f.Length()) == TallyOf(f, m).falseAlarm
    ensures forall x :: IsShare(x, Count(SpeechMissed(f), f.Length()), Count(ReferenceSpeaks(f), f.Length())) ==>
      x == ScoreOf(TallyOf(f, m)).missed
  {
    RatioIsShare(Count(SpeechMissed(f), f.Length()), Count(ReferenceSpeaks(f), f.Length()));
    GreedyIsMaximal(f, m);
    CountSame(SpeechMissed(f), Missed(f, m), f.Length());
    CountSame(SilenceFilled(f), FalseAlarm(f, m), f.Length());
  }

  // ----- A perfect score is a relabelling ----------------------------------------------------

  /** The hypothesis is the reference under the one-to-one renaming `g`. */
  ghost predicate IsRelabelling(f: Frames, g: map<Label, Label>) {
    && OneToOne(g)
    && forall i :: 0 <= i < f.Length() ==>
      if f.ref[i] == SILENCE then f.hyp[i] == SILENCE
      else f.hyp[i] != SILENCE && f.ref[i] in g && g[f.ref[i]] == f.hyp[i]
  }

  lemma OverlapFollows(f: Frames, g: map<Label, Label>, h: Label, r: Label)
    requires IsRelabelling(f, g) && Overlap(f, h, r) > 0
    ensures r in g && g[r] == h
  {
    OverlapPositive(f, h, r);
  }

  /** Greedy undoes any relabelling, whatever names it uses. */
  lemma RelabellingIsUndone(f: Frames, m: map<Label, Label>, g: map<Label, Label>, i: nat)
    requires IsGreedy(f, m) && IsRelabelling(f, g) && BothSpeakAt(f, i)
    ensures f.hyp[i] in m && m[f.hyp[i]] == f.ref[i]
  {
    var h, r := f.hyp[i], f.ref[i];
    assert OnPair(f, h, r)(i);
    OverlapPositive(f, h, r);
    GreedyIsMaximal(f, m);
    if h in m {
      OverlapFollows(f, g, h, m[h]);
    } else {
      assert Dominated(f, m, Pair(h, r));
      var h' :| h' in m && m[h'] == r;
      OverlapFollows(f, g, h', r);
    }
  }

  lemma RelabellingIsFaultless(f: Frames, m: map<Label, Label>, g: map<Label, Label>)
    requires IsGreedy(f, m) && IsRelabelling(f, g)
    ensures NoCoincidence(f, m) && TallyOf(f, m).falseAlarm == TallyOf(f, m).missed == TallyOf(f, m).confused == 0
  {
    var n := f.Length();
    GreedyIsMaximal(f, m);
    forall i: nat | i < n
      ensures !FalseAlarm(f, m)(i) && !Missed(f, m)(i) && !Confused(f, m)(i) && !Coincidence(f, m)(i)
    {
      if f.ref[i] != SILENCE {
        RelabellingIsUndone(f, m, g, i);
      }
    }
    CountZero(FalseAlarm(f, m), n);
    CountZero(Missed(f, m), n);
    CountZero(Confused(f, m), n);
  }

  lemma RelabellingScoresZero(f: Frames, m: map<Label, Label>, g: map<Label, Label>)
    requires IsGreedy(f, m) && IsRelabelling(f, g)
    ensures ScoreOf(TallyOf(f, m)).der == 0.0
  {
    RelabellingIsFaultless(f, m, g);
    ScoreLaws(TallyOf(f, m));
  }

  /** The same segments under other names. */
  function Relabelled(segments: seq<Segment>, g: map<Label, Label>): seq<Segment>
    requires forall k :: 0 <= k < |segments| ==> segments[k].speaker in g
  {
    seq(|segments|, k requires 0 <= k < |segments| => segments[k].(speaker := g[segments[k].speaker]))
  }

  lemma {:induction false} LabelsFollow(segments: seq<Segment>, g: map<Label, Label>, i: nat)
    requires forall k :: 0 <= k < |segments| ==> segments[k].speaker != SILENCE && segments[k].speaker in g
    ensures var l := LabelAt(segments, i);
            && (l != SILENCE ==> l in g)
            && LabelAt(Relabelled(segments, g), i) == if l == SILENCE then SILENCE else g[l]
  {
    if |segments| > 0 {
      var before := segments[..|segments| - 1];
      LabelsFollow(before, g, i);
      assert Relabelled(segments, g)[..|segments| - 1] == Relabelled(before, g);
    }
  }

  /** Renaming the reference's speakers one-to-one, to any names at all, scores zero. */
  lemma RelabelledSegmentsScoreZero(reference: seq<Segment>, g: map<Label, Label>, m: map<Label, Label>)
    requires forall k :: 0 <= k < |reference| ==> reference[k].speaker != SILENCE && reference[k].speaker in g
    requires OneToOne(g) && forall x :: x in g ==> g[x] != SILENCE
    requires IsGreedy(Timeline(reference, Relabelled(reference, g)), m)
    ensures ScoreOf(TallyOf(Timeline(reference, Relabelled(reference, g)), m)).der == 0.0
  {
    var f := Timeline(reference, Relabelled(reference, g));
    forall i | 0 <= i < f.Length()
      ensures if f.ref[i] == SILENCE then f.hyp[i] == SILENCE
              else f.hyp[i] != SILENCE && f.ref[i] in g && g[f.ref[i]] == f.hyp[i]
    {
      LabelsFollow(reference, g, i);
    }
    RelabellingScoresZero(f, m, g);
  }

  ghost function Inverse(m: map<Label, Label>): map<Label, Label>
    requires OneToOne(m)
  {
    map h | h in m :: m[h] := h
  }

  lemma FaultlessRelabels(f: Frames, m: map<Label, Label>)
    requires IsGreedy(f, m) && NoCoincidence(f, m)
    requires TallyOf(f, m).falseAlarm == TallyOf(f, m).missed == TallyOf(f, m).confused == 0
    ensures OneToOne(m) && IsRelabelling(f, Inverse(m))
  {
    var n := f.Length();
    GreedyIsMaximal(f, m);
    CountZero(FalseAlarm(f, m), n);
    CountZero(Missed(f, m), n);
    CountZero(Confused(f, m), n);
    forall i: nat | i < n
      ensures if f.ref[i] == SILENCE then f.hyp[i] == SILENCE
              else f.hyp[i] != SILENCE && f.hyp[i] in m && m[f.hyp[i]] == f.ref[i]
    {
      assert !FalseAlarm(f, m)(i) && !Missed(f, m)(i) && !Confused(f, m)(i) && !Coincidence(f, m)(i);
    }
  }

  lemma ZeroScoreIsFaultless(t: Tally)
    requires t.missed + t.confused <= t.speech
    ensures ScoreOf(t).der == 0.0 && (t.speech > 0 || t.falseAlarm == 0) <==> t.falseAlarm == t.missed == t.confused == 0
  {
    ScoreLaws(t);
  }

  /**
    Whatever the names, the hypothesis is the reference relabelled exactly when
    the score is zero, no frame agrees by a coincidence of names and, the
    reference being silent throughout, the hypothesis is so too.
   */
  lemma RelabellingIff(f: Frames, m: map<Label, Label>)
    requires IsGreedy(f, m)
    ensures (exists g :: IsRelabelling(f, g)) <==>
            && ScoreOf(TallyOf(f, m)).der == 0.0 && NoCoincidence(f, m)
            && (TallyOf(f, m).speech > 0 || TallyOf(f, m).falseAlarm == 0)
  {
    SpeechSplits(f, m);
    ZeroScoreIsFaultless(TallyOf(f, m));
    if g :| IsRelabelling(f, g) {
      RelabellingIsFaultless(f, m, g);
    } else if NoCoincidence(f, m) && ScoreOf(TallyOf(f, m)).der == 0.0
              && (TallyOf(f, m).speech > 0 || TallyOf(f, m).falseAlarm == 0) {
      FaultlessRelabels(f, m);
    }
  }

  /** With reference speech and no shared names, the score alone tells the relabellings. */
  lemma ZeroScoreIffRelabelling(f: Frames, m: map<Label, Label>)
    requires IsGreedy(f, m) && DisjointNames(f) && TallyOf(f, m).speech > 0
    ensures ScoreOf(TallyOf(f, m)).der == 0.0 <==> exists g :: IsRelabelling(f, g)
  {
    RelabellingIff(f, m);
  }

  /** Why the names must be disjoint: an unmapped label that is called like the reference hides its error. */
  lemma SharedNameHidesConfusion(x: Label, b: Label)
    requires x != b && x != SILENCE && b != SILENCE
    ensures var f := Frames([b, b, b], [x, x, b]);
            && IsGreedy(f, map[x := b]) && ScoreOf(TallyOf(f, map[x := b])).der == 0.0
            && !exists g :: IsRelabelling(f, g)
  {
    var f, m := Frames([b, b, b], [x, x, b]), map[x := b];
    var pairs := [Pair(x, b), Pair(b, b)];
    forall h, t
      ensures Overlap(f, h, t) == if Pair(h, t) == pairs[0] then 2 else if Pair(h, t) == pairs[1] then 1 else 0
    {
      var p := OnPair(f, h, t);
      assert Count(p, 3) == Count(p, 2) + if p(2) then 1 else 0;
    }
    assert IsListing(f, pairs);
    assert GreedyMap(pairs[..1]) == m by {
      assert pairs[..1][..0] == [];
    }
    assert m[x] == b;
    assert pairs[..2][..1] == pairs[..1] && pairs[..2] == pairs;
    CountZero(FalseAlarm(f, m), 3);
    CountZero(Missed(f, m), 3);
    CountZero(Confused(f, m), 3);
    forall g ensures !IsRelabelling(f, g) {
      assert f.ref[0] == f.ref[2] && f.hyp[0] != f.hyp[2];
    }
  }
}
