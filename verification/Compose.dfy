/**
  The template composer: cropped clips and silences laid end to end at 16 kHz,
  with the clips' speaker labels cropped and shifted along. Seconds are exact
  reals; decoded samples and parsed labels are part of the template here.
 */
module Compose {
  import opened Options
  import opened Segments

  const SILENCE_DC_OFFSET: real := 0.00001

  /** An audio clip carries its resampled signal and its reference labels. */
  datatype Piece =
    | Silence(duration: real)
    | Audio(basename: string, samples: seq<real>, labels: seq<Segment>, cropStart: real, cropEnd: Option<real>)

  datatype Template = Template(speakers: map<string, string>, pieces: seq<Piece>)

  datatype Problem = NegativeSilence(index: nat) | CropCollapses(index: nat)

  // ----- One piece ----------------------------------------------------------------------------

  function Max(x: real, y: real): real {
    if x < y then y else x
  }

  function Min(x: real, y: real): real {
    if y < x then y else x
  }

  /** Nearest integer of a non-negative value, halves up. */
  function Round(x: real): (n: nat)
    requires x >= 0.0
    ensures n as real - 0.5 <= x < n as real + 0.5
  {
    (x + 0.5).Floor
  }

  /** 16000 samples are a second. */
  function Seconds(n: nat): real {
    n as real / 16000.0
  }

  function AtRate(seconds: real): real {
    seconds * 16000.0
  }

  function CropStart(p: Piece): (cs: real)
    requires p.Audio?
    ensures cs >= 0.0
  {
    Max(p.cropStart, 0.0)
  }

  /** Capped at the clip's length, and never before the start. */
  function CropEnd(p: Piece): (ce: real)
    requires p.Audio?
    ensures CropStart(p) <= ce
    ensures ce <= Seconds(|p.samples|) || ce == CropStart(p)
  {
    var total := Seconds(|p.samples|);
    Max(Min(if p.cropEnd.Some? then p.cropEnd.value else total, total), CropStart(p))
  }

  function StartSample(p: Piece): nat
    requires p.Audio?
  {
    Round(AtRate(CropStart(p)))
  }

  function EndSample(p: Piece): nat
    requires p.Audio?
  {
    var e := Round(AtRate(CropEnd(p)));
    if |p.samples| < e then |p.samples| else e
  }

  function ProblemOf(p: Piece, index: nat): Option<Problem> {
    if p.Silence? then (if p.duration < 0.0 then Some(NegativeSilence(index)) else None)
    else if CropEnd(p) <= CropStart(p) then Some(CropCollapses(index))
    else None
  }

  /** The slice is in bounds, and its length is the crop's to within one sample. */
  lemma SliceFits(p: Piece)
    requires p.Audio? && CropStart(p) < CropEnd(p)
    ensures StartSample(p) <= EndSample(p) <= |p.samples|
    ensures -1.0 <= (EndSample(p) - StartSample(p)) as real - AtRate(CropEnd(p) - CropStart(p)) <= 1.0
    ensures -0.5 <= StartSample(p) as real - AtRate(CropStart(p)) <= 0.5
  {
    var a, b, n := AtRate(CropStart(p)), AtRate(CropEnd(p)), |p.samples| as real;
    assert a < b <= n;
    assert Round(a) as real <= a + 0.5 && Round(b) as real > b - 0.5;
    assert Round(b) as real <= n + 0.5;
  }

  /** Samples that piece `p` contributes. */
  function SamplesOf(p: Piece, index: nat): seq<real>
    requires ProblemOf(p, index).None?
  {
    if p.Silence? then seq(Round(AtRate(p.duration)), _ => SILENCE_DC_OFFSET)
    else SliceFits(p); p.samples[StartSample(p)..EndSample(p)]
  }

  /** An entry for this clip and label wins, then one for the label, else both names are combined. */
  function RemapSpeaker(table: map<string, string>, basename: string, original: string): string {
    var key := basename + ":" + original;
    if key in table then table[key]
    else if original in table then table[original]
    else basename + "_" + original
  }

  /** What one label contributes: its part inside the crop, moved to the piece's place. */
  function ClipLabel(t: Template, p: Piece, s: Segment, offset: real): seq<Segment>
    requires p.Audio?
  {
    var cs, ce := CropStart(p), CropEnd(p);
    if s.End() <= cs || s.start >= ce then []
    else
      var start, end := Max(s.start, cs), Min(s.End(), ce);
      if end - start <= 0.0 then []
      else [Segment(start - cs + offset, end - start, RemapSpeaker(t.speakers, p.basename, s.speaker))]
  }

  function ClipLabels(t: Template, p: Piece, n: nat, offset: real): seq<Segment>
    requires p.Audio? && n <= |p.labels|
  {
    if n == 0 then [] else ClipLabels(t, p, n - 1, offset) + ClipLabel(t, p, p.labels[n - 1], offset)
  }

  function LabelsOf(t: Template, p: Piece, offset: real): seq<Segment> {
    if p.Silence? then [] else ClipLabels(t, p, |p.labels|, offset)
  }

  // ----- The whole template -----------------------------------------------------------------------

  datatype Output = Output(samples: seq<real>, labels: seq<Segment>)

  /** The first `n` pieces; the first bad one decides. */
  function Composed(t: Template, n: nat): Result<Output, Problem>
    requires n <= |t.pieces|
    decreases n, 1
  {
    if n == 0 then Ok(Output([], [])) else WithPiece(t, n - 1)
  }

  /** Piece `k` after all before it. */
  function WithPiece(t: Template, k: nat): Result<Output, Problem>
    requires k < |t.pieces|
    decreases k + 1, 0
  {
    var before, p := Composed(t, k), t.pieces[k];
    if before.Err? then before
    else if ProblemOf(p, k).Some? then Err(ProblemOf(p, k).value)
    else
      var o := before.value;
      Ok(Output(o.samples + SamplesOf(p, k), o.labels + LabelsOf(t, p, Seconds(|o.samples|))))
  }

  lemma {:induction false} ProblemsStick(t: Template, i: nat, n: nat)
    requires i <= n <= |t.pieces| && Composed(t, i).Err?
    ensures Composed(t, n) == Composed(t, i)
  {
    if i < n {
      ProblemsStick(t, i, n - 1);
    }
  }

  /** The inner loop over one clip's labels. */
  method CopyLabels(t: Template, p: Piece, offset: real, lines: seq<Segment>) returns (lines': seq<Segment>)
    requires p.Audio?
    ensures lines' == lines + LabelsOf(t, p, offset)
  {
    lines' := lines;
    var cs, ce := CropStart(p), CropEnd(p);
    for i := 0 to |p.labels|
      invariant lines' == lines + ClipLabels(t, p, i, offset)
    {
      var s := p.labels[i];
      var end := s.End();
      if end <= cs || s.start >= ce {
        continue;
      }
      var newStart, newEnd := Max(s.start, cs), Min(end, ce);
      var newDur := newEnd - newStart;
      if newDur <= 0.0 {
        continue;
      }
      var shifted := (newStart - cs) + offset;
      lines' := lines' + [Segment(shifted, newDur, RemapSpeaker(t.speakers, p.basename, s.speaker))];
    }
  }

  /** What one more piece does to the output. */
  lemma ComposeNext(t: Template, i: nat, samples: seq<real>, lines: seq<Segment>)
    requires i < |t.pieces| && Composed(t, i) == Ok(Output(samples, lines))
    ensures var p := t.pieces[i];
            if p.Silence? then
              Composed(t, i + 1) == if p.duration < 0.0 then Err(NegativeSilence(i))
                                    else Ok(Output(samples + seq(Round(AtRate(p.duration)), _ => SILENCE_DC_OFFSET), lines))
            else
              if CropEnd(p) <= CropStart(p) then Composed(t, i + 1) == Err(CropCollapses(i))
              else
                && StartSample(p) <= EndSample(p) <= |p.samples|
                && Composed(t, i + 1) == Ok(Output(samples + p.samples[StartSample(p)..EndSample(p)],
                                                   lines + LabelsOf(t, p, Seconds(|samples|))))
  {
    var p := t.pieces[i];
    if p.Audio? && CropStart(p) < CropEnd(p) {
      SliceFits(p);
    }
    assert lines + [] == lines;
  }

  method ComposeTemplate(t: Template) returns (r: Result<(Output, real), Problem>)
    ensures r == match Composed(t, |t.pieces|)
                 case Err(e) => Err(e)
                 case Ok(o) => Ok((o, Seconds(|o.samples|)))
    ensures r.Ok? ==> r.value.1 * 16000.0 == |r.value.0.samples| as real
  {
    var samples: seq<real> := [];
    var lines: seq<Segment> := [];
    for i := 0 to |t.pieces|
      invariant Composed(t, i) == Ok(Output(samples, lines))
    {
      var offset := Seconds(|samples|);
      var p := t.pieces[i];
      ComposeNext(t, i, samples, lines);
      match p {
        case Silence(duration) =>
          if duration < 0.0 {
            ProblemsStick(t, i + 1, |t.pieces|);
            return Err(NegativeSilence(i));
          }
          samples := samples + seq(Round(AtRate(duration)), _ => SILENCE_DC_OFFSET);
        case Audio(_, source, _, _, _) =>
          if CropEnd(p) <= CropStart(p) {
            ProblemsStick(t, i + 1, |t.pieces|);
            return Err(CropCollapses(i));
          }
          samples := samples + source[StartSample(p)..EndSample(p)];
          lines := CopyLabels(t, p, offset, lines);
      }
    }
    r := Ok((Output(samples, lines), Seconds(|samples|)));
  }

  // ----- Who speaks when --------------------------------------------------------------------------------

  predicate IsActive(s: Segment, at: real) {
    s.start <= at < s.End()
  }

  /** Labels active at an instant. */
  ghost function ActiveAt(labels: seq<Segment>, at: real): set<string> {
    set s | s in labels && IsActive(s, at) :: s.speaker
  }

  lemma ActiveConcat(a: seq<Segment>, b: seq<Segment>, at: real)
    ensures ActiveAt(a + b, at) == ActiveAt(a, at) + ActiveAt(b, at)
  {
    forall x | x in ActiveAt(a, at) + ActiveAt(b, at) ensures x in ActiveAt(a + b, at) {
      if x in ActiveAt(a, at) {
        var s :| s in a && IsActive(s, at) && s.speaker == x;
        assert s in a + b;
      } else {
        var s :| s in b && IsActive(s, at) && s.speaker == x;
        assert s in a + b;
      }
    }
  }

  /** What label `s` of the source means for the composed names, `u` seconds into the crop. */
  ghost function Carried(t: Template, p: Piece, s: Segment, u: real): set<string>
    requires p.Audio?
  {
    if 0.0 <= u < CropEnd(p) - CropStart(p) && IsActive(s, CropStart(p) + u)
    then {RemapSpeaker(t.speakers, p.basename, s.speaker)} else {}
  }

  ghost function AllCarried(t: Template, p: Piece, n: nat, u: real): set<string>
    requires p.Audio? && n <= |p.labels|
  {
    if n == 0 then {} else AllCarried(t, p, n - 1, u) + Carried(t, p, p.labels[n - 1], u)
  }

  /** One label survives exactly where its source is active inside the crop. */
  lemma ClipLabelExact(t: Template, p: Piece, s: Segment, offset: real, u: real)
    requires p.Audio?
    ensures ActiveAt(ClipLabel(t, p, s, offset), offset + u) == Carried(t, p, s, u)
  {
    var out := ClipLabel(t, p, s, offset);
    if |out| > 0 {
      assert ActiveAt(out, offset + u) == if IsActive(out[0], offset + u) then {out[0].speaker} else {} by {
        assert out == [out[0]];
        assert out[0] in out;
      }
    }
  }

  lemma {:induction false} ClipExact(t: Template, p: Piece, n: nat, offset: real, u: real)
    requires p.Audio? && n <= |p.labels|
    ensures ActiveAt(ClipLabels(t, p, n, offset), offset + u) == AllCarried(t, p, n, u)
  {
    if n > 0 {
      ClipExact(t, p, n - 1, offset, u);
      ClipLabelExact(t, p, p.labels[n - 1], offset, u);
      ActiveConcat(ClipLabels(t, p, n - 1, offset), ClipLabel(t, p, p.labels[n - 1], offset), offset + u);
    }
  }

  /** Whom the source of `p` labels `u` seconds into the crop, under the composed names. */
  ghost function SourceActive(t: Template, p: Piece, u: real): set<string>
    requires p.Audio?
  {
    if 0.0 <= u < CropEnd(p) - CropStart(p) then
      set x | x in ActiveAt(p.labels, CropStart(p) + u) :: RemapSpeaker(t.speakers, p.basename, x)
    else {}
  }

  lemma {:induction false} CarriedMember(t: Template, p: Piece, n: nat, u: real, y: string)
    requires p.Audio? && n <= |p.labels|
    ensures y in AllCarried(t, p, n, u) <==> exists k :: 0 <= k < n && y in Carried(t, p, p.labels[k], u)
  {
    if n > 0 {
      CarriedMember(t, p, n - 1, u, y);
    }
  }

  lemma CarriedIsSourceActive(t: Template, p: Piece, u: real)
    requires p.Audio?
    ensures AllCarried(t, p, |p.labels|, u) == SourceActive(t, p, u)
  {
    var at := CropStart(p) + u;
    forall y ensures y in AllCarried(t, p, |p.labels|, u) <==> y in SourceActive(t, p, u) {
      CarriedMember(t, p, |p.labels|, u, y);
      if k :| 0 <= k < |p.labels| && y in Carried(t, p, p.labels[k], u) {
        assert p.labels[k] in p.labels && p.labels[k].speaker in ActiveAt(p.labels, at);
      }
      if y in SourceActive(t, p, u) {
        var x :| x in ActiveAt(p.labels, at) && y == RemapSpeaker(t.speakers, p.basename, x);
        var s :| s in p.labels && IsActive(s, at) && s.speaker == x;
        var k :| 0 <= k < |p.labels| && p.labels[k] == s;
        assert y in Carried(t, p, p.labels[k], u);
      }
    }
  }

  /** What a listener should be told `u` seconds into a piece. */
  ghost function Expected(t: Template, p: Piece, u: real): set<string> {
    if p.Silence? then {} else SourceActive(t, p, u)
  }

  /**
    The clip's own labels have `s` speaking at the instant `u` seconds after
    the template's crop start, a negative one counting as 0, and that instant is
    inside the clip and before the template's crop end.
   */
  ghost predicate IsHeard(p: Piece, s: Segment, u: real)
    requires p.Audio?
  {
    var at := if p.cropStart < 0.0 then u else p.cropStart + u;
    && 0.0 <= u && s.start <= at < s.start + s.duration
    && at * 16000.0 < |p.samples| as real && (p.cropEnd.Some? ==> at < p.cropEnd.value)
  }

  /** An entry for the clip and the label names it first, then an entry for the label; otherwise both names are joined. */
  ghost predicate IsNamed(table: map<string, string>, basename: string, original: string, name: string) {
    && (basename + ":" + original in table ==> name == table[basename + ":" + original])
    && (basename + ":" + original !in table && original in table ==> name == table[original])
    && (basename + ":" + original !in table && original !in table ==> name == basename + "_" + original)
  }

  /** What the template and the clip's labels say about `name`, `u` seconds into the piece. */
  ghost predicate IsTold(t: Template, p: Piece, u: real, name: string) {
    p.Audio? && exists s :: s in p.labels && IsHeard(p, s, u) && IsNamed(t.speakers, p.basename, s.speaker, name)
  }

  lemma RemapNames(table: map<string, string>, basename: string, original: string, name: string)
    ensures RemapSpeaker(table, basename, original) == name <==> IsNamed(table, basename, original, name)
  {
  }

  lemma HeardInCrop(p: Piece, s: Segment, u: real)
    requires p.Audio?
    ensures IsHeard(p, s, u) <==> 0.0 <= u < CropEnd(p) - CropStart(p) && IsActive(s, CropStart(p) + u)
  {
    var total := Seconds(|p.samples|);
    assert total * 16000.0 == |p.samples| as real;
    var at := if p.cropStart < 0.0 then u else p.cropStart + u;
    assert at == CropStart(p) + u;
    assert at * 16000.0 < |p.samples| as real <==> at < total;
  }

  lemma ExpectedIsTold(t: Template, p: Piece, u: real, name: string)
    ensures name in Expected(t, p, u) <==> IsTold(t, p, u, name)
  {
    if p.Audio? {
      if name in Expected(t, p, u) {
        var x :| x in ActiveAt(p.labels, CropStart(p) + u) && name == RemapSpeaker(t.speakers, p.basename, x);
        var s :| s in p.labels && IsActive(s, CropStart(p) + u) && s.speaker == x;
        HeardInCrop(p, s, u);
        RemapNames(t.speakers, p.basename, x, name);
      }
      if IsTold(t, p, u, name) {
        var s :| s in p.labels && IsHeard(p, s, u) && IsNamed(t.speakers, p.basename, s.speaker, name);
        HeardInCrop(p, s, u);
        RemapNames(t.speakers, p.basename, s.speaker, name);
        assert s.speaker in ActiveAt(p.labels, CropStart(p) + u);
      }
    }
  }

  lemma PieceExact(t: Template, p: Piece, offset: real, u: real)
    ensures ActiveAt(LabelsOf(t, p, offset), offset + u) == Expected(t, p, u)
    ensures forall name :: name in ActiveAt(LabelsOf(t, p, offset), offset + u) <==> IsTold(t, p, u, name)
  {
    if p.Audio? {
      ClipExact(t, p, |p.labels|, offset, u);
      CarriedIsSourceActive(t, p, u);
    }
    forall name ensures name in Expected(t, p, u) <==> IsTold(t, p, u, name) {
      ExpectedIsTold(t, p, u, name);
    }
  }

  // ----- Pieces laid end to end ---------------------------------------------------------------------------

  ghost function Flat(parts: seq<seq<Segment>>): seq<Segment> {
    if |parts| == 0 then [] else Flat(parts[..|parts| - 1]) + parts[|parts| - 1]
  }

  /** Part `j` is active only from where it begins until a margin after the next part begins. */
  ghost predicate InSlots(begins: seq<real>, parts: seq<seq<Segment>>, margin: real) {
    && |begins| == |parts| + 1 && margin >= 0.0
    && (forall i, j :: 0 <= i <= j < |begins| ==> begins[i] <= begins[j])
    && (forall j :: 0 <= j < |parts| ==> ActiveOnlyIn(parts[j], begins[j], begins[j + 1] + margin))
  }

  ghost predicate ActiveOnlyIn(labels: seq<Segment>, from: real, until: real) {
    forall at :: ActiveAt(labels, at) != {} ==> from <= at < until
  }

  /** Past the margin, only the part whose turn it is can be active. */
  lemma {:induction false} OnePartActive(begins: seq<real>, parts: seq<seq<Segment>>, margin: real, k: nat, m: nat,
                                         at: real)
    requires InSlots(begins, parts, margin) && k < |parts| && m <= |parts|
    requires begins[k] + margin <= at < begins[k + 1]
    ensures ActiveAt(Flat(parts[..m]), at) == if m <= k then {} else ActiveAt(parts[k], at)
  {
    if m > 0 {
      OnePartActive(begins, parts, margin, k, m - 1, at);
      assert parts[..m][..m - 1] == parts[..m - 1];
      ActiveConcat(Flat(parts[..m - 1]), parts[m - 1], at);
      assert ActiveOnlyIn(parts[m - 1], begins[m - 1], begins[m] + margin);
      if m - 1 < k {
        assert begins[m] <= begins[k];
      } else if m - 1 > k {
        assert begins[k + 1] <= begins[m - 1];
      }
    }
  }

  // ----- The timeline ----------------------------------------------------------------------------------------

  /** Where piece `k` begins in the composed signal, if the pieces before it compose. */
  function Offset(t: Template, k: nat): real
    requires k <= |t.pieces|
  {
    match Composed(t, k)
    case Ok(o) => Seconds(|o.samples|)
    case Err(_) => 0.0
  }

  lemma {:induction false} PrefixComposes(t: Template, k: nat, n: nat)
    requires k <= n <= |t.pieces| && Composed(t, n).Ok?
    ensures Composed(t, k).Ok? && Offset(t, k) <= Offset(t, n)
    ensures Composed(t, k).value.samples <= Composed(t, n).value.samples
  {
    if k < n {
      PrefixComposes(t, k, n - 1);
    }
  }

  lemma SlotLength(t: Template, k: nat)
    requires k < |t.pieces| && Composed(t, k + 1).Ok?
    ensures Composed(t, k).Ok? && ProblemOf(t.pieces[k], k).None?
    ensures Offset(t, k + 1) == Offset(t, k) + Seconds(|SamplesOf(t.pieces[k], k)|)
    ensures Composed(t, k + 1).value.labels == Composed(t, k).value.labels + LabelsOf(t, t.pieces[k], Offset(t, k))
    ensures Composed(t, k + 1).value.samples == Composed(t, k).value.samples + SamplesOf(t.pieces[k], k)
  {
  }

  /** A piece's labels lie in its slot, except that they may end up to one sample after it. */
  lemma LabelsStayInSlot(t: Template, k: nat, u: real)
    requires k < |t.pieces| && ProblemOf(t.pieces[k], k).None? && Expected(t, t.pieces[k], u) != {}
    ensures 0.0 <= u < Seconds(|SamplesOf(t.pieces[k], k)|) + Seconds(1)
  {
    var p := t.pieces[k];
    SliceFits(p);
    assert |SamplesOf(p, k)| == EndSample(p) - StartSample(p);
    assert u < CropEnd(p) - CropStart(p);
  }

  ghost function Begins(t: Template): seq<real> {
    seq(|t.pieces| + 1, k requires 0 <= k <= |t.pieces| => Offset(t, k))
  }

  ghost function Parts(t: Template): seq<seq<Segment>> {
    seq(|t.pieces|, k requires 0 <= k < |t.pieces| => LabelsOf(t, t.pieces[k], Offset(t, k)))
  }

  lemma FlatNext(parts: seq<seq<Segment>>, n: nat)
    requires 0 < n <= |parts|
    ensures Flat(parts[..n]) == Flat(parts[..n - 1]) + parts[n - 1]
  {
    assert parts[..n][..n - 1] == parts[..n - 1];
  }

  lemma {:induction false} StepsAreFlat(labels: nat -> seq<Segment>, parts: seq<seq<Segment>>, n: nat)
    requires n <= |parts| && labels(0) == []
    requires forall k {:trigger parts[k]} :: 0 <= k < |parts| ==> labels(k + 1) == labels(k) + parts[k]
    ensures labels(n) == Flat(parts[..n])
  {
    if n > 0 {
      StepsAreFlat(labels, parts, n - 1);
      FlatNext(parts, n);
      assert labels(n) == labels(n - 1) + parts[n - 1];
    }
  }

  lemma LabelsAreFlat(t: Template)
    requires Composed(t, |t.pieces|).Ok?
    ensures Composed(t, |t.pieces|).value.labels == Flat(Parts(t)[..|t.pieces|])
  {
    var labels := (k: nat) => if k <= |t.pieces| && Composed(t, k).Ok? then Composed(t, k).value.labels else [];
    forall k | 0 <= k < |t.pieces| ensures labels(k + 1) == labels(k) + Parts(t)[k] {
      PrefixComposes(t, k + 1, |t.pieces|);
      SlotLength(t, k);
    }
    StepsAreFlat(labels, Parts(t), |t.pieces|);
  }

  lemma PartStaysInSlot(t: Template, k: nat)
    requires k < |t.pieces| && Composed(t, k + 1).Ok?
    ensures ActiveOnlyIn(LabelsOf(t, t.pieces[k], Offset(t, k)), Offset(t, k), Offset(t, k + 1) + Seconds(1))
  {
    var p, offset, end := t.pieces[k], Offset(t, k), Offset(t, k + 1);
    var part := LabelsOf(t, p, offset);
    SlotLength(t, k);
    forall at | ActiveAt(part, at) != {} ensures offset <= at < end + Seconds(1) {
      var u := at - offset;
      assert offset + u == at;
      PieceExact(t, p, offset, u);
      LabelsStayInSlot(t, k, u);
    }
  }

  lemma BeginsIncrease(t: Template, i: nat, j: nat)
    requires Composed(t, |t.pieces|).Ok? && i <= j <= |t.pieces|
    ensures Offset(t, i) <= Offset(t, j)
  {
    PrefixComposes(t, j, |t.pieces|);
    PrefixComposes(t, i, j);
  }

  lemma PartIsInSlot(t: Template, k: nat)
    requires Composed(t, |t.pieces|).Ok? && k < |t.pieces|
    ensures ActiveOnlyIn(LabelsOf(t, t.pieces[k], Offset(t, k)), Offset(t, k), Offset(t, k + 1) + Seconds(1))
  {
    PrefixComposes(t, k + 1, |t.pieces|);
    PartStaysInSlot(t, k);
  }

  lemma PartsAreInSlots(t: Template)
    requires Composed(t, |t.pieces|).Ok?
    ensures InSlots(Begins(t), Parts(t), Seconds(1))
  {
    var begins, parts := Begins(t), Parts(t);
    forall i, j | 0 <= i <= j < |begins| ensures begins[i] <= begins[j] {
      BeginsIncrease(t, i, j);
    }
    forall k | 0 <= k < |parts| ensures ActiveOnlyIn(parts[k], begins[k], begins[k + 1] + Seconds(1)) {
      PartIsInSlot(t, k);
    }
  }

  /** In the middle of a slot the whole output is active just where that slot's part is. */
  lemma OnlyThisPart(t: Template, k: nat, at: real)
    requires k < |t.pieces| && Composed(t, |t.pieces|).Ok?
    requires Begins(t)[k] + Seconds(1) <= at < Begins(t)[k + 1]
    ensures ActiveAt(Composed(t, |t.pieces|).value.labels, at) == ActiveAt(Parts(t)[k], at)
  {
    PartsAreInSlots(t);
    OnePartActive(Begins(t), Parts(t), Seconds(1), k, |t.pieces|, at);
    LabelsAreFlat(t);
  }

  /**
    The composed timeline tells the truth: from one sample after a slot begins
    until it ends, the active labels are exactly those its source carries that
    long after the template's crop start, under the names the template gives
    them; in a silence there are none.
   */
  lemma TimelineIsPreserved(t: Template, k: nat, at: real)
    requires k < |t.pieces| && Composed(t, |t.pieces|).Ok?
    requires Offset(t, k) + Seconds(1) <= at < Offset(t, k + 1)
    ensures ActiveAt(Composed(t, |t.pieces|).value.labels, at) == Expected(t, t.pieces[k], at - Offset(t, k))
    ensures forall name :: name in ActiveAt(Composed(t, |t.pieces|).value.labels, at) <==>
              IsTold(t, t.pieces[k], at - Offset(t, k), name)
  {
    var offset := Offset(t, k);
    OnlyThisPart(t, k, at);
    assert offset + (at - offset) == at;
    PieceExact(t, t.pieces[k], offset, at - offset);
  }

  lemma PrefixSample(here: seq<real>, all: seq<real>, before: seq<real>, part: seq<real>, i: nat)
    requires here <= all && here == before + part && i < |part|
    ensures |before| + i < |all| && all[|before| + i] == part[i]
  {
    assert here[|before| + i] == part[i];
  }

  lemma StartsAtCrop(p: Piece)
    requires p.Audio?
    ensures -0.5 <= StartSample(p) as real - (if p.cropStart < 0.0 then 0.0 else p.cropStart * 16000.0) <= 0.5
  {
  }

  /** Slot `k` of the output holds the samples of piece `k`. */
  lemma SlotSamples(t: Template, k: nat)
    requires k < |t.pieces| && Composed(t, |t.pieces|).Ok?
    ensures Composed(t, k).Ok? && Composed(t, k + 1).Ok? && ProblemOf(t.pieces[k], k).None?
    ensures Composed(t, k + 1).value.samples == Composed(t, k).value.samples + SamplesOf(t.pieces[k], k)
    ensures Composed(t, k + 1).value.samples <= Composed(t, |t.pieces|).value.samples
  {
    PrefixComposes(t, k + 1, |t.pieces|);
    SlotLength(t, k);
  }

  lemma SlotSample(t: Template, k: nat, i: nat)
    requires k < |t.pieces| && Composed(t, |t.pieces|).Ok? && ProblemOf(t.pieces[k], k).None?
    requires i < |SamplesOf(t.pieces[k], k)|
    ensures Composed(t, k).Ok?
    ensures var first, all := |Composed(t, k).value.samples|, Composed(t, |t.pieces|).value.samples;
            first + i < |all| && all[first + i] == SamplesOf(t.pieces[k], k)[i]
  {
    SlotSamples(t, k);
    PrefixSample(Composed(t, k + 1).value.samples, Composed(t, |t.pieces|).value.samples,
                 Composed(t, k).value.samples, SamplesOf(t.pieces[k], k), i);
  }

  lemma ClipSamples(p: Piece, index: nat)
    requires p.Audio? && ProblemOf(p, index).None?
    ensures StartSample(p) <= EndSample(p) <= |p.samples|
    ensures |SamplesOf(p, index)| == EndSample(p) - StartSample(p)
    ensures forall i :: 0 <= i < EndSample(p) - StartSample(p) ==> SamplesOf(p, index)[i] == p.samples[StartSample(p) + i]
  {
    SliceFits(p);
  }

  /** The audio of slot `k` is the cropped clip, sample for sample, and starts within half a sample of the crop. */
  lemma AudioIsAligned(t: Template, k: nat, i: nat)
    requires k < |t.pieces| && Composed(t, |t.pieces|).Ok? && t.pieces[k].Audio?
    requires var p := t.pieces[k]; i < EndSample(p) - StartSample(p)
    ensures Composed(t, k).Ok? && ProblemOf(t.pieces[k], k).None?
    ensures var p, first, all := t.pieces[k], |Composed(t, k).value.samples|, Composed(t, |t.pieces|).value.samples;
            && StartSample(p) + i < EndSample(p) <= |p.samples| && first + i < |all|
            && all[first + i] == p.samples[StartSample(p) + i]
            && -0.5 <= StartSample(p) as real - (if p.cropStart < 0.0 then 0.0 else p.cropStart * 16000.0) <= 0.5
  {
    SlotSamples(t, k);
    ClipSamples(t.pieces[k], k);
    SlotSample(t, k, i);
    StartsAtCrop(t.pieces[k]);
  }

  /** A stretch of the template in samples: a silence as long as it says, a clip from its crop start to its crop end. */
  ghost predicate HasLength(p: Piece, n: int) {
    if p.Silence? then -0.5 <= n as real - p.duration * 16000.0 <= 0.5
    else
      var start := if p.cropStart < 0.0 then 0.0 else p.cropStart * 16000.0;
      var end := if p.cropEnd.Some? && p.cropEnd.value * 16000.0 < |p.samples| as real then p.cropEnd.value * 16000.0
                 else |p.samples| as real;
      -1.0 <= n as real - (end - start) <= 1.0
  }

  lemma PieceLength(p: Piece, index: nat)
    requires ProblemOf(p, index).None?
    ensures HasLength(p, |SamplesOf(p, index)|)
  {
    if p.Audio? {
      SliceFits(p);
      var total := Seconds(|p.samples|);
      assert total * 16000.0 == |p.samples| as real;
      assert AtRate(CropStart(p)) == if p.cropStart < 0.0 then 0.0 else p.cropStart * 16000.0;
      assert |SamplesOf(p, index)| == EndSample(p) - StartSample(p);
    }
  }

  /** Slots follow each other from 0, each as long as the template says to within one sample. */
  lemma SlotsFollowTemplate(t: Template, k: nat)
    requires k < |t.pieces| && Composed(t, |t.pieces|).Ok?
    ensures Offset(t, 0) == 0.0 && Composed(t, k).Ok? && Composed(t, k + 1).Ok?
    ensures var n, m := |Composed(t, k).value.samples|, |Composed(t, k + 1).value.samples|;
            && Offset(t, k) * 16000.0 == n as real && Offset(t, k + 1) * 16000.0 == m as real
            && HasLength(t.pieces[k], m - n)
  {
    PrefixComposes(t, k + 1, |t.pieces|);
    SlotLength(t, k);
    PieceLength(t.pieces[k], k);
  }

  /** A silence is a constant near zero. */
  lemma SilenceIsQuiet(t: Template, k: nat, i: nat)
    requires k < |t.pieces| && Composed(t, |t.pieces|).Ok? && t.pieces[k].Silence?
    requires Composed(t, k).Ok? && Composed(t, k + 1).Ok?
    requires |Composed(t, k).value.samples| <= i < |Composed(t, k + 1).value.samples|
    ensures i < |Composed(t, |t.pieces|).value.samples| && Composed(t, |t.pieces|).value.samples[i] == 0.00001
  {
    SlotSamples(t, k);
    SlotSample(t, k, i - |Composed(t, k).value.samples|);
  }

  // ----- Which templates compose -----------------------------------------------------------------------------

  /** A silence does not last a negative time; a crop holds some of the clip, which starts at 0. */
  ghost predicate IsSound(p: Piece) {
    match p
    case Silence(duration) => duration >= 0.0
    case Audio(_, samples, _, start, end) =>
      && start * 16000.0 < |samples| as real && 0 < |samples| && (end.Some? ==> start < end.value && 0.0 < end.value)
  }

  lemma ProblemIff(p: Piece, index: nat)
    ensures ProblemOf(p, index).None? <==> IsSound(p)
    ensures !IsSound(p) ==>
      ProblemOf(p, index) == Some(if p.Silence? then NegativeSilence(index) else CropCollapses(index))
  {
    if p.Audio? {
      var total := Seconds(|p.samples|);
      assert total * 16000.0 == |p.samples| as real;
    }
  }

  /** What piece `k` does to the outcome so far. */
  ghost predicate IsStep(before: Result<Output, Problem>, after: Result<Output, Problem>, p: Piece, k: nat) {
    if before.Err? then after == before
    else if IsSound(p) then after.Ok?
    else after == Err(if p.Silence? then NegativeSilence(k) else CropCollapses(k))
  }

  lemma ComposedSteps(t: Template, k: nat)
    requires k < |t.pieces|
    ensures IsStep(Composed(t, k), Composed(t, k + 1), t.pieces[k], k)
  {
    ProblemIff(t.pieces[k], k);
  }

  /** Piece `e.index` is the first of the first `n` pieces that is not sound, and `e` says in which way. */
  ghost predicate IsFirstProblem(t: Template, n: nat, e: Problem) {
    && e.index < n <= |t.pieces| && !IsSound(t.pieces[e.index])
    && (e.NegativeSilence? <==> t.pieces[e.index].Silence?)
    && forall k :: 0 <= k < e.index ==> IsSound(t.pieces[k])
  }

  lemma {:induction false} StepsFindProblem(t: Template, outcomes: nat -> Result<Output, Problem>, n: nat)
    requires n <= |t.pieces| && outcomes(0).Ok?
    requires forall k {:trigger t.pieces[k]} :: 0 <= k < |t.pieces| ==>
               IsStep(outcomes(k), outcomes(k + 1), t.pieces[k], k)
    ensures outcomes(n).Ok? <==> forall k :: 0 <= k < n ==> IsSound(t.pieces[k])
    ensures outcomes(n).Err? ==> IsFirstProblem(t, n, outcomes(n).error)
  {
    if n > 0 {
      StepsFindProblem(t, outcomes, n - 1);
      assert IsStep(outcomes(n - 1), outcomes(n), t.pieces[n - 1], n - 1);
    }
  }

  /** A template composes exactly when all its pieces are sound; otherwise the first one that is not is reported. */
  lemma ComposesIff(t: Template)
    ensures Composed(t, |t.pieces|).Ok? <==> forall k :: 0 <= k < |t.pieces| ==> IsSound(t.pieces[k])
    ensures Composed(t, |t.pieces|).Err? ==> IsFirstProblem(t, |t.pieces|, Composed(t, |t.pieces|).error)
  {
    var outcomes := (k: nat) => if k <= |t.pieces| then Composed(t, k) else Composed(t, 0);
    forall k | 0 <= k < |t.pieces| ensures IsStep(outcomes(k), outcomes(k + 1), t.pieces[k], k) {
      ComposedSteps(t, k);
    }
    StepsFindProblem(t, outcomes, |t.pieces|);
  }
}
