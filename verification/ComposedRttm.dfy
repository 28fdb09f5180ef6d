/** The composer's label file: what is written for a template can be read back. */
module ComposedRttm {
  import opened Segments
  import opened Text
  import opened Options
  import Compose
  import Rttm

  /** Clips whose names and labels are free of whitespace, and a table of one-word names. */
  ghost predicate NamesAreWords(t: Compose.Template) {
    && (forall k :: k in t.speakers ==> IsWord(t.speakers[k]))
    && (forall i :: 0 <= i < |t.pieces| && t.pieces[i].Audio? ==>
          NoWhitespace(t.pieces[i].basename) && Rttm.NamedByWords(t.pieces[i].labels))
  }

  lemma RemapIsWord(table: map<string, string>, basename: string, original: string)
    requires (forall k :: k in table ==> IsWord(table[k])) && NoWhitespace(basename) && IsWord(original)
    ensures IsWord(Compose.RemapSpeaker(table, basename, original))
  {
    var s := basename + "_" + original;
    forall k | 0 <= k < |s| ensures !IsWhitespace(s[k]) {
      if k < |basename| {
        assert s[k] == basename[k];
      } else if k > |basename| {
        assert s[k] == original[k - |basename| - 1];
      }
    }
  }

  lemma {:induction false} ClipsAreWords(t: Compose.Template, p: Compose.Piece, n: nat, offset: real)
    requires NamesAreWords(t) && p in t.pieces && p.Audio? && n <= |p.labels|
    ensures Rttm.NamedByWords(Compose.ClipLabels(t, p, n, offset))
  {
    if n > 0 {
      ClipsAreWords(t, p, n - 1, offset);
      RemapIsWord(t.speakers, p.basename, p.labels[n - 1].speaker);
    }
  }

  lemma {:induction false} ComposedAreWords(t: Compose.Template, n: nat)
    requires NamesAreWords(t) && n <= |t.pieces| && Compose.Composed(t, n).Ok?
    ensures Rttm.NamedByWords(Compose.Composed(t, n).value.labels)
  {
    if n > 0 {
      var p, before := t.pieces[n - 1], Compose.Composed(t, n - 1);
      ComposedAreWords(t, n - 1);
      if p.Audio? {
        ClipsAreWords(t, p, |p.labels|, Compose.Seconds(|before.value.samples|));
      }
    }
  }

  /** The label file of a composed template is read back as its labels, at millisecond precision. */
  lemma ComposedLabelsAreReadBack(t: Compose.Template, fileId: string)
    requires Rttm.IsPlainId(fileId) && NamesAreWords(t) && Compose.Composed(t, |t.pieces|).Ok?
    ensures var labels := Compose.Composed(t, |t.pieces|).value.labels;
            Rttm.Parsed(Rttm.Printed(fileId, labels)) == Ok(Rttm.AtMillis(labels))
  {
    ComposedAreWords(t, |t.pieces|);
    Rttm.RttmRoundTrip(fileId, Compose.Composed(t, |t.pieces|).value.labels);
  }
}
