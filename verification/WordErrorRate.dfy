/**
  The transcription scorers: text normalization, word error rate and character
  error rate. Rates are exact reals.
 */
module WordErrorRate {
  import opened Text
  import opened EditDistance

  /** The two Unicode tables the normalizer consults. */
  datatype CharTable = CharTable(lower: char -> string, alphanumeric: char -> bool)

  /** No whitespace character is alphanumeric, and lowercase text is fixed by lowercasing. */
  ghost predicate Lawful(t: CharTable) {
    && (forall c :: IsWhitespace(c) ==> !t.alphanumeric(c))
    && (forall c, k :: 0 <= k < |t.lower(c)| ==> t.lower(t.lower(c)[k]) == [t.lower(c)[k]])
    && t.lower(' ') == [' '] && t.lower('\'') == ['\'']
  }

  // ----- What normalization means -------------------------------------------------

  predicate Kept(t: CharTable, c: char) {
    t.alphanumeric(c) || c == '\''
  }

  function Lowercase(t: CharTable, s: string): string {
    if s == "" then "" else Lowercase(t, s[..|s| - 1]) + t.lower(s[|s| - 1])
  }

  /** Only kept characters and whitespace survive. */
  function Strip(t: CharTable, s: string): string {
    if s == "" then ""
    else
      var c := s[|s| - 1];
      Strip(t, s[..|s| - 1]) + if Kept(t, c) || IsWhitespace(c) then [c] else ""
  }

  /** The word tokens that are scored. */
  function Tokens(t: CharTable, s: string): seq<string> {
    Words(Strip(t, Lowercase(t, s)))
  }

  /** Lowercase, strip, collapse runs of whitespace into one space, trim. */
  function Normal(t: CharTable, s: string): string {
    Join(Tokens(t, s), " ")
  }

  // ----- The one-pass normalizer --------------------------------------------------

  /** The buffer after reading `k`: its words, and one space if a word is closed. */
  ghost function Buffer(k: string): string {
    Join(Words(k), " ") + if Words(k) != [] && AtBreak(k) then " " else ""
  }

  lemma BufferSpace(k: string, c: char)
    requires IsWhitespace(c)
    ensures Buffer(k + [c]) == if AtBreak(Buffer(k)) then Buffer(k) else Buffer(k) + [' ']
  {
    WordsSnoc(k, c);
    JoinEnds(Words(k));
    assert AtBreak(k + [c]);
  }

  lemma BufferChar(k: string, c: char)
    requires !IsWhitespace(c)
    ensures Buffer(k + [c]) == Buffer(k) + [c]
  {
    WordsSnoc(k, c);
    var ws, ws' := Words(k), Words(k + [c]);
    assert !AtBreak(k + [c]);
    if AtBreak(k) || ws == [] {
      assert ws'[..|ws'| - 1] == ws;
    } else {
      assert ws'[..|ws'| - 1] == ws[..|ws| - 1];
    }
  }

  lemma TrimBuffer(k: string)
    ensures Trim(Buffer(k)) == Join(Words(k), " ")
  {
    var j := Join(Words(k), " ");
    JoinEnds(Words(k));
    assert (j + " ")[..|j|] == j;
    assert TrimEnd(Buffer(k)) == j;
  }

  /** What one lowercased character does to the buffer. */
  lemma ReadOne(t: CharTable, done: string, c: char)
    requires Lawful(t)
    ensures var b := Buffer(Strip(t, done));
            Buffer(Strip(t, done + [c])) ==
              if Kept(t, c) then b + [c] else if IsWhitespace(c) && !AtBreak(b) then b + [' '] else b
    ensures Kept(t, c) ==> !AtBreak(Buffer(Strip(t, done + [c])))
  {
    assert (done + [c])[..|done|] == done;
    if IsWhitespace(c) {
      BufferSpace(Strip(t, done), c);
    } else if Kept(t, c) {
      BufferChar(Strip(t, done), c);
    } else {
      assert Strip(t, done) + "" == Strip(t, done);
    }
  }

  /** The inner loop: push the lowercase expansion of one character. */
  method PushLower(t: CharTable, buf: string, lastWasSpace: bool, lower: string, ghost done: string)
    returns (buf': string, lastWasSpace': bool)
    requires Lawful(t)
    requires buf == Buffer(Strip(t, done)) && lastWasSpace == AtBreak(buf)
    ensures buf' == Buffer(Strip(t, done + lower)) && lastWasSpace' == AtBreak(buf')
  {
    buf', lastWasSpace' := buf, lastWasSpace;
    assert done + lower[..0] == done;
    for j := 0 to |lower|
      invariant buf' == Buffer(Strip(t, done + lower[..j])) && lastWasSpace' == AtBreak(buf')
    {
      var cc := lower[j];
      ReadOne(t, done + lower[..j], cc);
      assert done + lower[..j + 1] == done + lower[..j] + [cc];
      if Kept(t, cc) {
        buf', lastWasSpace' := buf' + [cc], false;
      } else if IsWhitespace(cc) && !lastWasSpace' {
        buf', lastWasSpace' := buf' + [' '], true;
      }
    }
    assert lower[..|lower|] == lower;
  }

  method Normalize(t: CharTable, s: string) returns (r: string)
    requires Lawful(t)
    ensures r == Normal(t, s)
  {
    var buf, lastWasSpace := "", true;
    for i := 0 to |s|
      invariant buf == Buffer(Strip(t, Lowercase(t, s[..i]))) && lastWasSpace == AtBreak(buf)
    {
      assert s[..i + 1][..i] == s[..i];
      buf, lastWasSpace := PushLower(t, buf, lastWasSpace, t.lower(s[i]), Lowercase(t, s[..i]));
    }
    assert s[..|s|] == s;
    TrimBuffer(Strip(t, Lowercase(t, s)));
    r := Trim(buf);
  }

  // ----- Normal form --------------------------------------------------------------

  lemma TokensOfNormal(t: CharTable, s: string)
    ensures Words(Normal(t, s)) == Tokens(t, s)
  {
    WordsOfJoin(Tokens(t, s));
  }

  /** Two texts normalize alike exactly when they have the same tokens. */
  lemma SameNormalForm(t: CharTable, r: string, h: string)
    ensures Normal(t, r) == Normal(t, h) <==> Tokens(t, r) == Tokens(t, h)
    ensures Normal(t, r) == "" <==> Tokens(t, r) == []
  {
    TokensOfNormal(t, r);
    TokensOfNormal(t, h);
    JoinEnds(Tokens(t, r));
  }

  /** The characters of `s` that satisfy `p`, in order. */
  function Only(p: char -> bool, s: string): string {
    if s == "" then "" else Only(p, s[..|s| - 1]) + if p(s[|s| - 1]) then [s[|s| - 1]] else ""
  }

  lemma {:induction false} OnlyConcat(p: char -> bool, a: string, b: string)
    ensures Only(p, a + b) == Only(p, a) + Only(p, b)
    decreases |b|
  {
    if b == "" {
      assert a + b == a;
    } else {
      OnlyConcat(p, a, b[..|b| - 1]);
      assert (a + b)[..|a + b| - 1] == a + b[..|b| - 1];
    }
  }

  lemma {:induction false} OnlyAll(p: char -> bool, s: string)
    requires forall k :: 0 <= k < |s| ==> p(s[k])
    ensures Only(p, s) == s
  {
    if s != "" {
      OnlyAll(p, s[..|s| - 1]);
    }
  }

  function NotSpace(): char -> bool {
    c => !IsWhitespace(c)
  }

  lemma {:induction false} WordsKeepText(s: string)
    ensures Only(NotSpace(), Join(Words(s), " ")) == Only(NotSpace(), s)
  {
    if s != "" {
      var n := |s| - 1;
      WordsKeepText(s[..n]);
      WordsSnoc(s[..n], s[n]);
      assert s == s[..n] + [s[n]];
      JoinOneMore(Words(s[..n]), AtBreak(s[..n]), s[n]);
    }
  }

  lemma JoinOneMore(ws: seq<string>, atBreak: bool, c: char)
    requires !atBreak ==> ws != []
    ensures Only(NotSpace(), Join(WordsWith(ws, atBreak, c), " ")) ==
            Only(NotSpace(), Join(ws, " ")) + if IsWhitespace(c) then "" else [c]
  {
    var next := WordsWith(ws, atBreak, c);
    if IsWhitespace(c) {
    } else if atBreak || ws == [] {
      assert next[..|next| - 1] == ws;
      if ws == [] {
        assert Join(next, " ") == [c] && Only(NotSpace(), [c]) == Only(NotSpace(), "") + [c];
      } else {
        OnlyConcat(NotSpace(), Join(ws, " "), " " + [c]);
        assert Join(next, " ") == Join(ws, " ") + (" " + [c]);
        OnlyConcat(NotSpace(), " ", [c]);
      }
    } else {
      var front, last := ws[..|ws| - 1], ws[|ws| - 1];
      assert next[..|next| - 1] == front;
      OnlyConcat(NotSpace(), Join(ws, " "), [c]);
      if front == [] {
        assert Join(next, " ") == Join(ws, " ") + [c];
      } else {
        assert Join(next, " ") == Join(front, " ") + " " + (last + [c]);
        assert Join(next, " ") == Join(ws, " ") + [c];
      }
    }
  }

  lemma {:induction false} StripKeepsText(t: CharTable, s: string)
    requires forall c :: IsWhitespace(c) ==> !t.alphanumeric(c)
    ensures Only(NotSpace(), Strip(t, s)) == Only(c => t.alphanumeric(c) || c == '\'', s)
  {
    if s != "" {
      var n := |s| - 1;
      StripKeepsText(t, s[..n]);
      OnlyConcat(NotSpace(), Strip(t, s[..n]), if Kept(t, s[n]) || IsWhitespace(s[n]) then [s[n]] else "");
    }
  }

  /** Apart from spaces, normal form holds exactly the letters, digits and apostrophes of the lowercase text, in order. */
  lemma NormalKeepsText(t: CharTable, s: string)
    requires Lawful(t)
    ensures Only(NotSpace(), Normal(t, s)) == Only(c => t.alphanumeric(c) || c == '\'', Lowercase(t, s))
  {
    WordsKeepText(Strip(t, Lowercase(t, s)));
    StripKeepsText(t, Lowercase(t, s));
  }

  /** Lowercasing goes character by character. */
  lemma {:induction false} LowercaseConcat(t: CharTable, a: string, b: string)
    ensures Lowercase(t, a + b) == Lowercase(t, a) + Lowercase(t, b)
    ensures forall c :: Lowercase(t, [c]) == t.lower(c)
    decreases |b|
  {
    forall c ensures Lowercase(t, [c]) == t.lower(c) {
      assert [c][..0] == "" && "" + t.lower(c) == t.lower(c);
    }
    if b == "" {
      assert a + b == a;
    } else {
      LowercaseConcat(t, a, b[..|b| - 1]);
      assert (a + b)[..|a + b| - 1] == a + b[..|b| - 1];
    }
  }

  lemma {:induction false} StripConcat(t: CharTable, a: string, b: string)
    ensures Strip(t, a + b) == Strip(t, a) + Strip(t, b)
    decreases |b|
  {
    if b == "" {
      assert a + b == a;
    } else {
      StripConcat(t, a, b[..|b| - 1]);
      assert (a + b)[..|a + b| - 1] == a + b[..|b| - 1];
    }
  }

  /** Whitespace always parts tokens. */
  lemma TokensConcat(t: CharTable, a: string, c: char, b: string)
    requires IsWhitespace(c) && t.lower(c) == [c]
    ensures Tokens(t, a + [c] + b) == Tokens(t, a) + Tokens(t, b)
  {
    var x, y := Lowercase(t, a), Lowercase(t, b);
    LowercaseConcat(t, a + [c], b);
    LowercaseConcat(t, a, [c]);
    StripConcat(t, x + [c], y);
    StripConcat(t, x, [c]);
    assert Strip(t, [c]) == [c] by {
      assert [c][..0] == "" && "" + [c] == [c];
    }
    WordsConcat(Strip(t, x), c, Strip(t, y));
  }

  lemma {:induction false} StripSolid(t: CharTable, s: string)
    requires NoWhitespace(s)
    ensures NoWhitespace(Strip(t, s)) && Strip(t, s) == Only(c => t.alphanumeric(c) || c == '\'', s)
  {
    if s != "" {
      StripSolid(t, s[..|s| - 1]);
    }
  }

  /** Nothing else does: text without whitespace is one token at most, whatever is stripped from its middle. */
  lemma OneToken(t: CharTable, s: string)
    requires NoWhitespace(Lowercase(t, s))
    ensures var kept := Only(c => t.alphanumeric(c) || c == '\'', Lowercase(t, s));
            Tokens(t, s) == if kept == "" then [] else [kept]
  {
    StripSolid(t, Lowercase(t, s));
    var kept := Strip(t, Lowercase(t, s));
    if kept != "" {
      WordsOfWord(kept, "");
      assert kept + "" == kept;
    }
  }

  ghost predicate Clean(t: CharTable, s: string) {
    forall k :: 0 <= k < |s| ==> (Kept(t, s[k]) || s[k] == ' ') && t.lower(s[k]) == [s[k]]
  }

  lemma {:induction false} CleanIsFixed(t: CharTable, s: string)
    requires Clean(t, s)
    ensures Lowercase(t, s) == s && Strip(t, s) == s
  {
    if s != "" {
      CleanIsFixed(t, s[..|s| - 1]);
      assert s == s[..|s| - 1] + [s[|s| - 1]];
      assert IsWhitespace(' ');
    }
  }

  ghost predicate CleanOrSpace(t: CharTable, s: string) {
    forall k :: 0 <= k < |s| ==> Clean(t, [s[k]]) || IsWhitespace(s[k])
  }

  lemma {:induction false} LowercaseFixed(t: CharTable, s: string)
    requires Lawful(t)
    ensures forall k :: 0 <= k < |Lowercase(t, s)| ==> t.lower(Lowercase(t, s)[k]) == [Lowercase(t, s)[k]]
  {
    if s != "" {
      LowercaseFixed(t, s[..|s| - 1]);
    }
  }

  lemma {:induction false} StripClean(t: CharTable, s: string)
    requires forall k :: 0 <= k < |s| ==> t.lower(s[k]) == [s[k]]
    ensures CleanOrSpace(t, Strip(t, s))
  {
    if s != "" {
      StripClean(t, s[..|s| - 1]);
    }
  }

  lemma {:induction false} WordsClean(t: CharTable, s: string)
    requires CleanOrSpace(t, s)
    ensures forall k :: 0 <= k < |Words(s)| ==> Clean(t, Words(s)[k])
    decreases |s|
  {
    if s != "" {
      if IsWhitespace(s[0]) {
        WordsClean(t, s[1..]);
      } else {
        var n := WordLength(s);
        forall k | 0 <= k < n ensures (Kept(t, s[k]) || s[k] == ' ') && t.lower(s[k]) == [s[k]] {
          assert !IsWhitespace(s[..n][k]);
          assert [s[k]][0] == s[k];
        }
        WordsClean(t, s[n..]);
      }
    }
  }

  lemma {:induction false} JoinClean(t: CharTable, ws: seq<string>)
    requires t.lower(' ') == [' ']
    requires forall k :: 0 <= k < |ws| ==> Clean(t, ws[k])
    ensures Clean(t, Join(ws, " "))
    decreases |ws|
  {
    if |ws| > 1 {
      JoinClean(t, ws[..|ws| - 1]);
    }
  }

  /** Normalizing twice is normalizing once. */
  lemma NormalizeIdempotent(t: CharTable, s: string)
    requires Lawful(t)
    ensures Normal(t, Normal(t, s)) == Normal(t, s)
  {
    LowercaseFixed(t, s);
    StripClean(t, Lowercase(t, s));
    WordsClean(t, Strip(t, Lowercase(t, s)));
    JoinClean(t, Tokens(t, s));
    CleanIsFixed(t, Normal(t, s));
    TokensOfNormal(t, s);
  }

  // ----- The rates ------------------------------------------------------------------

  /** Edits per reference token; an empty reference scores 0 or 1. */
  ghost function Rate<T>(r: seq<T>, h: seq<T>): real {
    if |r| == 0 then (if |h| == 0 then 0.0 else 1.0)
    else Dist(r, h) as real / |r| as real
  }

  /** What a rate says: so many edits for each reference token. */
  ghost predicate IsRate<T(!new)>(rate: real, r: seq<T>, h: seq<T>) {
    if |r| == 0 then rate == (if |h| == 0 then 0.0 else 1.0) else rate * |r| as real == Dist(r, h) as real
  }

  lemma RateIsRate<T(!new)>(r: seq<T>, h: seq<T>)
    ensures IsRate(Rate(r, h), r, h)
  {
  }

  lemma RateZero<T>(r: seq<T>, h: seq<T>)
    ensures Rate(r, h) == 0.0 <==> r == h
    ensures 0.0 <= Rate(r, h)
    ensures |h| <= |r| ==> Rate(r, h) <= 1.0
  {
    Metric(r, h, h);
  }

  method WordErrorRate(t: CharTable, reference: string, hypothesis: string) returns (rate: real)
    requires Lawful(t)
    ensures rate == Rate(Tokens(t, reference), Tokens(t, hypothesis))
    ensures IsRate(rate, Tokens(t, reference), Tokens(t, hypothesis))
    ensures rate == 0.0 <==> Tokens(t, reference) == Tokens(t, hypothesis)
  {
    var r := Normalize(t, reference);
    var h := Normalize(t, hypothesis);
    TokensOfNormal(t, reference);
    TokensOfNormal(t, hypothesis);
    RateZero(Tokens(t, reference), Tokens(t, hypothesis));
    RateIsRate(Tokens(t, reference), Tokens(t, hypothesis));
    var rTokens := if r == "" then [] else Words(r);
    var hTokens := if h == "" then [] else Words(h);
    if |rTokens| == 0 {
      return if |hTokens| == 0 then 0.0 else 1.0;
    }
    var dist := TwoRowLevenshtein(rTokens, hTokens);
    rate := dist as real / |rTokens| as real;
  }

  method CharErrorRate(t: CharTable, reference: string, hypothesis: string) returns (rate: real)
    requires Lawful(t)
    ensures rate == Rate(Normal(t, reference), Normal(t, hypothesis))
    ensures IsRate(rate, Normal(t, reference), Normal(t, hypothesis))
    ensures rate == 0.0 <==> Tokens(t, reference) == Tokens(t, hypothesis)
  {
    var r := Normalize(t, reference);
    var h := Normalize(t, hypothesis);
    RateZero(r, h);
    RateIsRate(r, h);
    SameNormalForm(t, reference, hypothesis);
    if |r| == 0 {
      return if |h| == 0 then 0.0 else 1.0;
    }
    var dist := TwoRowLevenshtein(r, h);
    rate := dist as real / |r| as real;
  }

  /** The word rate is zero exactly when the character rate is. */
  lemma WordAndCharRatesVanishTogether(t: CharTable, r: string, h: string)
    ensures Rate(Tokens(t, r), Tokens(t, h)) == 0.0 <==> Rate(Normal(t, r), Normal(t, h)) == 0.0
  {
    RateZero(Tokens(t, r), Tokens(t, h));
    RateZero(Normal(t, r), Normal(t, h));
    SameNormalForm(t, r, h);
  }

  // ----- The benchmark's word error rate --------------------------------------------------

  function Lowered(lower: string -> string, words: seq<string>): seq<string> {
    seq(|words|, k requires 0 <= k < |words| => lower(words[k]))
  }

  /**
    Edits between the lowercased word lists, by the full matrix. On the same
    tokens this is the rate above, except that a missing reference always scores 0.
   */
  method BenchWordErrorRate(lower: string -> string, reference: string, hypothesis: string)
    returns (rate: real, edits: nat, words: nat)
    ensures var r, h := Lowered(lower, Words(reference)), Lowered(lower, Words(hypothesis));
            && edits == Dist(r, h) && words == |r|
            && (rate == Rate(r, h) <==> |r| > 0 || |h| == 0)
            && (|r| == 0 ==> rate == 0.0)
  {
    var r, h := Lowered(lower, Words(reference)), Lowered(lower, Words(hypothesis));
    edits := FullMatrixLevenshtein(r, h);
    words := |r|;
    rate := if words > 0 then edits as real / words as real else 0.0;
  }
}
