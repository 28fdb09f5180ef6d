/** Strings as sequences of Unicode scalars: whitespace, splitting into words, joining, trimming. */
module Text {

  /** The Unicode White_Space property, as `char::is_whitespace` tests it. */
  predicate IsWhitespace(c: char) {
    var u := c as int;
    || 0x09 <= u <= 0x0D || u == 0x20 || u == 0x85 || u == 0xA0 || u == 0x1680
    || 0x2000 <= u <= 0x200A || u == 0x2028 || u == 0x2029 || u == 0x202F || u == 0x205F || u == 0x3000
  }

  /** These are 25 characters. */
  lemma WhitespaceIs(c: char)
    ensures IsWhitespace(c) <==>
      c as int in {0x9, 0xA, 0xB, 0xC, 0xD, 0x20, 0x85, 0xA0, 0x1680, 0x2000, 0x2001, 0x2002, 0x2003, 0x2004, 0x2005, 0x2006,
                   0x2007, 0x2008, 0x2009, 0x200A, 0x2028, 0x2029, 0x202F, 0x205F, 0x3000}
  {
  }

  predicate NoWhitespace(s: string) {
    forall k :: 0 <= k < |s| ==> !IsWhitespace(s[k])
  }

  predicate IsWord(s: string) {
    s != "" && NoWhitespace(s)
  }

  predicate EndsWith(s: string, suffix: string) {
    |suffix| <= |s| && s[|s| - |suffix|..] == suffix
  }

  /** Length of the longest prefix of `s` without whitespace. */
  function WordLength(s: string): (n: nat)
    ensures n <= |s| && NoWhitespace(s[..n]) && (n < |s| ==> IsWhitespace(s[n]))
  {
    if s == "" || IsWhitespace(s[0]) then 0
    else
      var n := 1 + WordLength(s[1..]);
      assert s[..n] == [s[0]] + s[1..][..n - 1];
      n
  }

  /** `split_whitespace`: the maximal runs of non-whitespace, left to right. */
  function Words(s: string): (ws: seq<string>)
    ensures forall k :: 0 <= k < |ws| ==> IsWord(ws[k])
    decreases |s|
  {
    if s == "" then []
    else if IsWhitespace(s[0]) then Words(s[1..])
    else
      var n := WordLength(s);
      [s[..n]] + Words(s[n..])
  }

  function Join(ws: seq<string>, sep: string): string {
    if |ws| == 0 then ""
    else if |ws| == 1 then ws[0]
    else Join(ws[..|ws| - 1], sep) + sep + ws[|ws| - 1]
  }

  function TrimStart(s: string): string {
    if s != "" && IsWhitespace(s[0]) then TrimStart(s[1..]) else s
  }

  function TrimEnd(s: string): string {
    if s != "" && IsWhitespace(s[|s| - 1]) then TrimEnd(s[..|s| - 1]) else s
  }

  function Trim(s: string): string {
    TrimStart(TrimEnd(s))
  }

  // ----- A word at the front ----------------------------------------------------

  lemma {:induction false} WordLengthOf(w: string, rest: string)
    requires NoWhitespace(w)
    requires rest == "" || IsWhitespace(rest[0])
    ensures WordLength(w + rest) == |w|
  {
    if w == "" {
      assert w + rest == rest;
    } else {
      assert (w + rest)[0] == w[0];
      assert (w + rest)[1..] == w[1..] + rest;
      WordLengthOf(w[1..], rest);
    }
  }

  /** A word followed by nothing or by whitespace is split off whole. */
  lemma WordsOfWord(w: string, rest: string)
    requires IsWord(w)
    requires rest == "" || IsWhitespace(rest[0])
    ensures Words(w + rest) == [w] + Words(rest)
  {
    WordLengthOf(w, rest);
    assert (w + rest)[0] == w[0];
    assert (w + rest)[..|w|] == w && (w + rest)[|w|..] == rest;
  }

  // ----- Reading one more character ----------------------------------------------

  /** Whether the next character read starts a new word. */
  predicate AtBreak(s: string) {
    s == "" || IsWhitespace(s[|s| - 1])
  }

  /** The words of `s` after one more character `c`. */
  function WordsWith(ws: seq<string>, atBreak: bool, c: char): seq<string> {
    if IsWhitespace(c) then ws
    else if atBreak || ws == [] then ws + [[c]]
    else ws[..|ws| - 1] + [ws[|ws| - 1] + [c]]
  }

  lemma SnocToWord(w: string, c: char)
    requires IsWord(w)
    ensures Words(w) == [w] && !AtBreak(w)
    ensures Words(w + [c]) == if IsWhitespace(c) then [w] else [w + [c]]
  {
    WordsOfWord(w, "");
    assert w + "" == w;
    if IsWhitespace(c) {
      WordsOfWord(w, [c]);
      assert [c][1..] == "";
    } else {
      WordsOfWord(w + [c], "");
      assert w + [c] + "" == w + [c];
    }
  }

  lemma {:induction false} WordsSnoc(s: string, c: char)
    ensures !AtBreak(s) ==> Words(s) != []
    ensures Words(s + [c]) == WordsWith(Words(s), AtBreak(s), c)
    decreases |s|, 2
  {
    if s == "" {
      assert s + [c] == [c] && [c][1..] == "";
      if !IsWhitespace(c) {
        SnocToWord([c], ' ');
      }
    } else if IsWhitespace(s[0]) {
      assert (s + [c])[0] == s[0] && (s + [c])[1..] == s[1..] + [c];
      assert |s| > 1 ==> s[1..][|s| - 2] == s[|s| - 1];
      WordsSnoc(s[1..], c);
    } else if WordLength(s) == |s| {
      assert s[..|s|] == s;
      SnocToWord(s, c);
    } else {
      SnocPastWord(s, c);
    }
  }

  /** Words before the last one are not affected by one more character. */
  lemma WordsWithCons(w: string, ws: seq<string>, atBreak: bool, c: char)
    requires ws != [] || atBreak
    ensures WordsWith([w] + ws, atBreak, c) == [w] + WordsWith(ws, atBreak, c)
  {
  }

  lemma {:induction false} SnocPastWord(s: string, c: char)
    requires 0 < WordLength(s) < |s|
    ensures Words(s) != []
    ensures Words(s + [c]) == WordsWith(Words(s), AtBreak(s), c)
    decreases |s|, 1
  {
    var n := WordLength(s);
    SnocAfterWord(s[..n], s[n..], c);
    assert s == s[..n] + s[n..];
  }

  lemma {:induction false} SnocAfterWord(w: string, rest: string, c: char)
    requires IsWord(w) && rest != "" && IsWhitespace(rest[0])
    ensures Words(w + rest) != []
    ensures Words(w + rest + [c]) == WordsWith(Words(w + rest), AtBreak(w + rest), c)
    decreases |w + rest|, 0
  {
    WordsSnoc(rest, c);
    WordsOfWord(w, rest);
    WordsOfWord(w, rest + [c]);
    WordsWithCons(w, Words(rest), AtBreak(rest), c);
    assert w + rest + [c] == w + (rest + [c]);
  }

  // ----- Joining and splitting ------------------------------------------------------

  lemma {:induction false} WordsConcat(s: string, c: char, t: string)
    requires IsWhitespace(c)
    ensures Words(s + [c] + t) == Words(s) + Words(t)
    decreases |s|, 1
  {
    var u := s + [c] + t;
    if s == "" {
      assert u[0] == c && u[1..] == t;
    } else if IsWhitespace(s[0]) {
      assert u[0] == s[0] && u[1..] == s[1..] + [c] + t;
      WordsConcat(s[1..], c, t);
    } else {
      ConcatPastWord(s, c, t);
    }
  }

  lemma {:induction false} ConcatPastWord(s: string, c: char, t: string)
    requires IsWhitespace(c) && s != "" && !IsWhitespace(s[0])
    ensures Words(s + [c] + t) == Words(s) + Words(t)
    decreases |s|, 0
  {
    var n := WordLength(s);
    var w, rest := s[..n], s[n..];
    WordsConcat(rest, c, t);
    assert s == w + rest;
    WordsOfWord(w, rest);
    WordsOfWord(w, rest + [c] + t);
    assert s + [c] + t == w + (rest + [c] + t);
  }

  /** Splitting undoes joining with single spaces. */
  lemma {:induction false} WordsOfJoin(ws: seq<string>)
    requires forall k :: 0 <= k < |ws| ==> IsWord(ws[k])
    ensures Words(Join(ws, " ")) == ws
    decreases |ws|
  {
    if |ws| > 0 {
      var last := ws[|ws| - 1];
      WordsOfWord(last, "");
      assert last + "" == last;
      if |ws| == 1 {
      } else {
        WordsOfJoin(ws[..|ws| - 1]);
        WordsConcat(Join(ws[..|ws| - 1], " "), ' ', last);
        assert Join(ws, " ") == Join(ws[..|ws| - 1], " ") + [' '] + last;
        assert ws == ws[..|ws| - 1] + [last];
      }
    }
  }

  /** A join of words begins and ends with a non-space, unless it is empty. */
  lemma {:induction false} JoinEnds(ws: seq<string>)
    requires forall k :: 0 <= k < |ws| ==> IsWord(ws[k])
    ensures |ws| > 0 ==> Join(ws, " ") != ""
    ensures |ws| > 0 ==> !IsWhitespace(Join(ws, " ")[0]) && !AtBreak(Join(ws, " "))
    decreases |ws|
  {
    if |ws| > 1 {
      JoinEnds(ws[..|ws| - 1]);
      assert IsWord(ws[|ws| - 1]);
    }
  }

  /** Trimming leaves the words alone. */
  lemma {:induction false} WordsTrimEnd(s: string)
    ensures Words(TrimEnd(s)) == Words(s)
    decreases |s|
  {
    if s != "" && IsWhitespace(s[|s| - 1]) {
      var t := s[..|s| - 1];
      WordsSnoc(t, s[|s| - 1]);
      assert s == t + [s[|s| - 1]];
      WordsTrimEnd(t);
    }
  }

  lemma {:induction false} WordsTrimStart(s: string)
    ensures Words(TrimStart(s)) == Words(s)
    decreases |s|
  {
    if s != "" && IsWhitespace(s[0]) {
      WordsTrimStart(s[1..]);
    }
  }

  lemma WordsTrim(s: string)
    ensures Words(Trim(s)) == Words(s)
  {
    WordsTrimEnd(s);
    WordsTrimStart(TrimEnd(s));
  }
}
