/**
  Privacy filter: does a blocked pattern match a host? The program compares
  strings; the meaning is about domain labels, as in section 3.1 of RFC 1034.
  Hosts and patterns are already lowercased.
 */
module HostMatch {
  import opened Text
  import opened Options

  /** Split at every dot; there is always at least one label. */
  function Labels(s: string): (ls: seq<string>)
    ensures |ls| > 0
  {
    if s == "" then [""]
    else
      var rest := Labels(s[1..]);
      if s[0] == '.' then [""] + rest else [[s[0]] + rest[0]] + rest[1..]
  }

  /** The program's test: equal, a subdomain, or, for a pattern without a dot, one of the labels. */
  predicate HostMatchesPattern(host: string, blocked: string) {
    || host == blocked
    || EndsWith(host, "." + blocked)
    || ('.' !in blocked && blocked in Labels(host))
  }

  /** The meaning: a single label occurs among the host's labels; several labels end the host's labels. */
  predicate LabelsMatch(host: seq<string>, pattern: seq<string>) {
    if |pattern| == 1 then pattern[0] in host
    else |pattern| <= |host| && host[|host| - |pattern|..] == pattern
  }

  // ----- Labels and dots ---------------------------------------------------------------------

  lemma {:induction false} LabelsOfConcat(a: string, b: string)
    ensures Labels(a + "." + b) == Labels(a) + Labels(b)
  {
    var s := a + "." + b;
    if a == "" {
      assert s[0] == '.' && s[1..] == b;
    } else {
      assert s[0] == a[0] && s[1..] == a[1..] + "." + b;
      LabelsOfConcat(a[1..], b);
    }
  }

  lemma {:induction false} LabelsWithoutDot(s: string)
    ensures |Labels(s)| == 1 <==> '.' !in s
    ensures '.' !in s ==> Labels(s) == [s]
  {
    if s != "" {
      LabelsWithoutDot(s[1..]);
      assert s == [s[0]] + s[1..];
      if s[0] != '.' && '.' !in s[1..] {
        assert [[s[0]] + s[1..]] + [] == [s];
      }
    }
  }

  /** Labels joined by dots, from the front. */
  function Dotted(ls: seq<string>): string
    requires |ls| > 0
  {
    if |ls| == 1 then ls[0] else ls[0] + "." + Dotted(ls[1..])
  }

  lemma {:induction false} DottedLabels(s: string)
    ensures Dotted(Labels(s)) == s
  {
    if s != "" {
      var rest := Labels(s[1..]);
      DottedLabels(s[1..]);
      if s[0] == '.' {
        assert ([""] + rest)[1..] == rest;
        assert "" + "." + Dotted(rest) == s;
      } else {
        var ls := [[s[0]] + rest[0]] + rest[1..];
        assert ls[1..] == rest[1..];
        assert Dotted(ls) == [s[0]] + Dotted(rest);
      }
    }
  }

  lemma {:induction false} DottedConcat(a: seq<string>, b: seq<string>)
    requires |a| > 0 && |b| > 0
    ensures Dotted(a + b) == Dotted(a) + "." + Dotted(b)
  {
    if |a| == 1 {
      assert (a + b)[1..] == b;
    } else {
      DottedConcat(a[1..], b);
      assert (a + b)[1..] == a[1..] + b;
      assert a[0] + "." + (Dotted(a[1..]) + "." + Dotted(b)) == a[0] + "." + Dotted(a[1..]) + "." + Dotted(b);
    }
  }

  /** A host that ends in a dot and the pattern has the pattern's labels as a proper suffix. */
  lemma SubdomainHasSuffix(host: string, pattern: string)
    requires EndsWith(host, "." + pattern)
    ensures var h, p := Labels(host), Labels(pattern); |p| < |h| && h[|h| - |p|..] == p
  {
    var sub := host[..|host| - |pattern| - 1];
    assert host == sub + ("." + pattern) == sub + "." + pattern;
    LabelsOfConcat(sub, pattern);
  }

  lemma SuffixIsSubdomain(host: string, pattern: string)
    requires var h, p := Labels(host), Labels(pattern); |p| < |h| && h[|h| - |p|..] == p
    ensures EndsWith(host, "." + pattern)
  {
    var h, p := Labels(host), Labels(pattern);
    var q := h[..|h| - |p|];
    DottedLabels(host);
    DottedLabels(pattern);
    DottedConcat(q, p);
    assert h == q + p;
    EndsWithTail(Dotted(q), pattern, host);
  }

  lemma EndsWithTail(a: string, b: string, s: string)
    requires s == a + "." + b
    ensures EndsWith(s, "." + b)
  {
    assert s == a + ("." + b);
  }

  // ----- The matcher ---------------------------------------------------------------------------

  /** For all strings, the string test is the label test. */
  lemma MatchIsByLabels(host: string, pattern: string)
    ensures HostMatchesPattern(host, pattern) <==> LabelsMatch(Labels(host), Labels(pattern))
  {
    var h, p := Labels(host), Labels(pattern);
    if EndsWith(host, "." + pattern) {
      SubdomainHasSuffix(host, pattern);
    }
    if |p| < |h| && h[|h| - |p|..] == p {
      SuffixIsSubdomain(host, pattern);
    }
    LabelsWithoutDot(pattern);
    DottedLabels(host);
    DottedLabels(pattern);
    if |p| == 1 {
      if |p| < |h| && h[|h| - 1..] == p {
        assert h[|h| - 1] == p[0];
      }
    } else if |p| == |h| {
      assert h[0..] == h;
    }
  }

  /** Every subdomain of a matched host is matched. */
  lemma SubdomainsAreMatched(sub: string, host: string, pattern: string)
    requires HostMatchesPattern(host, pattern)
    ensures HostMatchesPattern(sub + "." + host, pattern)
  {
    var s, h, p := Labels(sub), Labels(host), Labels(pattern);
    MatchIsByLabels(host, pattern);
    MatchIsByLabels(sub + "." + host, pattern);
    LabelsOfConcat(sub, host);
    if |p| > 1 {
      assert (s + h)[|s + h| - |p|..] == h[|h| - |p|..];
    }
  }

  // ----- The list of patterns ---------------------------------------------------------------------

  predicate Contains(s: string, t: string) {
    exists i :: 0 <= i <= |s| && t <= s[i..]
  }

  /** `host` is absent when the URL does not parse; the test is then on the raw text. */
  predicate IsUrlBlocked(url: string, host: Option<string>, patterns: seq<string>) {
    exists k :: 0 <= k < |patterns| &&
      if host.Some? then HostMatchesPattern(host.value, patterns[k]) else Contains(url, patterns[k])
  }

  /** A parsed URL is blocked exactly when some pattern's labels match its host's, and then so are all subdomains. */
  lemma BlockingIsByLabels(url: string, host: string, patterns: seq<string>, other: string, sub: string)
    ensures IsUrlBlocked(url, Some(host), patterns) <==>
            exists k :: 0 <= k < |patterns| && LabelsMatch(Labels(host), Labels(patterns[k]))
    ensures IsUrlBlocked(url, Some(host), patterns) ==> IsUrlBlocked(other, Some(sub + "." + host), patterns)
  {
    forall k | 0 <= k < |patterns|
      ensures HostMatchesPattern(host, patterns[k]) <==> LabelsMatch(Labels(host), Labels(patterns[k]))
    {
      MatchIsByLabels(host, patterns[k]);
    }
    if IsUrlBlocked(url, Some(host), patterns) {
      var k :| 0 <= k < |patterns| && HostMatchesPattern(host, patterns[k]);
      SubdomainsAreMatched(sub, host, patterns[k]);
    }
  }

  /** Without a host the raw text is searched: it is blocked exactly when some pattern occurs in it, anywhere. */
  lemma BlockingWithoutHost(url: string, patterns: seq<string>)
    ensures IsUrlBlocked(url, None, patterns) <==>
            exists k, before, after :: 0 <= k < |patterns| && url == before + patterns[k] + after
  {
    if IsUrlBlocked(url, None, patterns) {
      var k :| 0 <= k < |patterns| && Contains(url, patterns[k]);
      var i :| 0 <= i <= |url| && patterns[k] <= url[i..];
      assert url == url[..i] + patterns[k] + url[i + |patterns[k]|..];
    }
    if k, before, after :| 0 <= k < |patterns| && url == before + patterns[k] + after {
      assert url[|before|..] == patterns[k] + after;
      assert Contains(url, patterns[k]);
    }
  }
}
