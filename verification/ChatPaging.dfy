/** Listing conversations: a page of matching rows is read, collapsed, and sorted by update time. */
module ChatPaging {
  import opened ChatDedup
  import opened Options

  datatype ListOptions = ListOptions(hiddenOnly: bool, includeHidden: Option<bool>, kind: Option<string>)

  predicate Matches(m: Meta, o: ListOptions) {
    && !(o.hiddenOnly && !m.hidden)
    && !(!o.hiddenOnly && o.includeHidden == Some(false) && m.hidden)
    && !(o.kind.Some? && o.kind.value != "" && o.kind.value != "all" && m.kind != o.kind.value)
  }

  /** An entry that cannot be read or parsed is `None`. */
  function Matching(entries: seq<Option<Candidate>>, o: ListOptions): seq<Candidate> {
    if |entries| == 0 then []
    else
      var n := |entries| - 1;
      Matching(entries[..n], o) +
      if entries[n].Some? && Matches(entries[n].value.meta, o) then [entries[n].value] else []
  }

  function Page<T>(rows: seq<T>, limit: Option<nat>, offset: nat): seq<T> {
    var from := if offset < |rows| then offset else |rows|;
    var rest := rows[from..];
    if limit.None? || |rest| <= limit.value then rest else rest[..limit.value]
  }

  lemma {:induction false} MatchingConcat(a: seq<Option<Candidate>>, b: seq<Option<Candidate>>, o: ListOptions)
    ensures Matching(a + b, o) == Matching(a, o) + Matching(b, o)
    decreases |b|
  {
    if |b| == 0 {
      assert a + b == a;
    } else {
      MatchingConcat(a, b[..|b| - 1], o);
      assert (a + b)[..|a + b| - 1] == a + b[..|b| - 1];
    }
  }

  /** A listing of hidden rows has no others; one that excludes them has none; a kind other than "all" is the only one. */
  lemma {:induction false} ListedIff(entries: seq<Option<Candidate>>, o: ListOptions, c: Candidate)
    ensures c in Matching(entries, o) <==>
            && Some(c) in entries
            && (o.hiddenOnly ==> c.meta.hidden)
            && (!o.hiddenOnly && o.includeHidden == Some(false) ==> !c.meta.hidden)
            && (o.kind == None || o.kind == Some("") || o.kind == Some("all") || o.kind == Some(c.meta.kind))
  {
    if |entries| > 0 {
      ListedIff(entries[..|entries| - 1], o, c);
      assert entries == entries[..|entries| - 1] + [entries[|entries| - 1]];
    }
  }

  /** Row `k` of a page is row `offset + k` of the list, as far as the list and the limit go. */
  lemma PageRows<T>(rows: seq<T>, limit: Option<nat>, offset: nat)
    ensures var page := Page(rows, limit, offset);
            && (forall k :: 0 <= k < |page| ==> offset + k < |rows| && page[k] == rows[offset + k])
            && (limit.Some? ==> |page| <= limit.value)
            && (offset + |page| >= |rows| || limit == Some(|page|))
  {
  }

  lemma {:induction false} MatchingPrefix(entries: seq<Option<Candidate>>, o: ListOptions, i: nat)
    requires i <= |entries|
    ensures Matching(entries[..i], o) <= Matching(entries, o)
  {
    if i < |entries| {
      MatchingPrefix(entries[..|entries| - 1], o, i);
      assert entries[..|entries| - 1][..i] == entries[..i];
    } else {
      assert entries[..i] == entries;
    }
  }

  /** Once a page is full, the rows still unread cannot change it. */
  lemma FullPage<T>(read: seq<T>, all: seq<T>, limit: nat, offset: nat)
    requires read <= all && |Page(read, None, offset)| == limit > 0
    ensures Page(all, Some(limit), offset) == Page(read, None, offset)
  {
    assert read == all[..|read|];
  }

  lemma MatchingNext(entries: seq<Option<Candidate>>, o: ListOptions, i: nat)
    requires i < |entries|
    ensures Matching(entries[..i + 1], o) == Matching(entries[..i], o)
            + if entries[i].Some? && Matches(entries[i].value.meta, o) then [entries[i].value] else []
  {
    assert entries[..i + 1][..i] == entries[..i];
  }

  /** One more row: still skipped, or appended to the page. */
  lemma PageNext<T>(rows: seq<T>, x: T, offset: nat)
    ensures Page(rows + [x], None, offset) == if |rows| < offset then [] else Page(rows, None, offset) + [x]
    ensures |rows| <= offset ==> Page(rows, None, offset) == []
  {
  }

  method CollectPage(entries: seq<Option<Candidate>>, o: ListOptions, limit: Option<nat>, offset: nat)
    returns (rows: seq<Candidate>)
    ensures rows == Page(Matching(entries, o), limit, offset)
  {
    rows := [];
    if limit == Some(0) {
      return;
    }
    var skipped := 0;
    ghost var seen: seq<Candidate> := [];
    for i := 0 to |entries|
      invariant seen == Matching(entries[..i], o)
      invariant rows == Page(seen, None, offset)
      invariant skipped == if |seen| < offset then |seen| else offset
      invariant limit.Some? ==> |rows| < limit.value
    {
      MatchingNext(entries, o, i);
      if entries[i].None? || !Matches(entries[i].value.meta, o) {
        continue;
      }
      PageNext(seen, entries[i].value, offset);
      seen := seen + [entries[i].value];
      if skipped < offset {
        skipped := skipped + 1;
        continue;
      }
      rows := rows + [entries[i].value];
      if limit.Some? && |rows| >= limit.value {
        MatchingPrefix(entries, o, i + 1);
        FullPage(seen, Matching(entries, o), limit.value, offset);
        return;
      }
    }
    assert entries[..|entries|] == entries;
  }

  /** The first `n` pages of `size` rows, one after the other. */
  function Pages<T>(rows: seq<T>, size: nat, n: nat): seq<T> {
    if n == 0 then [] else Pages(rows, size, n - 1) + Page(rows, Some(size), (n - 1) * size)
  }

  /** Consecutive pages neither skip nor repeat a row. */
  lemma {:induction false} PagesTile<T>(rows: seq<T>, size: nat, n: nat)
    ensures Pages(rows, size, n) == rows[..if n * size < |rows| then n * size else |rows|]
  {
    if n > 0 {
      PagesTile(rows, size, n - 1);
      assert n * size == (n - 1) * size + size;
    }
  }

  // ----- The final sort ---------------------------------------------------------------------

  /** The rows updated at `t`, in order. */
  function UpdatedAt(ms: seq<Meta>, t: int): seq<Meta> {
    if |ms| == 0 then []
    else
      var n := |ms| - 1;
      UpdatedAt(ms[..n], t) + if ms[n].updatedAt == t then [ms[n]] else []
  }

  ghost predicate NewestFirst(ms: seq<Meta>) {
    forall i, j :: 0 <= i < j < |ms| ==> ms[i].updatedAt >= ms[j].updatedAt
  }

  ghost predicate SameOrder(r: seq<Meta>, s: seq<Meta>) {
    forall t :: UpdatedAt(r, t) == UpdatedAt(s, t)
  }

  /** Sorted, and rows updated at the same time keep their order. */
  ghost predicate IsStableSort(sorted: seq<Meta>, ms: seq<Meta>) {
    NewestFirst(sorted) && SameOrder(sorted, ms)
  }

  function Insert(ms: seq<Meta>, m: Meta): seq<Meta> {
    var n := |ms| - 1;
    if |ms| == 0 || ms[n].updatedAt >= m.updatedAt then ms + [m] else Insert(ms[..n], m) + [ms[n]]
  }

  function SortByUpdate(ms: seq<Meta>): seq<Meta> {
    if |ms| == 0 then [] else Insert(SortByUpdate(ms[..|ms| - 1]), ms[|ms| - 1])
  }

  lemma UpdatedAtNext(ms: seq<Meta>, m: Meta, t: int)
    ensures UpdatedAt(ms + [m], t) == UpdatedAt(ms, t) + if m.updatedAt == t then [m] else []
  {
    assert (ms + [m])[..|ms|] == ms;
  }

  lemma {:induction false} InsertIsStable(ms: seq<Meta>, m: Meta, t: int)
    ensures UpdatedAt(Insert(ms, m), t) == UpdatedAt(ms, t) + if m.updatedAt == t then [m] else []
  {
    var n := |ms| - 1;
    if |ms| == 0 || ms[n].updatedAt >= m.updatedAt {
      UpdatedAtNext(ms, m, t);
    } else {
      InsertIsStable(ms[..n], m, t);
      UpdatedAtNext(Insert(ms[..n], m), ms[n], t);
    }
  }

  lemma {:induction false} InsertContents(ms: seq<Meta>, m: Meta)
    ensures multiset(Insert(ms, m)) == multiset(ms) + multiset{m}
  {
    var n := |ms| - 1;
    if |ms| > 0 && ms[n].updatedAt < m.updatedAt {
      InsertContents(ms[..n], m);
      assert ms == ms[..n] + [ms[n]];
    }
  }

  ghost predicate NoneOlder(ms: seq<Meta>, t: int) {
    forall i :: 0 <= i < |ms| ==> ms[i].updatedAt >= t
  }

  lemma {:induction false} InsertSorts(ms: seq<Meta>, m: Meta, t: int)
    requires NewestFirst(ms) && NoneOlder(ms, t) && m.updatedAt >= t
    ensures NewestFirst(Insert(ms, m)) && NoneOlder(Insert(ms, m), t)
  {
    var n := |ms| - 1;
    if |ms| > 0 && ms[n].updatedAt < m.updatedAt {
      InsertSorts(ms[..n], m, ms[n].updatedAt);
    }
  }

  lemma {:induction false} SortSorts(ms: seq<Meta>, t: int)
    requires NoneOlder(ms, t)
    ensures NewestFirst(SortByUpdate(ms)) && NoneOlder(SortByUpdate(ms), t)
  {
    if |ms| > 0 {
      SortSorts(ms[..|ms| - 1], t);
      InsertSorts(SortByUpdate(ms[..|ms| - 1]), ms[|ms| - 1], t);
    }
  }

  lemma {:induction false} SortKeepsOrder(ms: seq<Meta>, t: int)
    ensures UpdatedAt(SortByUpdate(ms), t) == UpdatedAt(ms, t)
  {
    if |ms| > 0 {
      SortKeepsOrder(ms[..|ms| - 1], t);
      InsertIsStable(SortByUpdate(ms[..|ms| - 1]), ms[|ms| - 1], t);
    }
  }

  lemma {:induction false} SortContents(ms: seq<Meta>)
    ensures multiset(SortByUpdate(ms)) == multiset(ms)
  {
    if |ms| > 0 {
      var n := |ms| - 1;
      SortContents(ms[..n]);
      InsertContents(SortByUpdate(ms[..n]), ms[n]);
      assert ms == ms[..n] + [ms[n]];
    }
  }

  lemma {:induction false} Oldest(ms: seq<Meta>) returns (t: int)
    ensures NoneOlder(ms, t)
  {
    t := 0;
    if |ms| > 0 {
      var rest := Oldest(ms[..|ms| - 1]);
      t := if rest <= ms[|ms| - 1].updatedAt then rest else ms[|ms| - 1].updatedAt;
    }
  }

  lemma SortIsStable(ms: seq<Meta>)
    ensures IsStableSort(SortByUpdate(ms), ms)
  {
    var oldest := Oldest(ms);
    SortSorts(ms, oldest);
    forall t ensures UpdatedAt(SortByUpdate(ms), t) == UpdatedAt(ms, t) {
      SortKeepsOrder(ms, t);
    }
  }

  lemma {:induction false} NoneUpdatedAt(ms: seq<Meta>, t: int)
    requires forall i :: 0 <= i < |ms| ==> ms[i].updatedAt != t
    ensures UpdatedAt(ms, t) == []
  {
    if |ms| > 0 {
      NoneUpdatedAt(ms[..|ms| - 1], t);
    }
  }

  lemma LastIsFound(ms: seq<Meta>)
    requires |ms| > 0
    ensures |UpdatedAt(ms, ms[|ms| - 1].updatedAt)| > 0
  {
  }

  lemma FoundIsNoNewer(ms: seq<Meta>, t: int)
    requires NewestFirst(ms) && |UpdatedAt(ms, t)| > 0
    ensures |ms| > 0 && ms[|ms| - 1].updatedAt <= t
  {
    if forall i :: 0 <= i < |ms| ==> ms[i].updatedAt > t {
      NoneUpdatedAt(ms, t);
    }
  }

  /** Of two sorts of one list, neither ends with a newer row than the other. */
  lemma LastIsNoNewer(r: seq<Meta>, s: seq<Meta>)
    requires NewestFirst(r) && |s| > 0 && |UpdatedAt(r, s[|s| - 1].updatedAt)| == |UpdatedAt(s, s[|s| - 1].updatedAt)|
    ensures |r| > 0 && r[|r| - 1].updatedAt <= s[|s| - 1].updatedAt
  {
    LastIsFound(s);
    FoundIsNoNewer(r, s[|s| - 1].updatedAt);
  }

  lemma CancelLast(a: seq<Meta>, b: seq<Meta>, x: Meta, y: Meta)
    requires a + [x] == b + [y]
    ensures a == b && x == y
  {
    assert (a + [x])[..|a|] == a && (b + [y])[..|b|] == b;
    assert (a + [x])[|a|] == x && (b + [y])[|b|] == y;
  }

  lemma UpdatedAtFront(r: seq<Meta>, s: seq<Meta>, t: int)
    requires |r| > 0 && |s| > 0 && UpdatedAt(r, t) == UpdatedAt(s, t)
    requires r[|r| - 1].updatedAt == s[|s| - 1].updatedAt
    ensures UpdatedAt(r[..|r| - 1], t) == UpdatedAt(s[..|s| - 1], t)
  {
    if r[|r| - 1].updatedAt == t {
      CancelLast(UpdatedAt(r[..|r| - 1], t), UpdatedAt(s[..|s| - 1], t), r[|r| - 1], s[|s| - 1]);
    }
  }

  lemma LastRowsAgree(r: seq<Meta>, s: seq<Meta>)
    requires NewestFirst(r) && NewestFirst(s) && SameOrder(r, s) && |r| > 0 && |s| > 0
    ensures r[|r| - 1] == s[|s| - 1]
  {
    LastIsNoNewer(r, s);
    LastIsNoNewer(s, r);
    var n, k, t := |r| - 1, |s| - 1, r[|r| - 1].updatedAt;
    CancelLast(UpdatedAt(r[..n], t), UpdatedAt(s[..k], t), r[n], s[k]);
  }

  lemma {:induction false} SortsAgree(r: seq<Meta>, s: seq<Meta>)
    requires NewestFirst(r) && NewestFirst(s) && SameOrder(r, s)
    ensures r == s
  {
    if |r| > 0 && |s| > 0 {
      var n, k := |r| - 1, |s| - 1;
      LastRowsAgree(r, s);
      forall t ensures UpdatedAt(r[..n], t) == UpdatedAt(s[..k], t) {
        UpdatedAtFront(r, s, t);
      }
      SortsAgree(r[..n], s[..k]);
      assert r == r[..n] + [r[n]] && s == s[..k] + [s[k]];
    } else if |r| > 0 {
      LastIsNoNewer(s, r);
    } else if |s| > 0 {
      LastIsNoNewer(r, s);
    }
  }

  /** There is only one stable sort. */
  lemma StableSortIsUnique(r: seq<Meta>, s: seq<Meta>, ms: seq<Meta>)
    requires IsStableSort(r, ms) && IsStableSort(s, ms)
    ensures r == s
  {
    forall t ensures UpdatedAt(r, t) == UpdatedAt(s, t) {
      assert UpdatedAt(r, t) == UpdatedAt(ms, t) == UpdatedAt(s, t);
    }
    SortsAgree(r, s);
  }

  /** The listing itself. */
  method ListConversations(entries: seq<Option<Candidate>>, o: ListOptions, limit: Option<nat>, offset: nat)
    returns (metas: seq<Meta>)
    ensures IsStableSort(metas, Metas(Deduped(Page(Matching(entries, o), limit, offset))))
    ensures multiset(metas) == multiset(Metas(Deduped(Page(Matching(entries, o), limit, offset))))
  {
    var rows := CollectPage(entries, o, limit, offset);
    metas := DedupeConversationMetas(rows);
    SortIsStable(metas);
    SortContents(metas);
    metas := SortByUpdate(metas);
  }
}
