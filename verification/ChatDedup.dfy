/** Collapsing conversations that were saved twice. Times are integer milliseconds. */
module ChatDedup {
  import opened Options

  datatype Meta = Meta(id: string, createdAt: int, updatedAt: int, messageCount: nat, hidden: bool, kind: string)

  /** `key` is the normalized first user message; without one the row is exempt. */
  datatype Candidate = Candidate(meta: Meta, key: Option<string>, hasCompletedReply: bool) {
    predicate Keyless() {
      key.None? || key.value == ""
    }
  }

  const WINDOW_MS: int := 30 * 60 * 1000

  predicate IsBetter(a: Candidate, b: Candidate) {
    if a.hasCompletedReply != b.hasCompletedReply then a.hasCompletedReply
    else if a.meta.messageCount != b.meta.messageCount then a.meta.messageCount > b.meta.messageCount
    else a.meta.updatedAt > b.meta.updatedAt
  }

  /** Both creation times are real and close together. */
  predicate InWindow(a: Candidate, b: Candidate) {
    var s, t := a.meta.createdAt, b.meta.createdAt;
    s != 0 && t != 0 && -WINDOW_MS <= s - t <= WINDOW_MS
  }

  /** The two rows would be taken for one conversation. */
  predicate SameChat(a: Candidate, b: Candidate) {
    !a.Keyless() && a.key == b.key && InWindow(a, b)
  }

  // ----- The plain scan ------------------------------------------------------------------

  /** A visible row: its representative, where that row stood in the input, and where the slot's first row stood. */
  datatype Slot = Slot(rep: Candidate, position: nat, founder: nat)

  /** The slots, and for each row read so far the slot it went to. */
  datatype Board = Board(slots: seq<Slot>, home: seq<nat>)

  /** The first slot at or after `from` whose representative is the same chat as `c`; -1 if none. */
  function FirstMatch(slots: seq<Slot>, c: Candidate, from: nat): (r: int)
    requires from <= |slots|
    ensures r == -1 || (from <= r < |slots| && SameChat(c, slots[r].rep))
    ensures forall i :: from <= i < |slots| && (r == -1 || i < r) ==> !SameChat(c, slots[i].rep)
    decreases |slots| - from
  {
    if from == |slots| then -1
    else if SameChat(c, slots[from].rep) then from
    else FirstMatch(slots, c, from + 1)
  }

  function Add(b: Board, c: Candidate): Board {
    var i, p := FirstMatch(b.slots, c, 0), |b.home|;
    if i == -1 then Board(b.slots + [Slot(c, p, p)], b.home + [|b.slots|])
    else Board(b.slots[i := Absorb(b.slots[i], c, p)], b.home + [i])
  }

  function Absorb(s: Slot, c: Candidate, p: nat): Slot {
    if IsBetter(c, s.rep) then Slot(c, p, s.founder) else s
  }

  /** The board after the first `n` rows. */
  function Scan(cs: seq<Candidate>, n: nat): Board
    requires n <= |cs|
  {
    if n == 0 then Board([], []) else Add(Scan(cs, n - 1), cs[n - 1])
  }

  function Reps(slots: seq<Slot>): seq<Candidate> {
    seq(|slots|, i requires 0 <= i < |slots| => slots[i].rep)
  }

  function Metas(kept: seq<Candidate>): seq<Meta> {
    seq(|kept|, i requires 0 <= i < |kept| => kept[i].meta)
  }

  function Deduped(cs: seq<Candidate>): seq<Candidate> {
    Reps(Scan(cs, |cs|).slots)
  }

  // ----- The indexed program ---------------------------------------------------------------

  /** The positions in `kept` of the rows with key `k`, ascending. */
  ghost function Bucket(kept: seq<Candidate>, k: string): seq<nat> {
    if |kept| == 0 then []
    else
      var n := |kept| - 1;
      Bucket(kept[..n], k) + if kept[n].key == Some(k) then [n] else []
  }

  /** `bucket` holds the positions of the rows with key `k`, all of them and in order. */
  ghost predicate IsExact(kept: seq<Candidate>, k: string, bucket: seq<nat>) {
    && (forall b :: 0 <= b < |bucket| ==> bucket[b] < |kept| && kept[bucket[b]].key == Some(k))
    && (forall b, d :: 0 <= b < d < |bucket| ==> bucket[b] < bucket[d])
    && (forall i :: 0 <= i < |kept| && kept[i].key == Some(k) ==> i in bucket)
  }

  lemma ExactNext(kept: seq<Candidate>, k: string, bucket: seq<nat>)
    requires |kept| > 0 && IsExact(kept[..|kept| - 1], k, bucket)
    ensures IsExact(kept, k, bucket + if kept[|kept| - 1].key == Some(k) then [|kept| - 1] else [])
  {
    var n := |kept| - 1;
    var next := bucket + if kept[n].key == Some(k) then [n] else [];
    forall b | 0 <= b < |next| ensures next[b] < |kept| && kept[next[b]].key == Some(k) {
      assert b < |bucket| ==> kept[..n][bucket[b]].key == Some(k);
    }
    forall i | 0 <= i < |kept| && kept[i].key == Some(k) ensures i in next {
      if i < n {
        assert kept[..n][i].key == Some(k);
        assert i in bucket;
      } else {
        assert next[|bucket|] == n;
      }
    }
  }

  lemma {:induction false} BucketIsExact(kept: seq<Candidate>, k: string)
    ensures IsExact(kept, k, Bucket(kept, k))
  {
    if |kept| > 0 {
      BucketIsExact(kept[..|kept| - 1], k);
      ExactNext(kept, k, Bucket(kept[..|kept| - 1], k));
    }
  }

  lemma {:induction false} BucketAfterReplace(kept: seq<Candidate>, k: string, i: nat, c: Candidate)
    requires i < |kept| && kept[i].key == c.key
    ensures Bucket(kept[i := c], k) == Bucket(kept, k)
  {
    var n := |kept| - 1;
    if i < n {
      BucketAfterReplace(kept[..n], k, i, c);
      assert kept[i := c][..n] == kept[..n][i := c];
    } else {
      assert kept[i := c][..n] == kept[..n];
    }
  }

  lemma BucketAfterPush(kept: seq<Candidate>, k: string, c: Candidate)
    ensures Bucket(kept + [c], k) == if c.key == Some(k) then Bucket(kept, k) + [|kept|] else Bucket(kept, k)
  {
    assert (kept + [c])[..|kept|] == kept;
  }

  ghost predicate IsIndex(kept: seq<Candidate>, index: map<string, seq<nat>>) {
    forall k :: k != "" ==> Bucket(kept, k) == if k in index then index[k] else []
  }

  method FindInBucket(kept: seq<Candidate>, c: Candidate, bucket: seq<nat>, ghost slots: seq<Slot>)
    returns (mergeIndex: int)
    requires kept == Reps(slots) && !c.Keyless() && bucket == Bucket(kept, c.key.value)
    ensures mergeIndex == FirstMatch(slots, c, 0)
  {
    BucketIsExact(kept, c.key.value);
    assert forall i :: 0 <= i < |slots| && slots[i].rep.key == c.key ==> kept[i].key == c.key;
    for b := 0 to |bucket|
      invariant forall d :: 0 <= d < b ==> !InWindow(c, kept[bucket[d]])
    {
      if InWindow(c, kept[bucket[b]]) {
        assert SameChat(c, slots[bucket[b]].rep);
        return bucket[b];
      }
    }
    return -1;
  }

  lemma IndexAfterPush(kept: seq<Candidate>, index: map<string, seq<nat>>, c: Candidate)
    requires IsIndex(kept, index)
    ensures c.Keyless() ==> IsIndex(kept + [c], index)
    ensures !c.Keyless() ==>
      var k := c.key.value; IsIndex(kept + [c], index[k := (if k in index then index[k] else []) + [|kept|]])
  {
    forall k ensures Bucket(kept + [c], k) == if c.key == Some(k) then Bucket(kept, k) + [|kept|] else Bucket(kept, k) {
      BucketAfterPush(kept, k, c);
    }
  }

  lemma IndexAfterReplace(kept: seq<Candidate>, index: map<string, seq<nat>>, i: nat, c: Candidate)
    requires IsIndex(kept, index) && i < |kept| && kept[i].key == c.key
    ensures IsIndex(kept[i := c], index)
  {
    forall k ensures Bucket(kept[i := c], k) == Bucket(kept, k) {
      BucketAfterReplace(kept, k, i, c);
    }
  }

  /** The index leads to the slot the plain scan would find. */
  method FindSlot(kept: seq<Candidate>, index: map<string, seq<nat>>, c: Candidate, ghost slots: seq<Slot>)
    returns (mergeIndex: int)
    requires kept == Reps(slots) && !c.Keyless() && IsIndex(kept, index)
    ensures mergeIndex == FirstMatch(slots, c, 0)
  {
    var k := c.key.value;
    if k in index {
      mergeIndex := FindInBucket(kept, c, index[k], slots);
    } else {
      NoBucketNoMatch(slots, c);
      mergeIndex := -1;
    }
  }

  /** What adding a row does to the representatives. */
  lemma AddReps(b: Board, c: Candidate)
    ensures var i := FirstMatch(b.slots, c, 0);
            Reps(Add(b, c).slots) ==
              if i == -1 then Reps(b.slots) + [c]
              else if IsBetter(c, Reps(b.slots)[i]) then Reps(b.slots)[i := c]
              else Reps(b.slots)
    ensures |Add(b, c).slots| == |b.slots| + if FirstMatch(b.slots, c, 0) == -1 then 1 else 0
    ensures c.Keyless() ==> FirstMatch(b.slots, c, 0) == -1
    ensures forall i :: 0 <= i < |b.slots| && i == FirstMatch(b.slots, c, 0) ==> Reps(b.slots)[i].key == c.key
  {
  }

  /** One turn of the loop. */
  method Place(kept: seq<Candidate>, index: map<string, seq<nat>>, c: Candidate, ghost b: Board)
    returns (kept': seq<Candidate>, index': map<string, seq<nat>>)
    requires kept == Reps(b.slots) && IsIndex(kept, index)
    ensures kept' == Reps(Add(b, c).slots) && IsIndex(kept', index')
  {
    IndexAfterPush(kept, index, c);
    AddReps(b, c);
    kept', index' := kept, index;
    if c.Keyless() {
      kept' := kept + [c];
      return;
    }
    var k := c.key.value;
    var mergeIndex := FindSlot(kept, index, c, b.slots);
    if mergeIndex >= 0 {
      if IsBetter(c, kept[mergeIndex]) {
        IndexAfterReplace(kept, index, mergeIndex, c);
        kept' := kept[mergeIndex := c];
      }
      return;
    }
    kept' := kept + [c];
    index' := index[k := (if k in index then index[k] else []) + [|kept'| - 1]];
  }

  method DedupeConversationMetas(cs: seq<Candidate>) returns (metas: seq<Meta>)
    ensures metas == Metas(Deduped(cs))
  {
    var kept: seq<Candidate> := [];
    var index: map<string, seq<nat>> := map[];
    for n := 0 to |cs|
      invariant kept == Reps(Scan(cs, n).slots) && IsIndex(kept, index)
    {
      kept, index := Place(kept, index, cs[n], Scan(cs, n));
    }
    metas := Metas(kept);
  }

  lemma NoBucketNoMatch(slots: seq<Slot>, c: Candidate)
    requires !c.Keyless() && Bucket(Reps(slots), c.key.value) == []
    ensures FirstMatch(slots, c, 0) == -1
  {
    BucketIsExact(Reps(slots), c.key.value);
    forall i | 0 <= i < |slots| ensures slots[i].rep.key != c.key {
      assert Reps(slots)[i] == slots[i].rep;
    }
  }

  // ----- What the scan guarantees -------------------------------------------------------------

  lemma BetterIsStrictOrder(a: Candidate, b: Candidate, c: Candidate)
    ensures !IsBetter(a, a)
    ensures IsBetter(a, b) && IsBetter(b, c) ==> IsBetter(a, c)
    ensures !IsBetter(a, b) && !IsBetter(b, c) ==> !IsBetter(a, c)
  {
  }

  /** A slot shows one of its own rows, and stands where its first row put it. */
  ghost predicate SlotOk(cs: seq<Candidate>, b: Board, i: nat)
    requires i < |b.slots|
  {
    var s := b.slots[i];
    && s.founder <= s.position < |b.home| <= |cs|
    && cs[s.position] == s.rep && b.home[s.position] == i && b.home[s.founder] == i
  }

  /** A row's slot is no younger than the row, has its key, and shows nothing worse than it. */
  ghost predicate RowOk(cs: seq<Candidate>, b: Board, p: nat)
    requires p < |b.home| <= |cs|
  {
    && b.home[p] < |b.slots|
    && var s := b.slots[b.home[p]];
       s.founder <= p && s.rep.key == cs[p].key && !IsBetter(cs[p], s.rep)
  }

  /**
    Every row went to exactly one slot; slots stand in the order of their first
    rows; only dated rows with keys share one.
   */
  ghost predicate IsPartition(cs: seq<Candidate>, b: Board) {
    && |b.home| <= |cs|
    && (forall i :: 0 <= i < |b.slots| ==> SlotOk(cs, b, i))
    && (forall p :: 0 <= p < |b.home| ==> RowOk(cs, b, p))
    && (forall i, j :: 0 <= i < j < |b.slots| ==> b.slots[i].founder < b.slots[j].founder)
    && (forall p, q :: 0 <= p < q < |b.home| && b.home[p] == b.home[q] ==>
          !cs[p].Keyless() && cs[p].meta.createdAt != 0 && cs[q].meta.createdAt != 0)
  }

  lemma AddPartitions(cs: seq<Candidate>, b: Board)
    requires |b.home| < |cs| && IsPartition(cs, b)
    ensures IsPartition(cs, Add(b, cs[|b.home|]))
  {
    var p := |b.home|;
    var c := cs[p];
    var i, b' := FirstMatch(b.slots, c, 0), Add(b, c);
    forall k | 0 <= k < |b'.slots| ensures SlotOk(cs, b', k) {
      if k < |b.slots| {
        assert SlotOk(cs, b, k);
      }
    }
    forall q | 0 <= q < |b'.home| ensures RowOk(cs, b', q) {
      if q < p {
        assert RowOk(cs, b, q);
        BetterIsStrictOrder(cs[q], c, b.slots[b.home[q]].rep);
      } else if i != -1 {
        assert SlotOk(cs, b, i);
        BetterIsStrictOrder(c, c, c);
      }
    }
    if i == -1 {
      forall k | 0 <= k < |b.slots| ensures b.slots[k].founder < p {
        assert SlotOk(cs, b, k);
      }
    }
    forall q | 0 <= q < p && b.home[q] == b'.home[p]
      ensures !cs[q].Keyless() && cs[q].meta.createdAt != 0 && c.meta.createdAt != 0
    {
      assert RowOk(cs, b, q) && SlotOk(cs, b, i);
      assert q == b.slots[i].position || b.home[b.slots[i].position] == b.home[q];
    }
  }

  lemma {:induction false} ScanPartitions(cs: seq<Candidate>, n: nat)
    requires n <= |cs|
    ensures IsPartition(cs, Scan(cs, n)) && |Scan(cs, n).home| == n
  {
    if n > 0 {
      ScanPartitions(cs, n - 1);
      AddPartitions(cs, Scan(cs, n - 1));
    }
  }

  /** The row is never collapsed with another: it has no first message, or no creation time. */
  ghost predicate IsAlone(c: Candidate) {
    c.key == None || c.key == Some("") || c.meta.createdAt == 0
  }

  /** Over the whole input: a partition into slots, and every row without a key or a creation time is kept as it is. */
  lemma DedupPartitions(cs: seq<Candidate>)
    ensures IsPartition(cs, Scan(cs, |cs|)) && |Scan(cs, |cs|).home| == |cs|
    ensures forall p :: 0 <= p < |cs| && IsAlone(cs[p]) ==> Slot(cs[p], p, p) in Scan(cs, |cs|).slots
  {
    var b := Scan(cs, |cs|);
    ScanPartitions(cs, |cs|);
    forall p | 0 <= p < |cs| && IsAlone(cs[p]) ensures Slot(cs[p], p, p) in b.slots {
      assert RowOk(cs, b, p);
      var s := b.slots[b.home[p]];
      assert SlotOk(cs, b, b.home[p]);
      assert RowOk(cs, b, s.founder);
      assert s.founder == p;
      assert s.position == p;
      assert s == Slot(cs[p], p, p);
    }
  }

  /**
    A finished copy never gives way to a half-written one: each row's slot shows
    a finished row if the row is, and otherwise one with at least as many messages
    and, messages being equal, at least as recent an update.
   */
  lemma MostCompleteCopyWins(cs: seq<Candidate>, p: nat)
    requires p < |cs|
    ensures var b := Scan(cs, |cs|);
            && p < |b.home| && b.home[p] < |b.slots|
            && var c, r := cs[p], b.slots[b.home[p]].rep;
               && (c.hasCompletedReply ==> r.hasCompletedReply)
               && (c.hasCompletedReply == r.hasCompletedReply ==> c.meta.messageCount <= r.meta.messageCount)
               && (c.hasCompletedReply == r.hasCompletedReply && c.meta.messageCount == r.meta.messageCount ==>
                     c.meta.updatedAt <= r.meta.updatedAt)
  {
    ScanPartitions(cs, |cs|);
    assert RowOk(cs, Scan(cs, |cs|), p);
  }

  // ----- When nothing is collapsed --------------------------------------------------------------

  ghost predicate NoTwins(cs: seq<Candidate>, n: nat) {
    forall i, j :: 0 <= i < j < n <= |cs| ==> !SameChat(cs[j], cs[i])
  }

  /** A board of untouched rows: the next row is merged exactly when it has a twin among them. */
  lemma AddToUntouched(cs: seq<Candidate>, slots: seq<Slot>, n: nat)
    requires n < |cs| && Reps(slots) == cs[..n]
    ensures FirstMatch(slots, cs[n], 0) == -1 <==> forall i :: 0 <= i < n ==> !SameChat(cs[n], cs[i])
  {
    forall i | 0 <= i < n ensures slots[i].rep == cs[i] {
      assert Reps(slots)[i] == cs[..n][i];
    }
    assert |slots| == |cs[..n]| == n;
  }

  /** The board has one slot per row exactly when no two rows are twins, and then shows the rows themselves. */
  ghost predicate CountsTwins(cs: seq<Candidate>, b: Board, n: nat) {
    && n <= |cs| && |b.slots| <= n
    && (|b.slots| == n <==> NoTwins(cs, n))
    && (|b.slots| == n ==> Reps(b.slots) == cs[..n])
  }

  lemma AddCountsTwins(cs: seq<Candidate>, b: Board, n: nat)
    requires n < |cs| && CountsTwins(cs, b, n)
    ensures CountsTwins(cs, Add(b, cs[n]), n + 1)
  {
    AddReps(b, cs[n]);
    NoTwinsNext(cs, n);
    if |b.slots| == n {
      AddToUntouched(cs, b.slots, n);
      assert cs[..n + 1] == cs[..n] + [cs[n]];
    }
  }

  lemma {:induction false} ScanCountsTwins(cs: seq<Candidate>, n: nat)
    requires n <= |cs|
    ensures CountsTwins(cs, Scan(cs, n), n)
  {
    if n > 0 {
      ScanCountsTwins(cs, n - 1);
      AddCountsTwins(cs, Scan(cs, n - 1), n - 1);
    }
  }

  lemma NoTwinsNext(cs: seq<Candidate>, n: nat)
    requires n < |cs|
    ensures NoTwins(cs, n + 1) <==> NoTwins(cs, n) && forall i :: 0 <= i < n ==> !SameChat(cs[n], cs[i])
  {
  }

  /**
    The same non-empty first message, both creation times known, and at most half
    an hour, in milliseconds, between them.
   */
  ghost predicate AreTwins(a: Candidate, b: Candidate) {
    && a.key.Some? && a.key.value != "" && b.key == a.key && a.meta.createdAt != 0 && b.meta.createdAt != 0
    && a.meta.createdAt - b.meta.createdAt <= 1_800_000 && b.meta.createdAt - a.meta.createdAt <= 1_800_000
  }

  /** A list comes back unchanged exactly when no two of its rows are twins. */
  lemma UnchangedIffNoTwins(cs: seq<Candidate>)
    ensures Deduped(cs) == cs <==> NoTwins(cs, |cs|)
    ensures Deduped(cs) == cs <==> forall i, j :: 0 <= i < j < |cs| ==> !AreTwins(cs[i], cs[j])
    ensures |Deduped(cs)| <= |cs|
  {
    ScanCountsTwins(cs, |cs|);
    assert cs[..|cs|] == cs;
    assert forall i, j :: 0 <= i < j < |cs| ==> (SameChat(cs[j], cs[i]) <==> AreTwins(cs[i], cs[j]));
  }

  /** Two rows come back as one, the better or else the first, exactly when they are twins. */
  lemma PairIsMergedIff(a: Candidate, b: Candidate)
    ensures Deduped([a, b]) == if AreTwins(a, b) then [if IsBetter(b, a) then b else a] else [a, b]
  {
    var cs := [a, b];
    UnchangedIffNoTwins(cs);
    if AreTwins(a, b) {
      var b1 := Board([Slot(a, 0, 0)], [0]);
      assert Scan(cs, 1) == b1 by {
        assert Scan(cs, 0) == Board([], []);
      }
      assert FirstMatch(b1.slots, b, 0) == 0;
      assert Reps(Scan(cs, 2).slots) == [if IsBetter(b, a) then b else a];
    } else {
      assert forall i, j :: 0 <= i < j < |cs| ==> !AreTwins(cs[i], cs[j]);
    }
  }

  // ----- When a second pass changes nothing ---------------------------------------------------------

  ghost predicate Idempotent(cs: seq<Candidate>) {
    Deduped(Deduped(cs)) == Deduped(cs)
  }

  /** No two slots show the same chat. */
  ghost predicate Apart(slots: seq<Slot>) {
    forall i, j :: 0 <= i < j < |slots| ==> !SameChat(slots[j].rep, slots[i].rep)
  }

  lemma IdempotentIffApart(cs: seq<Candidate>)
    ensures Idempotent(cs) <==> Apart(Scan(cs, |cs|).slots)
  {
    var slots := Scan(cs, |cs|).slots;
    UnchangedIffNoTwins(Deduped(cs));
    assert forall i :: 0 <= i < |slots| ==> Deduped(cs)[i] == slots[i].rep;
  }

  /** `c` would replace one representative while it is the same chat as a later one. */
  ghost predicate Bridges(slots: seq<Slot>, c: Candidate) {
    var i := FirstMatch(slots, c, 0);
    i != -1 && IsBetter(c, slots[i].rep) && exists j :: i < j < |slots| && SameChat(c, slots[j].rep)
  }

  lemma AddStaysApartIff(b: Board, c: Candidate)
    requires Apart(b.slots)
    ensures Apart(Add(b, c).slots) <==> !Bridges(b.slots, c)
  {
    var i, next := FirstMatch(b.slots, c, 0), Add(b, c).slots;
    if Bridges(b.slots, c) {
      var j :| i < j < |b.slots| && SameChat(c, b.slots[j].rep);
      assert next[i].rep == c && next[j] == b.slots[j];
      assert SameChat(next[j].rep, next[i].rep);
    }
  }

  ghost predicate ApartAt(cs: seq<Candidate>, n: nat)
    requires n <= |cs|
  {
    Apart(Scan(cs, n).slots)
  }

  /** Row `n` bridges two of the rows shown before it. */
  ghost predicate BridgesAt(cs: seq<Candidate>, n: nat)
    requires n < |cs|
  {
    Bridges(Scan(cs, n).slots, cs[n])
  }

  lemma NextStaysApartIff(cs: seq<Candidate>, n: nat)
    requires n < |cs| && ApartAt(cs, n)
    ensures ApartAt(cs, n + 1) <==> !BridgesAt(cs, n)
  {
    AddStaysApartIff(Scan(cs, n), cs[n]);
  }

  lemma {:induction false} NoBridgesStaysApart(cs: seq<Candidate>, n: nat)
    requires n <= |cs| && forall m :: 0 <= m < n ==> !BridgesAt(cs, m)
    ensures ApartAt(cs, n)
  {
    if n > 0 {
      NoBridgesStaysApart(cs, n - 1);
      NextStaysApartIff(cs, n - 1);
    }
  }

  lemma {:induction false} ScanOfPrefix(cs: seq<Candidate>, n: nat, k: nat)
    requires k <= n <= |cs|
    ensures Scan(cs[..n], k) == Scan(cs, k)
  {
    if k > 0 {
      ScanOfPrefix(cs, n, k - 1);
    }
  }

  lemma PrefixIdempotentIff(cs: seq<Candidate>, n: nat)
    requires n <= |cs|
    ensures Idempotent(cs[..n]) <==> ApartAt(cs, n)
  {
    IdempotentIffApart(cs[..n]);
    ScanOfPrefix(cs, n, n);
  }

  lemma IdleSoFar(cs: seq<Candidate>, n: nat)
    requires n < |cs| && Idempotent(cs[..n]) && Idempotent(cs[..n + 1])
    ensures !BridgesAt(cs, n)
  {
    PrefixIdempotentIff(cs, n);
    PrefixIdempotentIff(cs, n + 1);
    NextStaysApartIff(cs, n);
  }

  lemma NoBridgesIsIdempotent(cs: seq<Candidate>, n: nat)
    requires n <= |cs| && forall m :: 0 <= m < n ==> !BridgesAt(cs, m)
    ensures Idempotent(cs[..n])
  {
    NoBridgesStaysApart(cs, n);
    PrefixIdempotentIff(cs, n);
  }

  /** As a list grows, a second pass stays idle exactly as long as no new row bridges two of the rows shown. */
  lemma StaysIdempotentIff(cs: seq<Candidate>)
    ensures (forall n :: 0 <= n <= |cs| ==> Idempotent(cs[..n])) <==> (forall n :: 0 <= n < |cs| ==> !BridgesAt(cs, n))
  {
    if forall n :: 0 <= n < |cs| ==> !BridgesAt(cs, n) {
      forall n | 0 <= n <= |cs| ensures Idempotent(cs[..n]) {
        NoBridgesIsIdempotent(cs, n);
      }
    }
    if forall n :: 0 <= n <= |cs| ==> Idempotent(cs[..n]) {
      forall n | 0 <= n < |cs| ensures !BridgesAt(cs, n) {
        IdleSoFar(cs, n);
      }
    }
  }

  /** `r` is the same chat as both `p` and `q`, which are not the same chat, and better than `p`. */
  predicate Between(p: Candidate, q: Candidate, r: Candidate) {
    !SameChat(p, q) && SameChat(r, p) && SameChat(r, q) && IsBetter(r, p)
  }

  /** No row is between two rows before it. */
  ghost predicate NoneBetween(cs: seq<Candidate>) {
    forall i, j, k :: 0 <= i < k < |cs| && 0 <= j < k ==> !Between(cs[i], cs[j], cs[k])
  }

  lemma BridgeIsBetween(slots: seq<Slot>, c: Candidate)
    requires Apart(slots) && Bridges(slots, c)
    ensures exists i, j :: 0 <= i < j < |slots| && Between(slots[i].rep, slots[j].rep, c)
  {
    var i := FirstMatch(slots, c, 0);
    var j :| i < j < |slots| && SameChat(c, slots[j].rep);
    assert Between(slots[i].rep, slots[j].rep, c);
  }

  lemma NoBridge(cs: seq<Candidate>, n: nat)
    requires n < |cs| && NoneBetween(cs) && ApartAt(cs, n)
    ensures !BridgesAt(cs, n)
  {
    var b := Scan(cs, n);
    ScanPartitions(cs, n);
    forall i, j | 0 <= i < j < |b.slots| ensures !Between(b.slots[i].rep, b.slots[j].rep, cs[n]) {
      assert SlotOk(cs, b, i) && SlotOk(cs, b, j);
    }
    if Bridges(b.slots, cs[n]) {
      BridgeIsBetween(b.slots, cs[n]);
    }
  }

  lemma NoneBetweenNext(cs: seq<Candidate>, n: nat)
    requires n < |cs| && NoneBetween(cs) && ApartAt(cs, n)
    ensures ApartAt(cs, n + 1)
  {
    NoBridge(cs, n);
    NextStaysApartIff(cs, n);
  }

  lemma {:induction false} NoneBetweenStaysApart(cs: seq<Candidate>, n: nat)
    requires n <= |cs| && NoneBetween(cs)
    ensures ApartAt(cs, n)
  {
    if n > 0 {
      NoneBetweenStaysApart(cs, n - 1);
      NoneBetweenNext(cs, n - 1);
    }
  }

  /** If no row is between two rows before it, one pass is enough. */
  lemma NoneBetweenIsIdempotent(cs: seq<Candidate>)
    requires NoneBetween(cs)
    ensures Idempotent(cs)
  {
    NoneBetweenStaysApart(cs, |cs|);
    IdempotentIffApart(cs);
  }

  /** No later row is better than an earlier one with its key. */
  ghost predicate BestFirst(cs: seq<Candidate>) {
    forall i, j :: 0 <= i < j < |cs| && cs[i].key == cs[j].key ==> !IsBetter(cs[j], cs[i])
  }

  /** Being the same chat carries over from row to row. */
  ghost predicate ChatsAreClear(cs: seq<Candidate>) {
    forall i, j, k :: 0 <= i < |cs| && 0 <= j < |cs| && 0 <= k < |cs| ==>
      SameChat(cs[i], cs[j]) && SameChat(cs[j], cs[k]) ==> SameChat(cs[i], cs[k])
  }

  /** So one pass is enough when the best copies come first, or when the chats are clearly separated in time. */
  lemma OnePassSuffices(cs: seq<Candidate>)
    requires BestFirst(cs) || ChatsAreClear(cs)
    ensures Idempotent(cs)
  {
    forall i, j, k | 0 <= i < k < |cs| && 0 <= j < k ensures !Between(cs[i], cs[j], cs[k]) {
      if ChatsAreClear(cs) && SameChat(cs[k], cs[i]) {
        assert SameChat(cs[i], cs[k]);
      }
    }
    NoneBetweenIsIdempotent(cs);
  }

  /**
    Collapsing once need not be enough: a better copy moves its slot's creation
    time, which can bring two slots within the window of each other.
   */
  lemma BetweenIsNotIdempotent(a: Candidate, b: Candidate, c: Candidate)
    requires Between(a, b, c)
    ensures Deduped([a, b, c]) == [c, b] && !Idempotent([a, b, c])
  {
    var cs := [a, b, c];
    assert !SameChat(b, a) && SameChat(b, c);
    var b1 := Board([Slot(a, 0, 0)], [0]);
    var b2 := Board([Slot(a, 0, 0), Slot(b, 1, 1)], [0, 1]);
    assert Scan(cs, 1) == b1 by {
      assert Scan(cs, 0) == Board([], []);
    }
    assert Scan(cs, 2) == b2 by {
      assert FirstMatch(b1.slots, b, 0) == -1;
    }
    assert Scan(cs, 3) == Board([Slot(c, 2, 0), Slot(b, 1, 1)], [0, 1, 0]) by {
      assert FirstMatch(b2.slots, c, 0) == 0;
    }
    UnchangedIffNoTwins([c, b]);
    assert SameChat([c, b][1], [c, b][0]);
  }

  /** Twenty and fifteen minutes from a newer, better copy, and thirty-five from each other. */
  lemma DedupIsNotIdempotent(a: Candidate, b: Candidate, c: Candidate)
    requires !a.Keyless() && a.key == b.key == c.key && IsBetter(c, a)
    requires a.meta.createdAt == 40 * 60_000 && b.meta.createdAt == 75 * 60_000 && c.meta.createdAt == 60 * 60_000
    ensures Deduped([a, b, c]) == [c, b]
    ensures Deduped(Deduped([a, b, c])) != Deduped([a, b, c])
  {
    BetweenIsNotIdempotent(a, b, c);
  }

  ghost predicate DrawnFrom(cs: seq<Candidate>, rows: set<Candidate>) {
    forall i :: 0 <= i < |cs| ==> cs[i] in rows
  }

  ghost predicate NoneBetweenIn(rows: set<Candidate>) {
    forall p, q, r :: p in rows && q in rows && r in rows ==> !Between(p, q, r)
  }

  lemma DrawnIsIdempotent(cs: seq<Candidate>, rows: set<Candidate>)
    requires DrawnFrom(cs, rows) && NoneBetweenIn(rows)
    ensures Idempotent(cs)
  {
    NoneBetweenIsIdempotent(cs);
  }

  lemma SomeListIsNotIdempotent(rows: set<Candidate>)
    requires !NoneBetweenIn(rows)
    ensures exists cs :: DrawnFrom(cs, rows) && !Idempotent(cs)
  {
    var p, q, r :| p in rows && q in rows && r in rows && Between(p, q, r);
    BetweenIsNotIdempotent(p, q, r);
    assert DrawnFrom([p, q, r], rows);
  }

  /**
    Every list of rows from a collection collapses in one pass exactly when no
    row of the collection is between two others.
   */
  lemma IdempotentOnIff(rows: set<Candidate>)
    ensures (forall cs | DrawnFrom(cs, rows) :: Idempotent(cs)) <==> NoneBetweenIn(rows)
  {
    if NoneBetweenIn(rows) {
      forall cs | DrawnFrom(cs, rows) ensures Idempotent(cs) {
        DrawnIsIdempotent(cs, rows);
      }
    } else {
      SomeListIsNotIdempotent(rows);
    }
  }
}
