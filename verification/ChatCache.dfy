/**
  The cached directory listing: conversation files newest first. Saves move
  their entry to the front and deletions drop it, so that the directory need
  not be read and sorted again.
 */
module ChatCache {
  import opened Options

  /** When each conversation file was last modified. */
  type Files = map<string, int>

  /** `after(x, y)`: the name `x` collates after `y`. */
  datatype Collation = Collation(after: (string, string) -> bool)

  ghost predicate IsTotal(c: Collation) {
    && (forall x :: !c.after(x, x))
    && (forall x, y :: x != y ==> c.after(x, y) || c.after(y, x))
    && (forall x, y, z :: c.after(x, y) && c.after(y, z) ==> c.after(x, z))
  }

  /** `x` is listed before `y`: newer first, then by name, descending. */
  predicate Precedes(c: Collation, f: Files, x: string, y: string)
    requires x in f && y in f
  {
    f[x] > f[y] || (f[x] == f[y] && c.after(x, y))
  }

  // ----- The fresh listing ------------------------------------------------------------------

  /** `names` lists the files of `ks`, each once, in listing order. */
  ghost predicate IsListing(c: Collation, f: Files, ks: set<string>, names: seq<string>) {
    && ks <= f.Keys
    && (forall i :: 0 <= i < |names| ==> names[i] in ks)
    && (forall x :: x in ks ==> x in names)
    && (forall i, j :: 0 <= i < j < |names| ==> Precedes(c, f, names[i], names[j]))
  }

  ghost predicate IsFresh(c: Collation, f: Files, names: seq<string>) {
    IsListing(c, f, f.Keys, names)
  }

  /** There is only one such listing. */
  lemma {:induction false} ListingIsUnique(c: Collation, f: Files, ks: set<string>, a: seq<string>, b: seq<string>)
    requires IsTotal(c) && IsListing(c, f, ks, a) && IsListing(c, f, ks, b)
    ensures a == b
    decreases |a|
  {
    assert |a| > 0 ==> a[0] in ks && a[0] in b;
    assert |b| > 0 ==> b[0] in ks && b[0] in a;
    if |a| > 0 {
      FirstIsFirst(c, f, ks, a, b);
      TailLists(c, f, ks, a);
      TailLists(c, f, ks, b);
      ListingIsUnique(c, f, ks - {a[0]}, a[1..], b[1..]);
      assert a == [a[0]] + a[1..] && b == [b[0]] + b[1..];
    }
  }

  lemma FirstIsFirst(c: Collation, f: Files, ks: set<string>, a: seq<string>, b: seq<string>)
    requires IsTotal(c) && IsListing(c, f, ks, a) && IsListing(c, f, ks, b) && |a| > 0 && |b| > 0
    ensures a[0] == b[0]
  {
    assert a[0] in b && b[0] in a;
    var i :| 0 <= i < |a| && a[i] == b[0];
    var j :| 0 <= j < |b| && b[j] == a[0];
  }

  lemma TailLists(c: Collation, f: Files, ks: set<string>, a: seq<string>)
    requires IsTotal(c) && IsListing(c, f, ks, a) && |a| > 0
    ensures IsListing(c, f, ks - {a[0]}, a[1..])
  {
    forall x | x in ks - {a[0]} ensures x in a[1..] {
      var i :| 0 <= i < |a| && a[i] == x;
      assert a[1..][i - 1] == x;
    }
  }

  /** Insert one entry into a sorted list. */
  function Insert(c: Collation, f: Files, names: seq<string>, x: string): seq<string>
    requires x in f && forall i :: 0 <= i < |names| ==> names[i] in f
  {
    if |names| == 0 || Precedes(c, f, x, names[0]) then [x] + names
    else [names[0]] + Insert(c, f, names[1..], x)
  }

  lemma {:induction false} InsertLists(c: Collation, f: Files, ks: set<string>, names: seq<string>, x: string)
    requires IsTotal(c) && IsListing(c, f, ks, names) && x in f && x !in ks
    ensures IsListing(c, f, ks + {x}, Insert(c, f, names, x))
    decreases |names|
  {
    if |names| == 0 || Precedes(c, f, x, names[0]) {
      assert forall y :: y in names ==> y in [x] + names;
      assert ([x] + names)[0] == x;
    } else {
      var h := names[0];
      TailLists(c, f, ks, names);
      InsertLists(c, f, ks - {h}, names[1..], x);
      var rest := Insert(c, f, names[1..], x);
      assert forall i :: 0 <= i < |rest| ==> Precedes(c, f, h, rest[i]) by {
        assert h != x;
        forall i | 0 <= i < |rest| ensures Precedes(c, f, h, rest[i]) {
          if rest[i] != x {
            assert rest[i] in ks;
            var k :| 0 <= k < |names| && names[k] == rest[i];
            assert k != 0;
          }
        }
      }
      assert ([h] + rest)[0] == h;
      assert forall y :: y in rest ==> y in [h] + rest;
    }
  }

  lemma {:induction false} ListingExists(c: Collation, f: Files, ks: set<string>)
    requires IsTotal(c) && ks <= f.Keys
    ensures exists names :: IsListing(c, f, ks, names)
    decreases |ks|
  {
    if ks == {} {
      assert IsListing(c, f, ks, []);
    } else {
      var x :| x in ks;
      ListingExists(c, f, ks - {x});
      var names :| IsListing(c, f, ks - {x}, names);
      InsertLists(c, f, ks - {x}, names, x);
      assert ks - {x} + {x} == ks;
    }
  }

  /** What listing the directory and sorting it gives. */
  ghost function FreshListing(c: Collation, f: Files): (names: seq<string>)
    requires IsTotal(c)
    ensures IsFresh(c, f, names)
    ensures forall other :: IsFresh(c, f, other) ==> other == names
  {
    ListingExists(c, f, f.Keys);
    var names :| IsListing(c, f, f.Keys, names);
    assert forall other :: IsFresh(c, f, other) ==> other == names by {
      forall other | IsFresh(c, f, other) ensures other == names {
        ListingIsUnique(c, f, f.Keys, other, names);
      }
    }
    names
  }

  /** Read the directory, whatever order it is returned in, and sort. */
  method OrderEntriesByMtime(c: Collation, f: Files) returns (names: seq<string>)
    requires IsTotal(c)
    ensures names == FreshListing(c, f)
  {
    names := [];
    var unread := f.Keys;
    while unread != {}
      invariant unread <= f.Keys && IsListing(c, f, f.Keys - unread, names)
    {
      var x :| x in unread;
      InsertLists(c, f, f.Keys - unread, names, x);
      names := Insert(c, f, names, x);
      assert f.Keys - unread + {x} == f.Keys - (unread - {x});
      unread := unread - {x};
    }
    assert f.Keys - {} == f.Keys;
    assert IsFresh(c, f, names);
  }

  // ----- Keeping the listing up to date --------------------------------------------------------

  function Without(names: seq<string>, x: string): seq<string> {
    if |names| == 0 then []
    else (if names[0] == x then [] else [names[0]]) + Without(names[1..], x)
  }

  function Remember(names: seq<string>, x: string): seq<string> {
    [x] + Without(names, x)
  }

  lemma {:induction false} WithoutLists(c: Collation, f: Files, ks: set<string>, names: seq<string>, x: string)
    requires IsTotal(c) && IsListing(c, f, ks, names)
    ensures IsListing(c, f, ks - {x}, Without(names, x))
    decreases |names|
  {
    if |names| == 0 {
      assert forall k :: k in ks ==> k in names;
    } else {
      var h := names[0];
      TailLists(c, f, ks, names);
      WithoutLists(c, f, ks - {h}, names[1..], x);
      var rest := Without(names[1..], x);
      if h == x {
        assert ks - {h} - {x} == ks - {x};
        assert Without(names, x) == rest;
      } else {
        assert ks - {h} - {x} + {h} == ks - {x};
        forall i | 0 <= i < |rest| ensures Precedes(c, f, h, rest[i]) {
          assert rest[i] in names;
          var k :| 0 <= k < |names| && names[k] == rest[i];
        }
        assert ([h] + rest)[0] == h;
        assert forall y :: y in rest ==> y in [h] + rest;
      }
    }
  }

  /** The listing does not look at files it does not mention. */
  lemma ListingFrame(c: Collation, f: Files, f': Files, ks: set<string>, names: seq<string>)
    requires IsListing(c, f, ks, names) && ks <= f'.Keys && forall x :: x in ks ==> f'[x] == f[x]
    ensures IsListing(c, f', ks, names)
  {
  }

  /**
    Moving a just-written entry to the front gives the fresh listing exactly
    when that entry now belongs in front: newer than every other file, or as new
    and collating after it.
   */
  lemma RememberExact(c: Collation, f: Files, names: seq<string>, x: string, t: int)
    requires IsTotal(c) && IsFresh(c, f, names)
    ensures IsFresh(c, f[x := t], Remember(names, x)) <==>
            forall y :: y in f && y != x ==> t > f[y] || (t == f[y] && c.after(x, y))
  {
    var f', rest := f[x := t], Without(names, x);
    var r := Remember(names, x);
    WithoutLists(c, f, f.Keys, names, x);
    ListingFrame(c, f, f', f.Keys - {x}, rest);
    assert f'.Keys - {x} == f.Keys - {x};
    assert r[0] == x;
    if forall y :: y in f && y != x ==> t > f[y] || (t == f[y] && c.after(x, y)) {
      forall i, j | 0 <= i < j < |r| ensures Precedes(c, f', r[i], r[j]) {
        if i == 0 {
          assert rest[j - 1] == r[j] && rest[j - 1] in f.Keys - {x};
        } else {
          assert r[i] == rest[i - 1] && r[j] == rest[j - 1];
        }
      }
      forall y | y in f' ensures y in r {
        if y != x {
          assert y in rest;
        }
      }
    }
    if IsFresh(c, f', r) {
      forall y | y in f && y != x ensures t > f[y] || (t == f[y] && c.after(x, y)) {
        assert y in r;
        var j :| 0 <= j < |r| && r[j] == y;
        assert Precedes(c, f', r[0], r[j]);
      }
    }
  }

  lemma ForgetIsFresh(c: Collation, f: Files, names: seq<string>, x: string)
    requires IsTotal(c) && IsFresh(c, f, names)
    ensures IsFresh(c, f - {x}, Without(names, x))
  {
    WithoutLists(c, f, f.Keys, names, x);
    ListingFrame(c, f, f - {x}, f.Keys - {x}, Without(names, x));
    assert (f - {x}).Keys == f.Keys - {x};
  }

  // ----- The module's state ------------------------------------------------------------------------

  datatype Snapshot = Snapshot(files: Files, cache: Option<seq<string>>)

  datatype Op = Save(name: string, time: int) | Delete(name: string) | List | Invalidate

  /** The effect of one operation on the files and on the cache. */
  ghost function Apply(c: Collation, s: Snapshot, op: Op): Snapshot
    requires IsTotal(c)
  {
    match op
    case Save(x, t) => Snapshot(s.files[x := t], if s.cache.Some? then Some(Remember(s.cache.value, x)) else None)
    case Delete(x) =>
      if x in s.files then Snapshot(s.files - {x}, if s.cache.Some? then Some(Without(s.cache.value, x)) else None)
      else s
    case List => if s.cache.Some? then s else s.(cache := Some(FreshListing(c, s.files)))
    case Invalidate => s.(cache := None)
  }

  ghost function ApplyAll(c: Collation, s: Snapshot, ops: seq<Op>): Snapshot
    requires IsTotal(c)
  {
    if |ops| == 0 then s else Apply(c, ApplyAll(c, s, ops[..|ops| - 1]), ops[|ops| - 1])
  }

  ghost predicate CacheFresh(c: Collation, s: Snapshot)
    requires IsTotal(c)
  {
    s.cache.Some? ==> s.cache.value == FreshListing(c, s.files)
  }

  /** Every save writes at a later time than any file before it bears. */
  ghost predicate TimesIncrease(s: Snapshot, ops: seq<Op>) {
    && (forall i, y :: 0 <= i < |ops| && ops[i].Save? && y in s.files ==> ops[i].time > s.files[y])
    && (forall i, j :: 0 <= i < j < |ops| && ops[i].Save? && ops[j].Save? ==> ops[i].time < ops[j].time)
  }

  ghost predicate AllOlder(f: Files, t: int) {
    forall y :: y in f ==> f[y] < t
  }

  lemma {:induction false} TimesBounded(c: Collation, s: Snapshot, ops: seq<Op>, t: int)
    requires IsTotal(c) && AllOlder(s.files, t) && forall i :: 0 <= i < |ops| && ops[i].Save? ==> ops[i].time < t
    ensures AllOlder(ApplyAll(c, s, ops).files, t)
  {
    if |ops| > 0 {
      TimesBounded(c, s, ops[..|ops| - 1], t);
    }
  }

  /** Over every sequential run, a populated cache is the fresh listing of the directory as it is then. */
  lemma {:induction false} RunKeepsCacheFresh(c: Collation, s: Snapshot, ops: seq<Op>)
    requires IsTotal(c) && CacheFresh(c, s) && TimesIncrease(s, ops)
    ensures CacheFresh(c, ApplyAll(c, s, ops))
  {
    if |ops| > 0 {
      var before, op := ops[..|ops| - 1], ops[|ops| - 1];
      RunKeepsCacheFresh(c, s, before);
      var m := ApplyAll(c, s, before);
      if m.cache.Some? && op.Save? {
        TimesBounded(c, s, before, op.time);
        RememberExact(c, m.files, m.cache.value, op.name, op.time);
      } else if m.cache.Some? && op.Delete? {
        ForgetIsFresh(c, m.files, m.cache.value, op.name);
      }
    }
  }

  // ----- Which files are listed ------------------------------------------------------------------------

  /** Operation `i` is the last of `ops` to save or delete `x`. */
  ghost predicate LastOn(ops: seq<Op>, x: string, i: nat) {
    && i < |ops| && (ops[i].Save? || ops[i].Delete?) && ops[i].name == x
    && forall k :: i < k < |ops| && (ops[k].Save? || ops[k].Delete?) ==> ops[k].name != x
  }

  ghost predicate Untouched(ops: seq<Op>, x: string) {
    forall k :: 0 <= k < |ops| && (ops[k].Save? || ops[k].Delete?) ==> ops[k].name != x
  }

  /** A file exists as its last save or deletion left it. */
  lemma {:induction false} LastOpDecides(c: Collation, s: Snapshot, ops: seq<Op>, x: string, i: nat)
    requires IsTotal(c) && LastOn(ops, x, i)
    ensures var f := ApplyAll(c, s, ops).files; if ops[i].Save? then x in f && f[x] == ops[i].time else x !in f
    decreases |ops|
  {
    if i < |ops| - 1 {
      LastOpDecides(c, s, ops[..|ops| - 1], x, i);
    }
  }

  lemma {:induction false} UntouchedStays(c: Collation, s: Snapshot, ops: seq<Op>, x: string)
    requires IsTotal(c) && Untouched(ops, x)
    ensures var f := ApplyAll(c, s, ops).files; (x in f <==> x in s.files) && (x in f ==> f[x] == s.files[x])
  {
    if |ops| > 0 {
      UntouchedStays(c, s, ops[..|ops| - 1], x);
    }
  }

  /** After any such run and a listing, the names listed are those last saved, or there from the start and never touched. */
  lemma ListedIff(c: Collation, s: Snapshot, ops: seq<Op>, x: string)
    requires IsTotal(c) && CacheFresh(c, s) && TimesIncrease(s, ops)
    ensures var cache := Apply(c, ApplyAll(c, s, ops), List).cache;
            cache.Some? && (x in cache.value <==>
              || (exists i: nat :: LastOn(ops, x, i) && ops[i].Save?)
              || (x in s.files && Untouched(ops, x)))
  {
    RunKeepsCacheFresh(c, s, ops);
    var f := ApplyAll(c, s, ops).files;
    var names := FreshListing(c, f);
    assert x in names <==> x in f;
    LastOrUntouched(ops, x);
    if i: nat :| LastOn(ops, x, i) {
      LastOpDecides(c, s, ops, x, i);
    } else {
      UntouchedStays(c, s, ops, x);
    }
  }

  lemma {:induction false} LastOrUntouched(ops: seq<Op>, x: string)
    ensures Untouched(ops, x) <==> !exists i: nat :: LastOn(ops, x, i)
  {
    if |ops| > 0 {
      var n := |ops| - 1;
      LastOrUntouched(ops[..n], x);
      if (ops[n].Save? || ops[n].Delete?) && ops[n].name == x {
        assert LastOn(ops, x, n);
      } else if i: nat :| LastOn(ops[..n], x, i) {
        assert LastOn(ops, x, i);
      }
    }
  }

  /** The module-level variables and the directory they describe. */
  class ConversationIndex {
    const collation: Collation
    var files: Files
    var cache: Option<seq<string>>

    ghost predicate Valid() {
      IsTotal(collation)
    }

    /** The cache is empty, or what listing the directory now would give. */
    ghost predicate Fresh()
      requires Valid()
      reads this
    {
      CacheFresh(collation, View())
    }

    ghost function View(): Snapshot
      reads this
    {
      Snapshot(files, cache)
    }

    constructor (collation: Collation, files: Files)
      requires IsTotal(collation)
      ensures Valid() && Fresh() && this.collation == collation && View() == Snapshot(files, None)
    {
      this.collation := collation;
      this.files := files;
      this.cache := None;
    }

    /** Another window's write, once reported, is handled like one of our own. */
    method Save(name: string, time: int)
      requires Valid()
      modifies this
      ensures View() == Apply(collation, old(View()), Op.Save(name, time))
      ensures old(Fresh()) && AllOlder(old(files), time) ==> Fresh()
    {
      files := files[name := time];
      if cache.Some? {
        if old(Fresh()) {
          RememberExact(collation, old(files), cache.value, name, time);
        }
        cache := Some(Remember(cache.value, name));
      }
    }

    method Delete(name: string)
      requires Valid()
      modifies this
      ensures View() == Apply(collation, old(View()), Op.Delete(name))
      ensures old(Fresh()) ==> Fresh()
    {
      if name in files {
        files := files - {name};
        if cache.Some? {
          if old(Fresh()) {
            ForgetIsFresh(collation, old(files), cache.value, name);
          }
          cache := Some(Without(cache.value, name));
        }
      }
    }

    method Invalidate()
      requires Valid()
      modifies this`cache
      ensures Fresh() && View() == Apply(collation, old(View()), Op.Invalidate)
    {
      cache := None;
    }

    /** From the cache if there is one; if it was fresh, this is what reading the directory now would give. */
    method OrderedEntries() returns (names: seq<string>)
      requires Valid()
      modifies this`cache
      ensures View() == Apply(collation, old(View()), List) && cache == Some(names)
      ensures old(Fresh()) ==> Fresh() && names == FreshListing(collation, files)
    {
      if cache.Some? {
        return cache.value;
      }
      names := OrderEntriesByMtime(collation, files);
      cache := Some(names);
    }
  }
}
