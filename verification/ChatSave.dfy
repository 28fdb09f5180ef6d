/**
  Saving a conversation: stage the body in a uniquely named sibling file, then
  rename it onto the final name. The protocol is a state machine over the steps
  of any number of concurrent saves, with partial writes, failures and crashes
  at every point, interleaved with deletions. Names are relative to the chats
  directory.
 */
module ChatSave {
  import opened Text

  // ----- Names -------------------------------------------------------------------------

  /** Characters Windows reserves in file names become underscores. */
  function SafeId(id: string): string {
    seq(|id|, i requires 0 <= i < |id| =>
      if id[i] in {'<', '>', ':', '\"', '/', '\\', '|', '?', '*'} then '_' else id[i])
  }

  function ConversationFilename(id: string): string {
    SafeId(id) + ".json"
  }

  /** One call of the save routine. `stamp` and `random` make its staging name unique. */
  datatype Save = Save(id: string, stamp: string, random: string, body: string) {
    function Final(): string {
      ConversationFilename(id)
    }

    function Tmp(): string {
      Final() + "." + stamp + "." + random + ".tmp"
    }
  }

  /** The characters that a file name cannot tell from an underscore. */
  predicate IsBlurred(c: char) {
    c in "<>:\"/\\|?*_"
  }

  lemma SafeChar(id: string, i: nat)
    requires i < |id|
    ensures SafeId(id)[i] == if IsBlurred(id[i]) then '_' else id[i]
  {
    var cs := "<>:\"/\\|?*_";
    assert cs[0] == '<' && cs[1] == '>' && cs[2] == ':' && cs[3] == '\"' && cs[4] == '/' && cs[5] == '\\';
    assert cs[6] == '|' && cs[7] == '?' && cs[8] == '*' && cs[9] == '_' && |cs| == 10;
  }

  /**
    Two conversations share a file exactly when their ids differ only where both
    have a reserved character or an underscore.
   */
  lemma SameFileIff(a: string, b: string)
    ensures ConversationFilename(a) == ConversationFilename(b) <==>
            |a| == |b| && forall i :: 0 <= i < |a| ==> a[i] == b[i] || (IsBlurred(a[i]) && IsBlurred(b[i]))
  {
    var x, y := ConversationFilename(a), ConversationFilename(b);
    forall i | 0 <= i < |a| ensures SafeId(a)[i] == if IsBlurred(a[i]) then '_' else a[i] {
      SafeChar(a, i);
    }
    forall i | 0 <= i < |b| ensures SafeId(b)[i] == if IsBlurred(b[i]) then '_' else b[i] {
      SafeChar(b, i);
    }
    assert IsBlurred('_') by {
      assert "<>:\"/\\|?*_"[9] == '_';
    }
    if x == y {
      assert |x| == |a| + 5 && |y| == |b| + 5;
      assert SafeId(a) == x[..|a|] == y[..|b|] == SafeId(b);
    } else if |a| == |b| {
      assert SafeId(a) != SafeId(b);
    }
  }

  /** What a listing shows: directory entries named like a conversation. */
  predicate IsListed(name: string) {
    EndsWith(name, ".json")
  }

  lemma NamesDoNotMeet(s: Save)
    ensures IsListed(s.Final()) && !IsListed(s.Tmp())
  {
    var t := s.Tmp();
    assert t[|t| - 4..] == ".tmp";
    assert t[|t| - 5..][4] == t[|t| - 1] == 'p';
    assert ".json"[4] == 'n';
  }

  // ----- The machine ---------------------------------------------------------------------

  datatype Phase =
    | Called                  // name chosen, nothing written
    | Writing(written: nat)   // the staging file holds this many characters
    | Staged                  // the write call returned
    | Rejected                // the rename failed, cleanup pending
    | Done
    | Failed
    | Crashed

  type Files = map<string, string>

  datatype State = State(files: Files, phases: seq<Phase>)

  datatype Action =
    | Open(k: nat)
    | Append(k: nat, written: nat)
    | FinishWrite(k: nat)
    | WriteFails(k: nat)
    | Rename(k: nat)
    | RenameFails(k: nat)
    | Cleanup(k: nat)
    | CleanupFails(k: nat)
    | Crash(k: nat)
    | Delete(id: string)

  predicate Enabled(saves: seq<Save>, s: State, a: Action)
    requires |s.phases| == |saves|
  {
    a.Delete? || (a.k < |saves| &&
      match a
      case Open(k) => s.phases[k].Called?
      case Append(k, n) => s.phases[k].Writing? && s.phases[k].written <= n <= |saves[k].body|
      case FinishWrite(k) => s.phases[k] == Writing(|saves[k].body|)
      case WriteFails(k) => s.phases[k].Writing?
      case Rename(k) => s.phases[k].Staged?
      case RenameFails(k) => s.phases[k].Staged?
      case Cleanup(k) => s.phases[k].Rejected?
      case CleanupFails(k) => s.phases[k].Rejected?
      case Crash(k) => true)
  }

  function Next(saves: seq<Save>, s: State, a: Action): (s': State)
    requires |s.phases| == |saves| && Enabled(saves, s, a)
    ensures |s'.phases| == |saves|
  {
    match a
    case Open(k) => State(s.files[saves[k].Tmp() := ""], s.phases[k := Writing(0)])
    case Append(k, n) => State(s.files[saves[k].Tmp() := saves[k].body[..n]], s.phases[k := Writing(n)])
    case FinishWrite(k) => s.(phases := s.phases[k := Staged])
    case WriteFails(k) => s.(phases := s.phases[k := Failed])
    case Rename(k) =>
      var tmp := saves[k].Tmp();
      if tmp in s.files then State((s.files - {tmp})[saves[k].Final() := s.files[tmp]], s.phases[k := Done])
      else s.(phases := s.phases[k := Rejected])
    case RenameFails(k) => s.(phases := s.phases[k := Rejected])
    case Cleanup(k) => State(s.files - {saves[k].Tmp()}, s.phases[k := Failed])
    case CleanupFails(k) => s.(phases := s.phases[k := Failed])
    case Crash(k) => s.(phases := s.phases[k := Crashed])
    case Delete(id) => s.(files := s.files - {ConversationFilename(id)})
  }

  /** The state after every action, each of which must be possible when its turn comes. */
  ghost predicate IsRun(saves: seq<Save>, actions: seq<Action>, states: seq<State>) {
    && |states| == |actions| + 1
    && (forall i :: 0 <= i < |states| ==> |states[i].phases| == |saves|)
    && (forall k :: 0 <= k < |saves| ==> states[0].phases[k] == Called)
    && (forall i :: 0 <= i < |actions| ==>
          Enabled(saves, states[i], actions[i]) && states[i + 1] == Next(saves, states[i], actions[i]))
  }

  ghost predicate DistinctTmp(saves: seq<Save>) {
    forall i, j :: 0 <= i < j < |saves| ==> saves[i].Tmp() != saves[j].Tmp()
  }

  // ----- What every step keeps ---------------------------------------------------------------

  /** Each staging file holds exactly what its own save has written. */
  ghost predicate StagingIntact(saves: seq<Save>, s: State) {
    && |s.phases| == |saves|
    && (forall k {:trigger s.phases[k]} :: 0 <= k < |saves| && s.phases[k].Writing? ==>
          s.phases[k].written <= |saves[k].body|
          && saves[k].Tmp() in s.files && s.files[saves[k].Tmp()] == saves[k].body[..s.phases[k].written])
    && (forall k {:trigger s.phases[k]} :: 0 <= k < |saves| && s.phases[k].Staged? ==>
          saves[k].Tmp() in s.files && s.files[saves[k].Tmp()] == saves[k].body)
  }

  lemma StepKeepsStaging(saves: seq<Save>, s: State, a: Action)
    requires DistinctTmp(saves) && StagingIntact(saves, s) && Enabled(saves, s, a)
    ensures StagingIntact(saves, Next(saves, s, a))
  {
    var s' := Next(saves, s, a);
    forall k | 0 <= k < |saves| && (a.Delete? || a.k != k) && (s.phases[k].Writing? || s.phases[k].Staged?)
      ensures saves[k].Tmp() in s'.files && s'.files[saves[k].Tmp()] == s.files[saves[k].Tmp()]
    {
      OthersKeepTheirFile(saves, s, a, k);
    }
    if a.FinishWrite? {
      assert saves[a.k].body[..|saves[a.k].body|] == saves[a.k].body;
    }
  }

  /** Nothing but a save's own steps touches its staging file. */
  lemma OthersKeepTheirFile(saves: seq<Save>, s: State, a: Action, k: nat)
    requires DistinctTmp(saves) && |s.phases| == |saves| && Enabled(saves, s, a)
    requires k < |saves| && saves[k].Tmp() in s.files && (a.Delete? || a.k != k || a.Crash?)
    ensures var tmp := saves[k].Tmp(); tmp in Next(saves, s, a).files && Next(saves, s, a).files[tmp] == s.files[tmp]
  {
    NamesDoNotMeet(saves[k]);
    if a.Delete? {
      NamesDoNotMeet(Save(a.id, "", "", ""));
    } else if a.k != k {
      NamesDoNotMeet(saves[a.k]);
      assert saves[a.k].Tmp() != saves[k].Tmp();
    }
  }

  lemma {:induction false} RunKeepsStaging(saves: seq<Save>, actions: seq<Action>, states: seq<State>, i: nat)
    requires DistinctTmp(saves) && IsRun(saves, actions, states) && i < |states|
    ensures StagingIntact(saves, states[i])
  {
    if i > 0 {
      RunKeepsStaging(saves, actions, states, i - 1);
      StepKeepsStaging(saves, states[i - 1], actions[i - 1]);
    }
  }

  // ----- Refinement of an atomic store ----------------------------------------------------------

  /** The conversations on disk. */
  ghost function Visible(files: Files): Files {
    map name | name in files && IsListed(name) :: files[name]
  }

  /** The atomic meaning of an action: a rename puts the whole body, a deletion removes it, nothing else shows. */
  ghost function AtomicStep(saves: seq<Save>, store: Files, a: Action): Files {
    match a
    case Rename(k) => if k < |saves| then store[saves[k].Final() := saves[k].body] else store
    case Delete(id) => store - {ConversationFilename(id)}
    case _ => store
  }

  ghost function AtomicRun(saves: seq<Save>, store: Files, actions: seq<Action>): Files {
    if |actions| == 0 then store
    else AtomicStep(saves, AtomicRun(saves, store, actions[..|actions| - 1]), actions[|actions| - 1])
  }

  lemma VisiblePut(files: Files, name: string, content: string)
    ensures Visible(files[name := content]) == if IsListed(name) then Visible(files)[name := content] else Visible(files)
  {
  }

  lemma VisibleRemove(files: Files, name: string)
    ensures Visible(files - {name}) == if IsListed(name) then Visible(files) - {name} else Visible(files)
  {
  }

  lemma StepIsAtomic(saves: seq<Save>, s: State, a: Action)
    requires StagingIntact(saves, s) && Enabled(saves, s, a)
    ensures Visible(Next(saves, s, a).files) == AtomicStep(saves, Visible(s.files), a)
  {
    if a.Delete? {
      NamesDoNotMeet(Save(a.id, "", "", ""));
      VisibleRemove(s.files, ConversationFilename(a.id));
    } else {
      var save := saves[a.k];
      NamesDoNotMeet(save);
      match a {
        case Open(k) => VisiblePut(s.files, save.Tmp(), "");
        case Append(k, n) => VisiblePut(s.files, save.Tmp(), save.body[..n]);
        case Rename(k) =>
          assert s.phases[k].Staged?;
          VisibleRemove(s.files, save.Tmp());
          VisiblePut(s.files - {save.Tmp()}, save.Final(), save.body);
        case Cleanup(k) => VisibleRemove(s.files, save.Tmp());
        case _ =>
      }
    }
  }

  /**
    In every interleaving, what a reader can see is what some sequence of whole
    puts and deletions would have produced: the files under conversation names
    evolve like an atomic store.
   */
  lemma {:induction false} SavesAreAtomic(saves: seq<Save>, actions: seq<Action>, states: seq<State>, i: nat)
    requires DistinctTmp(saves) && IsRun(saves, actions, states) && i < |states|
    ensures Visible(states[i].files) == AtomicRun(saves, Visible(states[0].files), actions[..i])
  {
    if i > 0 {
      SavesAreAtomic(saves, actions, states, i - 1);
      RunKeepsStaging(saves, actions, states, i - 1);
      StepIsAtomic(saves, states[i - 1], actions[i - 1]);
      assert actions[..i][..i - 1] == actions[..i - 1];
    }
  }

  /** An atomic store only ever holds initial contents and whole bodies. */
  lemma {:induction false} AtomicContents(saves: seq<Save>, store: Files, actions: seq<Action>, name: string)
    requires name in AtomicRun(saves, store, actions)
    ensures var content := AtomicRun(saves, store, actions)[name];
            || (name in store && content == store[name])
            || exists k :: 0 <= k < |saves| && Rename(k) in actions && saves[k].Final() == name && saves[k].body == content
  {
    if |actions| > 0 {
      var before, a := actions[..|actions| - 1], actions[|actions| - 1];
      assert actions == before + [a];
      if name in AtomicRun(saves, store, before) {
        AtomicContents(saves, store, before, name);
      }
      if a.Rename? && a.k < |saves| && saves[a.k].Final() == name {
        assert Rename(a.k) in actions;
      }
    }
  }

  /** The action puts or removes the file `name`. */
  ghost predicate Touches(saves: seq<Save>, a: Action, name: string) {
    || (a.Rename? && a.k < |saves| && saves[a.k].Final() == name)
    || (a.Delete? && ConversationFilename(a.id) == name)
  }

  ghost predicate NoneTouches(saves: seq<Save>, actions: seq<Action>, name: string, from: nat) {
    forall k :: from <= k < |actions| ==> !Touches(saves, actions[k], name)
  }

  lemma {:induction false} LastTouchInStore(saves: seq<Save>, store: Files, actions: seq<Action>, name: string, j: nat)
    requires j < |actions| && Touches(saves, actions[j], name) && NoneTouches(saves, actions, name, j + 1)
    ensures var last := AtomicRun(saves, store, actions);
            if actions[j].Delete? then name !in last else name in last && last[name] == saves[actions[j].k].body
    decreases |actions|
  {
    if j < |actions| - 1 {
      LastTouchInStore(saves, store, actions[..|actions| - 1], name, j);
      assert !Touches(saves, actions[|actions| - 1], name);
    }
  }

  lemma {:induction false} UntouchedInStore(saves: seq<Save>, store: Files, actions: seq<Action>, name: string)
    requires NoneTouches(saves, actions, name, 0)
    ensures var last := AtomicRun(saves, store, actions);
            (name in last <==> name in store) && (name in last ==> last[name] == store[name])
  {
    if |actions| > 0 {
      UntouchedInStore(saves, store, actions[..|actions| - 1], name);
      assert !Touches(saves, actions[|actions| - 1], name);
    }
  }

  /**
    After any interleaving a conversation's file is what its last rename or
    deletion made of it, the whole body or nothing; without either, what it was.
   */
  lemma LastTouchDecides(saves: seq<Save>, actions: seq<Action>, states: seq<State>, name: string, j: nat)
    requires DistinctTmp(saves) && IsRun(saves, actions, states) && IsListed(name)
    requires j <= |actions| && NoneTouches(saves, actions, name, j) && (j > 0 ==> Touches(saves, actions[j - 1], name))
    ensures var first, last := states[0].files, states[|actions|].files;
            if j == 0 then (name in last <==> name in first) && (name in last ==> last[name] == first[name])
            else if actions[j - 1].Delete? then name !in last
            else name in last && last[name] == saves[actions[j - 1].k].body
  {
    var store := Visible(states[0].files);
    SavesAreAtomic(saves, actions, states, |actions|);
    assert actions[..|actions|] == actions;
    assert name in Visible(states[|actions|].files) <==> name in states[|actions|].files;
    if j == 0 {
      UntouchedInStore(saves, store, actions, name);
    } else {
      LastTouchInStore(saves, store, actions, name, j - 1);
    }
  }

  /** A conversation file is absent, as it was at the start, or the complete body of a save of that file. */
  lemma NoTornFile(saves: seq<Save>, actions: seq<Action>, states: seq<State>, i: nat, name: string)
    requires DistinctTmp(saves) && IsRun(saves, actions, states) && i < |states|
    requires IsListed(name) && name in states[i].files
    ensures || (name in states[0].files && states[i].files[name] == states[0].files[name])
            || exists k :: 0 <= k < |saves| && saves[k].Final() == name && saves[k].body == states[i].files[name]
  {
    SavesAreAtomic(saves, actions, states, i);
    assert name in Visible(states[i].files);
    AtomicContents(saves, Visible(states[0].files), actions[..i], name);
  }

  /** A rename never finds its staging file gone: it always succeeds unless the system rejects it. */
  lemma RenameFindsItsFile(saves: seq<Save>, actions: seq<Action>, states: seq<State>, i: nat)
    requires DistinctTmp(saves) && IsRun(saves, actions, states) && i < |actions| && actions[i].Rename?
    ensures states[i + 1].phases[actions[i].k] == Done
    ensures saves[actions[i].k].Final() in states[i + 1].files
    ensures saves[actions[i].k].Tmp() !in states[i + 1].files
    ensures states[i + 1].files[saves[actions[i].k].Final()] == saves[actions[i].k].body
  {
    RunKeepsStaging(saves, actions, states, i);
    NamesDoNotMeet(saves[actions[i].k]);
  }

  /** Nor does anything but a save's own steps bring its staging file back. */
  lemma OthersLeaveItGone(saves: seq<Save>, s: State, a: Action, k: nat)
    requires DistinctTmp(saves) && |s.phases| == |saves| && Enabled(saves, s, a)
    requires k < |saves| && saves[k].Tmp() !in s.files && (a.Delete? || a.k != k || a.Crash? || a.Cleanup?)
    ensures saves[k].Tmp() !in Next(saves, s, a).files
  {
    NamesDoNotMeet(saves[k]);
    if !a.Delete? && a.k != k {
      NamesDoNotMeet(saves[a.k]);
      assert saves[a.k].Tmp() != saves[k].Tmp();
    }
  }

  /** In every interleaving, a save that is done has left no staging file behind, not even later. */
  lemma {:induction false} DoneLeavesNothing(saves: seq<Save>, actions: seq<Action>, states: seq<State>, k: nat, i: nat)
    requires DistinctTmp(saves) && IsRun(saves, actions, states) && k < |saves| && i < |states|
    requires states[i].phases[k] == Done
    ensures saves[k].Tmp() !in states[i].files
  {
    if i > 0 {
      var a := actions[i - 1];
      if states[i - 1].phases[k] == Done {
        DoneLeavesNothing(saves, actions, states, k, i - 1);
        OthersLeaveItGone(saves, states[i - 1], a, k);
      } else {
        RenameFindsItsFile(saves, actions, states, i - 1);
      }
    }
  }

  /** Nor has one whose rename failed and whose cleanup went through, as long as nothing more is saved. */
  lemma CleanupLeavesNothing(saves: seq<Save>, s: State, k: nat)
    requires |s.phases| == |saves| && Enabled(saves, s, Cleanup(k))
    ensures var s' := Next(saves, s, Cleanup(k));
            s'.phases[k] == Failed && saves[k].Tmp() !in s'.files && Visible(s'.files) == Visible(s.files)
  {
    NamesDoNotMeet(saves[k]);
    VisibleRemove(s.files, saves[k].Tmp());
  }

  /** An orphaned staging file stays for good: later saves use other names, so none of them removes it. */
  lemma {:induction false} OrphansStay(saves: seq<Save>, actions: seq<Action>, states: seq<State>, k: nat, i: nat,
                                       j: nat)
    requires DistinctTmp(saves) && IsRun(saves, actions, states) && k < |saves| && i <= j < |states|
    requires (states[i].phases[k].Crashed? || states[i].phases[k].Failed?) && saves[k].Tmp() in states[i].files
    ensures states[j].phases[k].Crashed? || states[j].phases[k].Failed?
    ensures saves[k].Tmp() in states[j].files && states[j].files[saves[k].Tmp()] == states[i].files[saves[k].Tmp()]
  {
    if i < j {
      OrphansStay(saves, actions, states, k, i, j - 1);
      OthersKeepTheirFile(saves, states[j - 1], actions[j - 1], k);
    }
  }

  /** Orphans do occur: a crash right after the file was opened leaves one, whatever the save. */
  lemma CrashLeavesOrphan(save: Save, files: Files) returns (actions: seq<Action>, states: seq<State>)
    ensures IsRun([save], actions, states) && DistinctTmp([save]) && states[0].files == files
    ensures var last := states[|states| - 1];
            last.phases[0].Crashed? && save.Tmp() in last.files && last.files[save.Tmp()] == ""
  {
    actions := [Open(0), Crash(0)];
    var s0 := State(files, [Called]);
    var s1 := Next([save], s0, actions[0]);
    states := [s0, s1, Next([save], s1, actions[1])];
  }

  // ----- What a save can do -----------------------------------------------------------------------

  /** Left alone, a save written in two parts, cut anywhere, replaces its conversation and leaves nothing else. */
  lemma SaveGoesThrough(save: Save, files: Files, cut: nat) returns (actions: seq<Action>, states: seq<State>)
    requires cut <= |save.body| && save.Tmp() !in files
    ensures IsRun([save], actions, states) && states[0].files == files
    ensures var last := states[|states| - 1]; last.phases[0] == Done && last.files == files[save.Final() := save.body]
  {
    var saves := [save];
    actions := [Open(0), Append(0, cut), Append(0, |save.body|), FinishWrite(0), Rename(0)];
    var s0 := State(files, [Called]);
    var s1 := Next(saves, s0, actions[0]);
    var s2 := Next(saves, s1, actions[1]);
    var s3 := Next(saves, s2, actions[2]);
    var s4 := Next(saves, s3, actions[3]);
    var s5 := Next(saves, s4, actions[4]);
    states := [s0, s1, s2, s3, s4, s5];
    NamesDoNotMeet(save);
    assert save.body[..|save.body|] == save.body;
  }

  /** If the rename is refused and the cleanup goes through, everything is as before. */
  lemma RefusedSaveChangesNothing(save: Save, files: Files) returns (actions: seq<Action>, states: seq<State>)
    requires save.Tmp() !in files
    ensures IsRun([save], actions, states) && states[0].files == files
    ensures var last := states[|states| - 1]; last.phases[0] == Failed && last.files == files
  {
    var saves := [save];
    actions := [Open(0), Append(0, |save.body|), FinishWrite(0), RenameFails(0), Cleanup(0)];
    var s0 := State(files, [Called]);
    var s1 := Next(saves, s0, actions[0]);
    var s2 := Next(saves, s1, actions[1]);
    var s3 := Next(saves, s2, actions[2]);
    var s4 := Next(saves, s3, actions[3]);
    var s5 := Next(saves, s4, actions[4]);
    states := [s0, s1, s2, s3, s4, s5];
    assert s5.files == files;
  }

  // ----- Why the staging names must differ ------------------------------------------------------

  /** With one shared staging name, a second writer's fresh file is renamed over the conversation. */
  lemma SharedTmpTears(first: Save, second: Save, files: Files) returns (actions: seq<Action>, states: seq<State>)
    requires first.Tmp() == second.Tmp() && first.body != "" && second.body != ""
    ensures IsRun([first, second], actions, states) && states[0].files == files
    ensures var last := states[|states| - 1].files;
            first.Final() in last && last[first.Final()] != first.body && last[first.Final()] != second.body
  {
    var saves := [first, second];
    actions := [Open(0), Append(0, |first.body|), FinishWrite(0), Open(1), Rename(0)];
    var s0 := State(files, [Called, Called]);
    var s1 := Next(saves, s0, actions[0]);
    var s2 := Next(saves, s1, actions[1]);
    var s3 := Next(saves, s2, actions[2]);
    var s4 := Next(saves, s3, actions[3]);
    var s5 := Next(saves, s4, actions[4]);
    states := [s0, s1, s2, s3, s4, s5];
    assert s5.files[first.Final()] == "";
  }
}
