/** `apply_upgrade`: token, backup, image swap, restart, health, version, and the rollback that undoes the
    swap. What docker, the clock and the network answer is a `World`. */
module Upgrade {
  import opened Prelude
  import opened PyText
  import opened ComposeSplice

  datatype StepName = Token | Backup | SwapCompose | UpBookorbit | HealthPoll | VerifyVersion | Rollback

  datatype Step = Step(name: StepName, ok: bool)

  const MAIN_STEPS := 6
  const MIN_BACKUP := 1024
  const REPOSITORY := "ghcr.io/bookorbit/bookorbit"

  /** The order of the steps of the upgrade proper. */
  function NameAt(i: int): StepName {
    if i == 0 then Token else if i == 1 then Backup else if i == 2 then SwapCompose
    else if i == 3 then UpBookorbit else if i == 4 then HealthPoll else VerifyVersion
  }

  /** How a file write ends: `Torn` is an `OSError` that left the file holding some other text. */
  datatype Writing = Written | Torn(left: string)

  datatype World = World(
    submittedToken: string, expectedToken: string, now: int, expiresAt: int,
    dumpCode: int, dumpSize: Option<nat>,
    swapWrite: Writing,
    upCode: int,
    polls: seq<bool>,
    appVersion: Option<string>, runningImage: string,
    rollbackWrite: Writing, rollbackCode: int)

  /** What was done to the host, in order. */
  datatype Effect = Dumped(size: nat) | Wrote(text: string) | Restarted(text: string)

  function LStripV(s: string): (r: string)
    ensures r != [] ==> r[0] != 'v'
    ensures |r| <= |s| && r == s[|s| - |r|..]
  {
    if s != [] && s[0] == 'v' then LStripV(s[1..]) else s
  }

  function NewRef(target: string): string {
    REPOSITORY + ":" + LStripV(target)
  }

  predicate TokenAccepted(w: World) {
    w.submittedToken == w.expectedToken && w.now <= w.expiresAt
  }

  predicate BackedUp(w: World) {
    w.dumpCode == 0 && w.dumpSize.Some? && w.dumpSize.value >= MIN_BACKUP
  }

  predicate EndsWith(s: string, suffix: string) {
    |suffix| <= |s| && s[|s| - |suffix|..] == suffix
  }

  predicate VersionShown(w: World, target: string) {
    || (w.appVersion.Some? && LStripV(w.appVersion.value) == LStripV(target))
    || EndsWith(w.runningImage, ":" + LStripV(target))
  }

  /** Everything after the swap went well. */
  predicate ComesUp(w: World, target: string) {
    w.upCode == 0 && true in w.polls && VersionShown(w, target)
  }

  /** The steps from the restart on, up to the first failure. */
  function UpSteps(w: World, target: string): seq<Step> {
    if w.upCode != 0 then [Step(UpBookorbit, false)]
    else if true !in w.polls then [Step(UpBookorbit, true), Step(HealthPoll, false)]
    else [Step(UpBookorbit, true), Step(HealthPoll, true), Step(VerifyVersion, VersionShown(w, target))]
  }

  /** A splice on the file: the text it leaves, given how the write ends. */
  function Spliced(before: string, ref: string, writing: Writing): string {
    var r := SwapImage(before, ref);
    if !r.Swapped? then before else if writing.Torn? then writing.left else r.text
  }

  // What a finished attempt must look like.

  ghost predicate RolledBackLast(steps: seq<Step>) {
    steps != [] && steps[|steps| - 1].name == Rollback
  }

  /** The steps of the upgrade proper. */
  ghost function MainSteps(steps: seq<Step>): seq<Step> {
    if RolledBackLast(steps) then steps[..|steps| - 1] else steps
  }

  ghost predicate InOrder(steps: seq<Step>) {
    |steps| <= MAIN_STEPS && forall i :: 0 <= i < |steps| ==> steps[i].name == NameAt(i)
  }

  ghost predicate OkBefore(steps: seq<Step>, n: int) {
    forall i :: 0 <= i < n && i < |steps| ==> steps[i].ok
  }

  /** The steps ran in order and stopped at the first failure; success means all six and every one ok; a
      rollback follows exactly a failure after the swap, once, at the end. */
  ghost predicate Ledger(steps: seq<Step>, success: bool) {
    var done := MainSteps(steps);
    && done != [] && InOrder(done) && OkBefore(done, |done| - 1)
    && (success <==> |done| == MAIN_STEPS && OkBefore(done, |done|))
    && (!success ==> !done[|done| - 1].ok)
    && (RolledBackLast(steps) <==> !success && |done| > 3)
  }

  /** The file is written only once a large enough dump exists. */
  ghost predicate BackupFirst(trace: seq<Effect>) {
    forall i :: 0 <= i < |trace| && trace[i].Wrote? ==>
      exists j :: 0 <= j < i && trace[j].Dumped? && trace[j].size >= MIN_BACKUP
  }

  ghost predicate NoSpace(s: string) {
    forall i :: 0 <= i < |s| ==> !IsSpace(s[i])
  }

  /** After the swap: the steps, the text and the effects. */
  function CompleteSteps(w: World, target: string, rolledBack: bool): seq<Step> {
    UpSteps(w, target) + if ComesUp(w, target) then [] else [Step(Rollback, rolledBack)]
  }

  function CompleteText(swapped: string, oldRef: string, w: World, target: string): string {
    if ComesUp(w, target) then swapped else Spliced(swapped, oldRef, w.rollbackWrite)
  }

  function CompleteEffects(swapped: string, oldRef: string, w: World, target: string): seq<Effect> {
    [Restarted(swapped)] + if ComesUp(w, target) then [] else UndoEffects(swapped, oldRef, w)
  }

  function UndoEffects(swapped: string, oldRef: string, w: World): seq<Effect> {
    var after := Spliced(swapped, oldRef, w.rollbackWrite);
    (if SwapImage(swapped, oldRef).Swapped? then [Wrote(after)] else []) + [Restarted(after)]
  }

  /** From the swap on: the steps, the text and the effects. */
  function SwapSteps(found: bool, w: World, target: string, rolledBack: bool): seq<Step> {
    [Step(SwapCompose, found)] + if found then CompleteSteps(w, target, rolledBack) else []
  }

  function TextAfter(before: string, w: World, target: string): string {
    var r, swapped := SwapImage(before, NewRef(target)), Spliced(before, NewRef(target), w.swapWrite);
    if r.Swapped? && w.swapWrite.Written? then CompleteText(swapped, r.oldRef, w, target) else swapped
  }

  function EffectsAfter(before: string, w: World, target: string): seq<Effect> {
    var r, swapped := SwapImage(before, NewRef(target)), Spliced(before, NewRef(target), w.swapWrite);
    if !r.Swapped? then []
    else [Wrote(swapped)] + if w.swapWrite.Torn? then [] else CompleteEffects(swapped, r.oldRef, w, target)
  }

  predicate Succeeds(w: World, target: string, before: string) {
    TokenAccepted(w) && BackedUp(w) && Find(before, 0).Some? && ComesUp(w, target)
  }

  /** A failed attempt leaves the file as it was: untouched without a rollback, and with one exactly restored
      if the rollback could write and the version holds no space. */
  ghost predicate Undone(w: World, target: string, before: string, after: string, rolledBack: bool) {
    && (!rolledBack ==> after == before)
    && (rolledBack && w.rollbackWrite.Written? ==> (after == before <==> NoSpace(LStripV(target))))
    && (rolledBack && w.rollbackWrite.Torn? ==> after == w.rollbackWrite.left)
  }

  lemma PrefixedRef(prefix: string, rest: string)
    requires IsRef(prefix)
    ensures !IsSpace((prefix + rest)[0]) && (IsRef(prefix + rest) <==> NoSpace(rest))
  {
    var ref := prefix + rest;
    assert forall i :: 0 <= i < |rest| ==> rest[i] == ref[|prefix| + i];
    assert forall i :: 0 <= i < |ref| ==> ref[i] == if i < |prefix| then prefix[i] else rest[i - |prefix|];
  }

  lemma RepositoryIsRef()
    ensures IsRef(REPOSITORY) && IsRef(":")
  {
  }

  lemma NewRefIsRef(target: string)
    ensures NewRef(target) != [] && !IsSpace(NewRef(target)[0])
    ensures IsRef(NewRef(target)) <==> NoSpace(LStripV(target))
  {
    RepositoryIsRef();
    PrefixedRef(REPOSITORY, ":");
    PrefixedRef(REPOSITORY + ":", LStripV(target));
  }

  /** What a failure after the swap leaves in the file. */
  lemma RestoredText(before: string, w: World, target: string)
    requires SwapImage(before, NewRef(target)).Swapped? && w.swapWrite.Written? && !ComesUp(w, target)
    ensures Undone(w, target, before, TextAfter(before, w, target), true)
  {
    NewRefIsRef(target);
    Restores(before, NewRef(target));
  }

  // The versions the web endpoint lets through: `^v?\d+\.\d+\.\d+(?:-[A-Za-z0-9.]+)?$`, at most 64 characters.
  // The `$` also matches before one line feed at the end.

  datatype Version = Version(v: string, major: string, minor: string, patch: string, suffix: string, tail: string) {
    function Text(): string {
      v + major + "." + minor + "." + patch + suffix + tail
    }
  }

  predicate IsSuffixChar(c: char) {
    'A' <= c <= 'Z' || 'a' <= c <= 'z' || '0' <= c <= '9' || c == '.'
  }

  predicate IsNumber(digit: char -> bool, s: string) {
    s != [] && forall i :: 0 <= i < |s| ==> digit(s[i])
  }

  predicate IsProper(digit: char -> bool, p: Version) {
    && (p.v == "" || p.v == "v")
    && IsNumber(digit, p.major) && IsNumber(digit, p.minor) && IsNumber(digit, p.patch)
    && (p.suffix == "" ||
        (|p.suffix| >= 2 && p.suffix[0] == '-' && forall i :: 1 <= i < |p.suffix| ==> IsSuffixChar(p.suffix[i])))
    && (p.tail == "" || p.tail == "\n")
  }

  /** `digit` stands for `\d`, which also matches digits of other scripts. */
  ghost predicate IsAccepted(digit: char -> bool, target: string) {
    |target| <= 64 && exists p: Version :: IsProper(digit, p) && p.Text() == target
  }

  lemma NoSpaceAppend(a: string, b: string)
    requires NoSpace(a) && NoSpace(b)
    ensures NoSpace(a + b)
  {
  }

  lemma NumberHasNoSpace(digit: char -> bool, s: string)
    requires IsNumber(digit, s) && forall c :: digit(c) ==> !IsSpace(c)
    ensures NoSpace(s)
  {
  }

  /** An accepted version holds no space, except for a line feed at its very end. */
  lemma AcceptedShape(digit: char -> bool, p: Version) returns (core: string)
    requires IsProper(digit, p) && forall c :: digit(c) ==> !IsSpace(c)
    ensures NoSpace(core) && p.Text() == core + p.tail
  {
    NumberHasNoSpace(digit, p.major);
    NumberHasNoSpace(digit, p.minor);
    NumberHasNoSpace(digit, p.patch);
    NoSpaceAppend(p.v, p.major);
    NoSpaceAppend(p.v + p.major, ".");
    NoSpaceAppend(p.v + p.major + ".", p.minor);
    NoSpaceAppend(p.v + p.major + "." + p.minor, ".");
    NoSpaceAppend(p.v + p.major + "." + p.minor + ".", p.patch);
    core := p.v + p.major + "." + p.minor + "." + p.patch + p.suffix;
    NoSpaceAppend(p.v + p.major + "." + p.minor + "." + p.patch, p.suffix);
  }

  lemma BreaksAtEnd(target: string)
    requires LStripV(target) != [] && LStripV(target)[|LStripV(target)| - 1] == '\n'
    ensures HasBreak(NewRef(target))
  {
    hide LStripV;
    assert NewRef(target)[|NewRef(target)| - 1] == '\n';
  }

  lemma SuffixHasNoSpace(core: string)
    ensures NoSpace(core) ==> NoSpace(LStripV(core))
  {
    hide LStripV, IsSpace;
    var r := LStripV(core);
    assert forall i :: 0 <= i < |r| ==> r[i] == core[|core| - |r| + i];
  }

  lemma StrippedTail(core: string)
    ensures NoSpace(core) ==> NoSpace(LStripV(core))
    ensures HasBreak(NewRef(core + "\n"))
  {
    hide HasBreak, IsSpace;
    var target := core + "\n";
    LStripKeepsEnd(target);
    BreaksAtEnd(target);
    SuffixHasNoSpace(core);
  }

  lemma {:induction false} LStripKeepsEnd(s: string)
    requires s != [] && s[|s| - 1] != 'v'
    ensures LStripV(s) != [] && LStripV(s)[|LStripV(s)| - 1] == s[|s| - 1]
  {
    if s[0] == 'v' {
      LStripKeepsEnd(s[1..]);
    }
  }

  /** For every version the endpoint accepts, either the swap raises before anything is written, or a rollback
      that can write restores the file exactly. */
  lemma AcceptedVersionRestores(digit: char -> bool, before: string, w: World, target: string)
    requires IsAccepted(digit, target) && forall c :: digit(c) ==> !IsSpace(c)
    requires w.swapWrite.Written? && w.rollbackWrite.Written? && !ComesUp(w, target)
    ensures SwapImage(before, NewRef(target)).BadRef? <==> target != [] && target[|target| - 1] == '\n'
    ensures TextAfter(before, w, target) == before
  {
    hide IsProper, ComesUp, IsRef, SwapImage, Spliced, NewRef, LStripV, NoSpace, HasBreak, CompleteText;
    var p: Version :| IsProper(digit, p) && p.Text() == target;
    var core := AcceptedShape(digit, p);
    TailOf(digit, p);
    AcceptedBreaks(core, p.tail);
    if SwapImage(before, NewRef(target)).Swapped? {
      NoSpaceHere(core, p.tail);
      RestoredText(before, w, target);
    } else {
      NothingSpliced(before, w, target);
    }
  }

  lemma NothingSpliced(before: string, w: World, target: string)
    requires !SwapImage(before, NewRef(target)).Swapped?
    ensures TextAfter(before, w, target) == before
  {
  }

  /** The reference of an accepted version holds a line break exactly when the version ends in one. */
  lemma AcceptedBreaks(core: string, tail: string)
    requires NoSpace(core) && (tail == "" || tail == "\n")
    ensures HasBreak(NewRef(core + tail)) <==> tail == "\n"
  {
    hide LStripV, HasBreak, NoSpace, NewRef;
    StrippedTail(core);
    if tail == "" {
      assert core + tail == core;
      NewRefIsRef(core);
      RefHasNoBreak(NewRef(core));
    }
  }

  lemma NoSpaceHere(core: string, tail: string)
    requires NoSpace(core) && (tail == "" || tail == "\n") && !HasBreak(NewRef(core + tail))
    ensures NoSpace(LStripV(core + tail))
  {
    hide LStripV, NoSpace, NewRef, HasBreak;
    AcceptedBreaks(core, tail);
    StrippedTail(core);
    assert core + "" == core;
  }

  lemma RefHasNoBreak(ref: string)
    requires IsRef(ref)
    ensures !HasBreak(ref)
  {
  }

  lemma TailOf(digit: char -> bool, p: Version)
    requires IsProper(digit, p) && forall c :: digit(c) ==> !IsSpace(c)
    ensures p.tail == "" || p.tail == "\n"
    ensures p.tail == "\n" <==> p.Text() != [] && p.Text()[|p.Text()| - 1] == '\n'
  {
    if p.tail == "" {
      var t := p.Text();
      assert t[|t| - 1] == if p.suffix != "" then p.suffix[|p.suffix| - 1] else p.patch[|p.patch| - 1];
    }
  }

  /** The steps of an upgrade that got as far as the swap. */
  function DoneSteps(found: bool, w: World, target: string): seq<Step> {
    [Step(Token, true), Step(Backup, true), Step(SwapCompose, found)] + if found then UpSteps(w, target) else []
  }

  lemma UpStepsShape(w: World, target: string)
    ensures var run := UpSteps(w, target);
      && 1 <= |run| <= 3 && OkBefore(run, |run| - 1) && run[|run| - 1].ok == ComesUp(w, target)
      && (ComesUp(w, target) ==> |run| == 3)
      && forall i :: 0 <= i < |run| ==> run[i].name == NameAt(3 + i)
  {
  }

  lemma DoneShape(found: bool, w: World, target: string)
    ensures var done := DoneSteps(found, w, target);
      && 3 <= |done| && InOrder(done) && OkBefore(done, |done| - 1)
      && done[|done| - 1].ok == (found && ComesUp(w, target))
      && (|done| > 3 <==> found) && (found && ComesUp(w, target) ==> |done| == 6)
  {
    hide UpSteps, ComesUp;
    UpStepsShape(w, target);
    var done, run := DoneSteps(found, w, target), UpSteps(w, target);
    assert done[0] == Step(Token, true) && done[1] == Step(Backup, true) && done[2] == Step(SwapCompose, found);
    assert found ==> |done| == 3 + |run| && forall i :: 3 <= i < |done| ==> done[i] == run[i - 3];
  }

  lemma LedgerOf(done: seq<Step>, rolledBack: Option<bool>)
    requires done != [] && InOrder(done) && OkBefore(done, |done| - 1)
    requires done[|done| - 1].ok ==> |done| == 6
    requires rolledBack.Some? <==> !done[|done| - 1].ok && |done| > 3
    ensures var steps := done + if rolledBack.Some? then [Step(Rollback, rolledBack.value)] else [];
      Ledger(steps, done[|done| - 1].ok) && (RolledBackLast(steps) <==> rolledBack.Some?)
  {
    var steps := done + if rolledBack.Some? then [Step(Rollback, rolledBack.value)] else [];
    assert rolledBack.None? ==> steps == done;
    assert done[|done| - 1].name == NameAt(|done| - 1) != Rollback;
    assert MainSteps(steps) == done;
  }

  lemma FinishedLedger(found: bool, w: World, target: string, rolledBack: bool)
    ensures var steps := [Step(Token, true), Step(Backup, true)] + SwapSteps(found, w, target, rolledBack);
      Ledger(steps, found && ComesUp(w, target)) && (RolledBackLast(steps) <==> found && !ComesUp(w, target))
  {
    hide ComesUp, UpSteps, Ledger, RolledBackLast, InOrder, OkBefore;
    var steps := [Step(Token, true), Step(Backup, true)] + SwapSteps(found, w, target, rolledBack);
    var undo := if found && !ComesUp(w, target) then Some(rolledBack) else None;
    DoneShape(found, w, target);
    LedgerOf(DoneSteps(found, w, target), undo);
    assert steps == DoneSteps(found, w, target) + if undo.Some? then [Step(Rollback, rolledBack)] else [];
  }

  ghost predicate ShowsNew(target: string, before: string, after: string) {
    SwapImage(before, NewRef(target)).Swapped? && after == SwapImage(before, NewRef(target)).text
  }

  lemma TextAfterSwap(before: string, w: World, target: string)
    ensures var r, after := SwapImage(before, NewRef(target)), TextAfter(before, w, target);
      && (!r.Swapped? ==> after == before)
      && (r.Swapped? && w.swapWrite.Written? && ComesUp(w, target) ==> ShowsNew(target, before, after))
      && (r.Swapped? && w.swapWrite.Written? && !ComesUp(w, target) ==> Undone(w, target, before, after, true))
  {
    hide ComesUp;
    var r := SwapImage(before, NewRef(target));
    if r.Swapped? && w.swapWrite.Written? && !ComesUp(w, target) {
      RestoredText(before, w, target);
    }
  }

  lemma FoundWhenSwapped(before: string, target: string)
    ensures var r := SwapImage(before, NewRef(target)); !r.BadRef? ==> (r.Swapped? <==> Find(before, 0).Some?)
  {
  }

  /** What the swap and all that follows amount to. */
  lemma AfterSwap(before: string, w: World, target: string, rolledBack: bool)
    ensures var r := SwapImage(before, NewRef(target));
      var raised, success := r.BadRef? || (r.Swapped? && w.swapWrite.Torn?), r.Swapped? && ComesUp(w, target);
      var steps := [Step(Token, true), Step(Backup, true)] + SwapSteps(r.Swapped?, w, target, rolledBack);
      var after := TextAfter(before, w, target);
      && (raised && after != before ==> w.swapWrite.Torn?)
      && (!raised ==> Ledger(steps, success) && (r.Swapped? <==> Find(before, 0).Some?))
      && (!raised && success ==> ShowsNew(target, before, after))
      && (!raised && !success ==> Undone(w, target, before, after, RolledBackLast(steps)))
  {
    hide SwapImage, ComesUp, Ledger, ShowsNew, TextAfter, SwapSteps, RolledBackLast, NewRef;
    FinishedLedger(SwapImage(before, NewRef(target)).Swapped?, w, target, rolledBack);
    TextAfterSwap(before, w, target);
    FoundWhenSwapped(before, target);
  }

  lemma DumpComesFirst(size: nat, rest: seq<Effect>)
    requires size >= MIN_BACKUP
    ensures BackupFirst([Dumped(size)] + rest)
  {
    var trace := [Dumped(size)] + rest;
    assert trace[0] == Dumped(size);
  }

  lemma NothingWritten()
    ensures BackupFirst([])
  {
  }

  lemma DumpedEnough(w: World)
    requires BackedUp(w)
    ensures w.dumpSize.Some? && w.dumpSize.value >= MIN_BACKUP
  {
  }

  lemma Regrouped<T>(a: seq<T>, b: seq<T>, c: seq<T>)
    ensures (a + b) + c == a + (b + c)
  {
  }

  /** An attempt: the result object, and the compose file and the dump it works on. */
  class Attempt {
    var compose: string
    var dump: Option<nat>
    var steps: seq<Step>
    var success: bool
    var rolledBack: bool
    var finalVersion: Option<string>
    ghost var trace: seq<Effect>

    constructor (compose: string)
      ensures this.compose == compose
      ensures dump == None && steps == [] && !success && !rolledBack && finalVersion == None && trace == []
    {
      this.compose := compose;
      dump, steps, success, rolledBack, finalVersion, trace := None, [], false, false, None, [];
    }

    method Finish(name: StepName, ok: bool)
      modifies `steps
      ensures steps == old(steps) + [Step(name, ok)]
    {
      steps := steps + [Step(name, ok)];
    }

    /** A dump that failed or is too small is removed again. */
    method BackUp(w: World) returns (ok: bool)
      modifies `steps, `dump, `trace
      ensures ok == BackedUp(w)
      ensures steps == old(steps) + [Step(Backup, ok)]
      ensures if ok then dump == w.dumpSize && trace == old(trace) + [Dumped(dump.value)]
              else dump == None && trace == old(trace)
    {
      dump := w.dumpSize;
      ok := w.dumpCode == 0 && dump.Some? && dump.value >= MIN_BACKUP;
      if ok {
        trace := trace + [Dumped(dump.value)];
      } else {
        dump := None;
      }
      Finish(Backup, ok);
    }

    method SwapFile(ref: string, writing: Writing) returns (r: Swap, torn: bool)
      modifies `compose, `trace
      ensures r == SwapImage(old(compose), ref) && torn == (r.Swapped? && writing.Torn?)
      ensures compose == Spliced(old(compose), ref, writing)
      ensures trace == if r.Swapped? then old(trace) + [Wrote(compose)] else old(trace)
    {
      hide SwapImage;
      r, torn := SwapImage(compose, ref), false;
      if r.Swapped? {
        torn := writing.Torn?;
        compose := if torn then writing.left else r.text;
        trace := trace + [Wrote(compose)];
      }
    }

    method RollBack(oldRef: string, w: World)
      modifies `compose, `steps, `rolledBack, `trace
      ensures compose == Spliced(old(compose), oldRef, w.rollbackWrite)
      ensures rolledBack == (w.rollbackCode == 0)
      ensures steps == old(steps) + [Step(Rollback, rolledBack)]
      ensures trace == old(trace)
        + UndoEffects(old(compose), oldRef, w)
    {
      hide SwapImage;
      var _, _ := SwapFile(oldRef, w.rollbackWrite);
      trace := trace + [Restarted(compose)];
      rolledBack := w.rollbackCode == 0;
      Finish(Rollback, rolledBack);
    }

    method PollHealth(polls: seq<bool>) returns (healthy: bool)
      ensures healthy == (true in polls)
    {
      var i := 0;
      healthy := false;
      while i < |polls| && !healthy
        invariant i <= |polls|
        invariant healthy == (true in polls[..i])
      {
        healthy := polls[i];
        i := i + 1;
        assert polls[..i] == polls[..i - 1] + [polls[i - 1]];
      }
    }

    method VerifyRunning(w: World, target: string) returns (ok: bool)
      modifies `steps, `finalVersion
      ensures ok == VersionShown(w, target)
      ensures steps == old(steps) + [Step(VerifyVersion, ok)]
      ensures finalVersion == if ok then Some(LStripV(target)) else old(finalVersion)
    {
      if w.appVersion.Some? && LStripV(w.appVersion.value) == LStripV(target) {
        finalVersion := Some(LStripV(w.appVersion.value));
        ok := true;
      } else {
        ok := EndsWith(w.runningImage, ":" + LStripV(target));
        if ok {
          finalVersion := Some(LStripV(target));
        }
      }
      Finish(VerifyVersion, ok);
    }

    /** Restart, health and version, up to the first failure. */
    method BringUp(w: World, target: string) returns (ok: bool)
      modifies `steps, `finalVersion, `trace
      ensures ok == ComesUp(w, target)
      ensures steps == old(steps) + UpSteps(w, target)
      ensures trace == old(trace) + [Restarted(compose)]
      ensures finalVersion == if ok then Some(LStripV(target)) else old(finalVersion)
    {
      hide VersionShown;
      ghost var before := steps;
      trace := trace + [Restarted(compose)];
      Finish(UpBookorbit, w.upCode == 0);
      if w.upCode != 0 {
        return false;
      }
      var healthy := PollHealth(w.polls);
      Finish(HealthPoll, healthy);
      assert steps == before + [Step(UpBookorbit, true), Step(HealthPoll, healthy)];
      if !healthy {
        return false;
      }
      ok := VerifyRunning(w, target);
      assert steps == before + [Step(UpBookorbit, true), Step(HealthPoll, true), Step(VerifyVersion, ok)];
    }

    /** After the swap: either the new version runs, or the old reference is put back. */
    method Complete(oldRef: string, w: World, target: string)
      requires !success && finalVersion == None
      modifies `compose, `steps, `success, `rolledBack, `finalVersion, `trace
      ensures success == ComesUp(w, target)
      ensures steps == old(steps) + CompleteSteps(w, target, rolledBack)
      ensures compose == CompleteText(old(compose), oldRef, w, target)
      ensures trace == old(trace) + CompleteEffects(old(compose), oldRef, w, target)
      ensures finalVersion == if success then Some(LStripV(target)) else None
    {
      hide SwapImage, UpSteps, Spliced, ComesUp;
      success := BringUp(w, target);
      if !success {
        RollBack(oldRef, w);
      }
    }

    /** From the swap on. An exception escapes when the reference holds a line break or the write of the
        swap fails. */
    method SwapAndVerify(w: World, target: string) returns (raised: bool)
      requires !success && finalVersion == None
      modifies `compose, `steps, `success, `rolledBack, `finalVersion, `trace
      ensures var r := SwapImage(old(compose), NewRef(target));
        && raised == (r.BadRef? || (r.Swapped? && w.swapWrite.Torn?))
        && success == (r.Swapped? && !raised && ComesUp(w, target))
        && (!raised ==> steps == old(steps) + SwapSteps(r.Swapped?, w, target, rolledBack))
      ensures compose == TextAfter(old(compose), w, target)
      ensures trace == old(trace) + EffectsAfter(old(compose), w, target)
      ensures finalVersion == if success then Some(LStripV(target)) else None
    {
      hide SwapImage, Spliced, CompleteSteps, CompleteText, CompleteEffects, ComesUp, NewRef, LStripV;
      var swap, torn := SwapFile(NewRef(target), w.swapWrite);
      if swap.BadRef? || torn {
        return true;
      }
      Finish(SwapCompose, swap.Swapped?);
      if swap.NotFound? {
        return false;
      }
      ghost var swapped := compose;
      Complete(swap.oldRef, w, target);
      Regrouped(old(steps), [Step(SwapCompose, true)], CompleteSteps(w, target, rolledBack));
      Regrouped(old(trace), [Wrote(swapped)], CompleteEffects(swapped, swap.oldRef, w, target));
      return false;
    }

    /** Token and backup; nothing else happens before both are fine. */
    method Preflight(w: World) returns (ok: bool)
      requires steps == [] && trace == [] && dump == None
      modifies `steps, `dump, `trace
      ensures ok == (TokenAccepted(w) && BackedUp(w))
      ensures ok ==> steps == [Step(Token, true), Step(Backup, true)]
      ensures ok ==> dump == w.dumpSize && trace == [Dumped(dump.value)]
      ensures !ok ==> dump == None && trace == [] && Ledger(steps, false) && !RolledBackLast(steps)
    {
      Finish(Token, TokenAccepted(w));
      ok := TokenAccepted(w);
      if ok {
        ok := BackUp(w);
      }
    }

    /** The swap and all that follows, once token and backup are fine. */
    method Proceed(w: World, target: string) returns (raised: bool)
      requires !success && finalVersion == None && TokenAccepted(w) && BackedUp(w)
      requires steps == [Step(Token, true), Step(Backup, true)]
      modifies `compose, `steps, `success, `rolledBack, `finalVersion, `trace
      ensures raised ==> !success && (compose != old(compose) ==> w.swapWrite.Torn?)
      ensures !raised ==> Ledger(steps, success) && (success <==> Succeeds(w, target, old(compose)))
      ensures success ==> ShowsNew(target, old(compose), compose) && finalVersion == Some(LStripV(target))
      ensures !raised && !success ==> Undone(w, target, old(compose), compose, RolledBackLast(steps))
      ensures trace == old(trace) + EffectsAfter(old(compose), w, target)
    {
      hide SwapImage, SwapSteps, TextAfter, EffectsAfter, Ledger, ShowsNew;
      hide Undone, RolledBackLast, ComesUp, NewRef, LStripV;
      raised := SwapAndVerify(w, target);
      AfterSwap(old(compose), w, target, rolledBack);
    }

    /** The whole upgrade. */
    method Apply(w: World, target: string) returns (raised: bool)
      requires steps == [] && trace == [] && dump == None && !success && !rolledBack && finalVersion == None
      modifies this
      ensures raised ==> !success && (compose != old(compose) ==> w.swapWrite.Torn?)
      ensures !raised ==> Ledger(steps, success) && (success <==> Succeeds(w, target, old(compose)))
      ensures success ==> ShowsNew(target, old(compose), compose) && finalVersion == Some(LStripV(target))
      ensures !raised && !success ==> Undone(w, target, old(compose), compose, RolledBackLast(steps))
      ensures dump.Some? <==> TokenAccepted(w) && BackedUp(w)
      ensures dump.Some? ==> dump.value >= MIN_BACKUP
      ensures BackupFirst(trace) && (dump == None ==> trace == [])
    {
      hide SwapImage, EffectsAfter, Ledger, ShowsNew, RolledBackLast, ComesUp, BackupFirst, TokenAccepted, LStripV;
      NothingWritten();
      var ok := Preflight(w);
      if !ok {
        return false;
      }
      DumpedEnough(w);
      DumpComesFirst(dump.value, EffectsAfter(old(compose), w, target));
      raised := Proceed(w, target);
    }
  }
}
