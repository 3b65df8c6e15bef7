/** Replacing the application's own binary: the files beside it, operations any of which
    may fail, and a stop possible between any two. */
module SelfUpdate {

  /** The program's own path, and what may lie beside it under that path: .old, .new,
      .pending and .failed. */
  datatype Place = Self | Old | New | Pending | Failed

  /** A program has a checksum and what it answers when asked its version, if it runs. */
  datatype File = Program(sum: string, answer: string) | Note(version: string) | Incomplete

  type Files = map<Place, File>

  function Sum(f: File): string {
    match f
    case Program(sum, _) => sum
    case Note(version) => "note " + version
    case Incomplete => "incomplete"
  }

  /** The files, which of the coming operations are to fail, and every state the files have
      been in, which is every state a stop can leave. */
  datatype World = World(files: Files, faults: seq<bool>, seen: seq<Files>) {
    predicate Faulty() {
      faults != [] && faults[0]
    }

    function Then(after: Files): World {
      World(after, if faults == [] then [] else faults[1..], seen + [after])
    }
  }

  // ----- one operation -----

  function Remove(w: World, p: Place): (World, bool) {
    if w.Faulty() || p !in w.files then (w.Then(w.files), false) else (w.Then(w.files - {p}), true)
  }

  /** A rename replaces its target whole or not at all. */
  function Rename(w: World, from: Place, target: Place): (World, bool) {
    if w.Faulty() || from !in w.files then (w.Then(w.files), false)
    else (w.Then((w.files - {from})[target := w.files[from]]), true)
  }

  /** A write that fails may leave the file incomplete. */
  function Write(w: World, p: Place, f: File): (World, bool) {
    if w.Faulty() then (w.Then(w.files[p := Incomplete]), false) else (w.Then(w.files[p := f]), true)
  }

  /** The checksum of a file, where it can be read. */
  function SumOf(w: World, p: Place): (World, string, bool) {
    if w.Faulty() || p !in w.files then (w.Then(w.files), "", false) else (w.Then(w.files), Sum(w.files[p]), true)
  }

  // ----- swap -----

  datatype Outcome =
    | Done
    | CannotMoveAside
    | CannotPutInPlace
    | AlreadyRunning
    | NoBinary
    | NoChecksum
    | AlreadyInstalled
    | DownloadFailed
    | DoesNotRun
    | NothingToGoBackTo
    | CannotPutBack

  function Swap(w: World, version: string): (World, Outcome) {
    var cleared := Remove(w, Old).0;
    var (aside, moved) := Rename(cleared, Self, Old);
    if !moved then (aside, CannotMoveAside)
    else
      var (placed, put) := Rename(aside, New, Self);
      if !put then (Rename(placed, Old, Self).0, CannotPutInPlace)
      else (Write(placed, Pending, Note(version)).0, Done)
  }

  /** What a release offers: whether there is a binary for this platform, the published
      checksum where it could be fetched, and what downloading it brings. */
  datatype Release = Release(version: string, hasBinary: bool, sum: string, sumKnown: bool, arrives: File)

  /** An install: the guard, what is staged and swapped in, and at the end the removal of what
      is staged still. */
  function Install(w: World, release: Release): (World, Outcome) {
    if !release.hasBinary then (w, NoBinary)
    else if !release.sumKnown then (w, NoChecksum)
    else
      var (read, have, known) := SumOf(w, Self);
      if known && have == release.sum then (read, AlreadyInstalled)
      else
        var (staged, outcome) := Stage(read, release);
        (Remove(staged, New).0, outcome)
  }

  /** Whether a file starts here and says that it is a version. */
  predicate Runs(f: File, version: string) {
    f.Program? && f.answer != "" && f.answer == version
  }

  function Stage(w: World, release: Release): (World, Outcome) {
    var (downloaded, whole) := Write(w, New, release.arrives);
    if !whole || Sum(release.arrives) != release.sum then (downloaded, DownloadFailed)
    else if Runs(release.arrives, release.version) then Swap(downloaded, release.version)
    else (downloaded, DoesNotRun)
  }

  function Rollback(w: World): (World, Outcome) {
    var (looked, _, found) := SumOf(w, Old);
    if !found then (looked, NothingToGoBackTo)
    else
      var cleared := Remove(looked, Failed).0;
      var aside := Rename(cleared, Self, Failed).0;
      var (placed, put) := Rename(aside, Old, Self);
      if !put then (Rename(placed, Failed, Self).0, CannotPutBack)
      else (Remove(placed, Pending).0, Done)
  }

  function Cleanup(w: World): World {
    Remove(Remove(w, Pending).0, New).0
  }

  // ----- the running program -----

  class Updater {
    var files: Files
    var faults: seq<bool>
    var installing: bool
    ghost var seen: seq<Files>

    ghost function Now(): World
      reads this
    {
      World(files, faults, seen)
    }

    constructor (files: Files, faults: seq<bool>)
      ensures Now() == World(files, faults, []) && !installing
    {
      this.files, this.faults, installing, seen := files, faults, false, [];
    }

    method Fault() returns (fails: bool)
      modifies this`faults
      ensures fails == old(Now()).Faulty()
      ensures faults == if old(faults) == [] then [] else old(faults)[1..]
    {
      fails := faults != [] && faults[0];
      faults := if faults == [] then [] else faults[1..];
    }

    method DoRemove(p: Place) returns (ok: bool)
      modifies this`files, this`faults, this`seen
      ensures (Now(), ok) == Remove(old(Now()), p)
    {
      var fails := Fault();
      ok := !fails && p in files;
      if ok {
        files := files - {p};
      }
      seen := seen + [files];
    }

    method DoRename(from: Place, target: Place) returns (ok: bool)
      modifies this`files, this`faults, this`seen
      ensures (Now(), ok) == Rename(old(Now()), from, target)
    {
      var fails := Fault();
      ok := !fails && from in files;
      if ok {
        files := (files - {from})[target := files[from]];
      }
      seen := seen + [files];
    }

    method DoWrite(p: Place, f: File) returns (ok: bool)
      modifies this`files, this`faults, this`seen
      ensures (Now(), ok) == Write(old(Now()), p, f)
    {
      var fails := Fault();
      ok := !fails;
      files := files[p := if ok then f else Incomplete];
      seen := seen + [files];
    }

    method DoSumOf(p: Place) returns (sum: string, ok: bool)
      modifies this`files, this`faults, this`seen
      ensures (Now(), sum, ok) == SumOf(old(Now()), p)
    {
      var fails := Fault();
      ok := !fails && p in files;
      sum := if ok then Sum(files[p]) else "";
      seen := seen + [files];
    }

    method SwapIn(version: string) returns (outcome: Outcome)
      modifies this`files, this`faults, this`seen
      ensures (Now(), outcome) == Swap(old(Now()), version)
    {
      var _ := DoRemove(Old);
      var moved := DoRename(Self, Old);
      if !moved {
        return CannotMoveAside;
      }
      var put := DoRename(New, Self);
      if !put {
        var _ := DoRename(Old, Self);
        return CannotPutInPlace;
      }
      var _ := DoWrite(Pending, Note(version));
      return Done;
    }

    method StageIn(release: Release) returns (outcome: Outcome)
      modifies this`files, this`faults, this`seen
      ensures (Now(), outcome) == Stage(old(Now()), release)
    {
      var whole := DoWrite(New, release.arrives);
      if !whole || Sum(release.arrives) != release.sum {
        return DownloadFailed;
      }
      if !Runs(release.arrives, release.version) {
        return DoesNotRun;
      }
      outcome := SwapIn(release.version);
    }

    /** One at a time: a second install is turned away and touches nothing. */
    method InstallOver(release: Release) returns (outcome: Outcome)
      modifies this
      ensures installing == old(installing)
      ensures old(installing) ==> outcome == AlreadyRunning && Now() == old(Now())
      ensures !old(installing) ==> (Now(), outcome) == Install(old(Now()), release)
    {
      if installing {
        return AlreadyRunning;
      }
      installing := true;
      if !release.hasBinary {
        installing := false;
        return NoBinary;
      }
      if !release.sumKnown {
        installing := false;
        return NoChecksum;
      }
      var have, known := DoSumOf(Self);
      if known && have == release.sum {
        installing := false;
        return AlreadyInstalled;
      }
      outcome := StageIn(release);
      var _ := DoRemove(New);
      installing := false;
    }

    method RollbackOver() returns (outcome: Outcome)
      modifies this`files, this`faults, this`seen
      ensures (Now(), outcome) == Rollback(old(Now()))
    {
      var _, found := DoSumOf(Old);
      if !found {
        return NothingToGoBackTo;
      }
      var _ := DoRemove(Failed);
      var _ := DoRename(Self, Failed);
      var put := DoRename(Old, Self);
      if !put {
        var _ := DoRename(Failed, Self);
        return CannotPutBack;
      }
      var _ := DoRemove(Pending);
      return Done;
    }

    method RemoveLeftovers()
      modifies this`files, this`faults, this`seen
      ensures Now() == Cleanup(old(Now()))
    {
      var _ := DoRemove(Pending);
      var _ := DoRemove(New);
    }
  }

  // ----- nothing is lost -----

  /** A file is at the program's own path or aside. */
  ghost predicate IsKept(files: Files, f: File) {
    (Self in files && files[Self] == f) || (Old in files && files[Old] == f)
  }

  /** Some program can still be started or put back. */
  ghost predicate HasBinary(files: Files) {
    Self in files || Old in files
  }

  /** Every state from one moment to another, the states of stopped runs among them. */
  ghost predicate Throughout(w: World, after: World, P: Files -> bool) {
    && |w.seen| <= |after.seen| && after.seen[..|w.seen|] == w.seen
    && (forall k :: |w.seen| <= k < |after.seen| ==> P(after.seen[k]))
    && P(after.files)
  }

  ghost function Keeping(f: File): Files -> bool {
    files => IsKept(files, f)
  }

  /** One operation leaves one state. */
  lemma OneState(w: World, files: Files, P: Files -> bool)
    requires P(files)
    ensures Throughout(w, w.Then(files), P)
  {
  }

  lemma Onwards(w: World, middle: World, after: World, P: Files -> bool)
    requires Throughout(w, middle, P) && Throughout(middle, after, P)
    ensures Throughout(w, after, P)
  {
    forall k | |w.seen| <= k < |after.seen| ensures P(after.seen[k]) {
      if k < |middle.seen| {
        assert after.seen[k] == middle.seen[k];
      }
    }
  }

  lemma Weaker(w: World, after: World, P: Files -> bool, Q: Files -> bool)
    requires Throughout(w, after, P) && forall files :: P(files) ==> Q(files)
    ensures Throughout(w, after, Q)
  {
  }

  /** swap never loses the binary that was at its path, whichever operations fail and
      wherever the process is stopped. */
  lemma SwapKeepsTheBinary(w: World, version: string)
    requires Self in w.files
    ensures var (after, outcome) := Swap(w, version);
            && Throughout(w, after, Keeping(w.files[Self]))
            && (outcome == Done ==> New in w.files && Self in after.files && after.files[Self] == w.files[New]
                                    && Old in after.files && after.files[Old] == w.files[Self] && New !in after.files)
            && (outcome != Done ==> (New in after.files <==> New in w.files))
  {
    hide Throughout;
    var P := Keeping(w.files[Self]);
    var cleared := Remove(w, Old).0;
    OneState(w, cleared.files, P);
    var (aside, moved) := Rename(cleared, Self, Old);
    OneState(cleared, aside.files, P);
    Onwards(w, cleared, aside, P);
    if moved {
      var (placed, put) := Rename(aside, New, Self);
      OneState(aside, placed.files, P);
      Onwards(w, aside, placed, P);
      var last := if put then Write(placed, Pending, Note(version)).0 else Rename(placed, Old, Self).0;
      OneState(placed, last.files, P);
      Onwards(w, placed, last, P);
    }
  }

  /** Where the path is empty, as a stop between the two renames or a put-back that failed
      leaves it, swap throws away the one binary there is. */
  lemma SwapLosesWithoutSelf(files: Files, version: string)
    requires Self !in files && Old in files
    ensures !HasBinary(Swap(World(files, [], []), version).0.files)
  {
  }

  ghost predicate SwapKeepsSome(files: Files, faults: seq<bool>, version: string) {
    Throughout(World(files, faults, []), Swap(World(files, faults, []), version).0, HasBinary)
  }

  /** swap keeps a binary in every run exactly when there is one at the program's path. */
  lemma SwapIsSafeExactlyWithSelf(files: Files, version: string)
    requires HasBinary(files)
    ensures (forall faults :: SwapKeepsSome(files, faults, version)) <==> Self in files
  {
    hide Throughout, Swap;
    if Self in files {
      forall faults ensures SwapKeepsSome(files, faults, version) {
        var w := World(files, faults, []);
        SwapKeepsTheBinary(w, version);
        Weaker(w, Swap(w, version).0, Keeping(files[Self]), HasBinary);
      }
    } else {
      SwapLosesWithoutSelf(files, version);
      var w := World(files, [], []);
      if SwapKeepsSome(files, [], version) {
        LastState(w, Swap(w, version).0, HasBinary);
      }
    }
  }

  lemma StageKeepsTheBinary(w: World, release: Release)
    requires Self in w.files
    ensures var (after, outcome) := Stage(w, release);
            && Throughout(w, after, Keeping(w.files[Self]))
            && (outcome == Done ==>
                  Self in after.files && after.files[Self] == release.arrives == Program(release.sum, release.version)
                  && Old in after.files && after.files[Old] == w.files[Self] && New !in after.files)
  {
    hide Throughout, Swap;
    var P := Keeping(w.files[Self]);
    var downloaded := Write(w, New, release.arrives).0;
    OneState(w, downloaded.files, P);
    SwapKeepsTheBinary(downloaded, release.version);
    Onwards(w, downloaded, Swap(downloaded, release.version).0, P);
  }

  /** An install keeps the running binary throughout; one that succeeds leaves a file with
      the published sum, which says it is the release, and the running one aside. */
  lemma InstallKeepsTheBinary(w: World, release: Release)
    requires Self in w.files
    ensures var (after, outcome) := Install(w, release);
            && Throughout(w, after, Keeping(w.files[Self]))
            && (outcome == Done ==>
                  Self in after.files && after.files[Self] == release.arrives == Program(release.sum, release.version)
                  && Sum(after.files[Self]) == release.sum
                  && Old in after.files && after.files[Old] == w.files[Self] && New !in after.files)
  {
    var P := Keeping(w.files[Self]);
    if release.hasBinary && release.sumKnown {
      hide Throughout, Stage;
      var read := SumOf(w, Self).0;
      OneState(w, read.files, P);
      StageKeepsTheBinary(read, release);
      var staged := Stage(read, release).0;
      Onwards(w, read, staged, P);
      assert P(staged.files) by { LastState(read, staged, P); }
      OneState(staged, Remove(staged, New).0.files, P);
      Onwards(w, staged, Remove(staged, New).0, P);
    }
  }

  lemma LastState(w: World, after: World, P: Files -> bool)
    requires Throughout(w, after, P)
    ensures P(after.files)
  {
  }

  /** Asked for a release that is already in place, an install says so exactly when it can
      read the file, and then touches nothing. */
  lemma AlreadyInstalledTouchesNothing(w: World, release: Release)
    requires release.hasBinary && release.sumKnown
    requires Self in w.files && Sum(w.files[Self]) == release.sum
    ensures Install(w, release).1 == AlreadyInstalled <==> !w.Faulty()
    ensures !w.Faulty() ==> Install(w, release).0.files == w.files
  {
    hide Rename, Write, Remove;
  }

  /** The guard asks the file, and where the file cannot be read at that moment the install
      goes on: the version to go back to is then the release itself. */
  lemma UnreadableFileIsInstalledAgain(w: World, release: Release)
    requires release.hasBinary && release.sumKnown && w.faults == [true]
    requires Self in w.files && w.files[Self] == release.arrives == Program(release.sum, release.version)
    requires release.version != ""
    ensures Install(w, release).1 == Done
    ensures Old in Install(w, release).0.files && Install(w, release).0.files[Old] == release.arrives
  {
  }

  /** Going back puts the file aside at the program's path. */
  lemma RollbackPutsBack(w: World)
    ensures var (after, outcome) := Rollback(w);
            && (outcome == Done ==>
                  Old in w.files && Self in after.files && after.files[Self] == w.files[Old] && Old !in after.files)
            && (Old !in w.files ==> outcome == NothingToGoBackTo && after == w.Then(w.files))
  {
    if Old in w.files {
      var cleared := Remove(SumOf(w, Old).0, Failed).0;
      assert Old in cleared.files && cleared.files[Old] == w.files[Old];
      var aside := Rename(cleared, Self, Failed).0;
      assert Old in aside.files && aside.files[Old] == w.files[Old];
      hide Remove;
      assert Rollback(w).1 == Done ==> Rename(aside, Old, Self).1;
    }
  }

  // ----- what each outcome leaves -----

  /** An install that nothing stands in the way of leaves the release at the path, the binary that
      ran aside and a note of the version that waits for the restart, and no download; no other
      file is touched. */
  lemma UnfaultedInstall(w: World, release: Release)
    requires w.faults == [] && Self in w.files && Sum(w.files[Self]) != release.sum
    requires release.hasBinary && release.sumKnown && release.version != ""
    requires release.arrives == Program(release.sum, release.version)
    ensures var (after, outcome) := Install(w, release);
            var swapped := (w.files - {New})[Old := w.files[Self]][Self := release.arrives];
            outcome == Done && after.files == swapped[Pending := Note(release.version)]
  {
    var read := SumOf(w, Self).0;
    var downloaded := Write(read, New, release.arrives).0;
    var cleared := Remove(downloaded, Old).0;
    var aside := Rename(cleared, Self, Old).0;
    var placed := Rename(aside, New, Self).0;
    assert aside.files == (w.files - {Self})[New := release.arrives][Old := w.files[Self]];
    assert placed.files == (w.files - {New})[Old := w.files[Self]][Self := release.arrives];
  }

  /** Whatever fails, an install that succeeds leaves a note of its version, or a part of one. */
  lemma InstallLeavesANote(w: World, release: Release)
    ensures var (after, outcome) := Install(w, release);
            outcome == Done ==> Pending in after.files && after.files[Pending] in {Note(release.version), Incomplete}
  {
    if release.hasBinary && release.sumKnown {
      var staged := Stage(SumOf(w, Self).0, release).0;
      assert Stage(SumOf(w, Self).0, release).1 == Done ==>
               Pending in staged.files && staged.files[Pending] in {Note(release.version), Incomplete} by {
        var downloaded := Write(SumOf(w, Self).0, New, release.arrives).0;
        SwapLeavesANote(downloaded, release.version);
        hide Swap, Write;
      }
      hide Stage, SumOf;
    }
  }

  lemma SwapLeavesANote(w: World, version: string)
    ensures var (after, outcome) := Swap(w, version);
            outcome == Done ==> Pending in after.files && after.files[Pending] in {Note(version), Incomplete}
  {
    hide Rename, Remove;
  }

  /** What a swap comes to, by the operations that fail: the first does not matter, the second and
      the third decide, and after a third that fails the fourth whether the binary is put back. */
  lemma SwapOutcomes(w: World, version: string)
    ensures var (after, outcome) := Swap(w, version);
            var (stays, cannot) := (Self !in w.files || FaultAt(w, 1), New !in w.files || FaultAt(w, 2));
            && (outcome == CannotMoveAside <==> stays)
            && (outcome == CannotPutInPlace <==> !stays && cannot)
            && (outcome == Done <==> !stays && !cannot)
            && (outcome == CannotMoveAside ==> after.files - {Old} == w.files - {Old})
            && (outcome == CannotPutInPlace ==>
                  && after.files - {Self, Old} == w.files - {Self, Old}
                  && if FaultAt(w, 3)
                     then Self !in after.files && Old in after.files && after.files[Old] == w.files[Self]
                     else Old !in after.files && Self in after.files && after.files[Self] == w.files[Self])
  {
    var cleared := Remove(w, Old).0;
    assert cleared.files - {Old} == w.files - {Old};
    var aside := Rename(cleared, Self, Old).0;
    var placed := Rename(aside, New, Self).0;
    if !(Self !in w.files || FaultAt(w, 1)) {
      assert aside.files - {Self, Old} == w.files - {Self, Old};
      assert Rename(placed, Old, Self).0.files - {Self, Old} == placed.files - {Self, Old};
    }
  }

  /** What a rollback comes to, by the operations that fail. */
  lemma RollbackOutcomes(w: World)
    ensures var outcome := Rollback(w).1;
            && (outcome == NothingToGoBackTo <==> Old !in w.files || FaultAt(w, 0))
            && (outcome == CannotPutBack <==> Old in w.files && !FaultAt(w, 0) && FaultAt(w, 3))
            && (outcome == Done <==> Old in w.files && !FaultAt(w, 0) && !FaultAt(w, 3))
  {
    if Old in w.files && !FaultAt(w, 0) {
      var looked := SumOf(w, Old).0;
      var cleared := Remove(looked, Failed).0;
      assert Old in cleared.files && cleared.faults == if |w.faults| < 2 then [] else w.faults[2..];
      var aside := Rename(cleared, Self, Failed).0;
      assert Old in aside.files && aside.faults == if |w.faults| < 3 then [] else w.faults[3..];
      assert aside.Faulty() <==> FaultAt(w, 3);
      hide Remove;
      assert Rollback(w).1 == if Rename(aside, Old, Self).1 then Done else CannotPutBack;
    }
  }

  /** What an install comes to where no operation fails, by the release and the file in place; the
      first four are left as they were but for a download that lay there. */
  lemma InstallOutcomes(w: World, release: Release)
    requires w.faults == [] && Self in w.files
    ensures var (after, outcome) := Install(w, release);
            && (outcome == NoBinary <==> !release.hasBinary)
            && (outcome == NoChecksum <==> release.hasBinary && !release.sumKnown)
            && (release.hasBinary && release.sumKnown ==>
                  && (outcome == AlreadyInstalled <==> Sum(w.files[Self]) == release.sum)
                  && (outcome == DownloadFailed <==>
                      Sum(w.files[Self]) != release.sum && Sum(release.arrives) != release.sum)
                  && (outcome == DoesNotRun <==>
                      Sum(w.files[Self]) != release.sum && Sum(release.arrives) == release.sum
                      && (release.version == "" || release.arrives != Program(release.sum, release.version))))
            && (outcome != Done ==> after.files - {New} == w.files - {New})
            && (outcome in {DownloadFailed, DoesNotRun, Done} ==> New !in after.files)
            && outcome in {NoBinary, NoChecksum, AlreadyInstalled, DownloadFailed, DoesNotRun, Done}
  {
    if release.hasBinary && release.sumKnown && Sum(w.files[Self]) != release.sum
       && release.version != "" && release.arrives == Program(release.sum, release.version) {
      UnfaultedInstall(w, release);
      hide Install;
    } else {
      hide Swap, Rename;
    }
  }

  /** A rollback that nothing stands in the way of puts the file aside at the path, keeps what ran
      under `.failed`, and takes the note away. */
  lemma UnfaultedRollback(w: World)
    requires w.faults == [] && Old in w.files
    ensures var (after, outcome) := Rollback(w);
            outcome == Done
            && after.files - {Failed} == (w.files - {Old, Pending, Failed})[Self := w.files[Old]]
            && (Self in w.files ==> Failed in after.files && after.files[Failed] == w.files[Self])
            && (Self !in w.files ==> Failed !in after.files)
  {
    var looked := SumOf(w, Old).0;
    var cleared := Remove(looked, Failed).0;
    assert cleared.files == w.files - {Failed};
    var aside := Rename(cleared, Self, Failed).0;
    var placed := Rename(aside, Old, Self).0;
    assert aside.files - {Failed} == w.files - {Self, Failed};
    assert placed.files - {Failed} == (w.files - {Old, Failed})[Self := w.files[Old]];
  }

  /** An operation that leaves a file aside where it is. */
  lemma StaysAside(w: World, after: World)
    requires Old in w.files && Old in after.files && after.files[Old] == w.files[Old]
    requires after == w.Then(after.files)
    ensures Throughout(w, after, Keeping(w.files[Old]))
  {
    OneState(w, after.files, Keeping(w.files[Old]));
  }

  /** The last two operations of a rollback: the file aside is put in place or stays aside. */
  lemma LastOfRollback(w: World)
    requires Old in w.files
    ensures var (placed, put) := Rename(w, Old, Self);
            Throughout(w, if put then Remove(placed, Pending).0 else Rename(placed, Failed, Self).0,
              Keeping(w.files[Old]))
  {
    var P := Keeping(w.files[Old]);
    var (placed, put) := Rename(w, Old, Self);
    var last := if put then Remove(placed, Pending).0 else Rename(placed, Failed, Self).0;
    OneState(w, placed.files, P);
    OneState(placed, last.files, P);
    hide Throughout;
    Onwards(w, placed, last, P);
  }

  /** The file aside is never lost on the way back. */
  lemma RollbackKeepsTheOld(w: World)
    requires Old in w.files
    ensures Throughout(w, Rollback(w).0, Keeping(w.files[Old]))
  {
    var P := Keeping(w.files[Old]);
    var (looked, _, found) := SumOf(w, Old);
    StaysAside(w, looked);
    if found {
      var cleared := Remove(looked, Failed).0;
      var aside := Rename(cleared, Self, Failed).0;
      StaysAside(looked, cleared);
      StaysAside(cleared, aside);
      LastOfRollback(aside);
      hide Throughout, Rename, Remove, SumOf;
      Onwards(w, looked, cleared, P);
      Onwards(w, cleared, aside, P);
      Onwards(w, aside, Rollback(w).0, P);
    }
  }

  /** A rollback that did not happen has left the binary it was to replace at its path, or
      has it under .failed. */
  ghost predicate StillThere(files: Files, faults: seq<bool>, f: File) {
    var (after, outcome) := Rollback(World(files, faults, []));
    outcome != Done ==> IsKept(after.files, f) || (Failed in after.files && after.files[Failed] == f)
  }

  lemma RollbackWithoutFailed(files: Files, faults: seq<bool>)
    requires Self in files && Old in files && (Failed !in files || files[Failed] == files[Self])
    ensures StillThere(files, faults, files[Self])
  {
  }

  lemma RollbackRevivesAnOlder(files: Files)
    requires Self in files && Old in files && Failed in files
    ensures var (after, outcome) := Rollback(World(files, [false, true, true, true], []));
            outcome == CannotPutBack && after.files == (files - {Failed})[Self := files[Failed]]
  {
  }

  /** The put-back takes whatever lies under .failed for the file moved there a moment ago.
      Where an earlier rollback left one that could not be removed, and the move failed too,
      that older file replaces the running binary: without one, and only then, a rollback
      that fails loses nothing. */
  lemma RollbackIsHarmlessExactlyWithoutFailed(files: Files)
    requires Self in files && Old in files && files[Old] != files[Self]
    ensures (forall faults :: StillThere(files, faults, files[Self]))
      <==> Failed !in files || files[Failed] == files[Self]
  {
    if Failed !in files || files[Failed] == files[Self] {
      forall faults ensures StillThere(files, faults, files[Self]) {
        RollbackWithoutFailed(files, faults);
      }
    } else {
      RollbackRevivesAnOlder(files);
      assert !StillThere(files, [false, true, true, true], files[Self]);
    }
  }

  /** However a swap was stopped, where it left the path empty a rollback without faults
      puts the binary back that was there. */
  lemma StopThenRollback(w: World, version: string)
    requires Self in w.files
    ensures var seen := Swap(w, version).0.seen;
            forall k :: |w.seen| <= k < |seen| && Self !in seen[k] ==> PutsBack(seen[k], w.files[Self])
  {
    SwapKeepsTheBinary(w, version);
    hide Swap, Rollback;
    forall k | |w.seen| <= k < |Swap(w, version).0.seen| && Self !in Swap(w, version).0.seen[k]
      ensures PutsBack(Swap(w, version).0.seen[k], w.files[Self])
    {
      assert IsKept(Swap(w, version).0.seen[k], w.files[Self]);
      AsideIsPutBack(Swap(w, version).0.seen[k], w.files[Self]);
    }
  }

  /** A rollback without faults puts a file in its place. */
  predicate PutsBack(files: Files, f: File) {
    var (after, outcome) := Rollback(World(files, [], []));
    outcome == Done && Self in after.files && after.files[Self] == f
  }

  lemma AsideIsPutBack(files: Files, f: File)
    requires Self !in files && Old in files && files[Old] == f
    ensures PutsBack(files, f)
  {
    var w := World(files, [], []);
    var looked := SumOf(w, Old).0;
    var cleared := Remove(looked, Failed).0;
    var aside := Rename(cleared, Self, Failed).0;
    assert Old in aside.files && aside.files[Old] == f && aside.faults == [];
  }

  /** Starting up clears the note and an unfinished download, and neither binary. */
  lemma CleanupKeepsBinaries(w: World)
    ensures var after := Cleanup(w);
            && Throughout(w, after, files =>
                            forall p :: p in {Self, Old, Failed} ==>
                              (p in files <==> p in w.files) && (p in files ==> files[p] == w.files[p]))
            && (w.faults == [] ==> Pending !in after.files && New !in after.files)
  {
  }

  // ----- runs -----

  datatype Step = Installs(release: Release) | RollsBack | Starts

  function Do(w: World, step: Step): World {
    match step
    case Installs(release) => Install(w, release).0
    case RollsBack => Rollback(w).0
    case Starts => Cleanup(w)
  }

  function Run(w: World, steps: seq<Step>): World {
    if steps == [] then w else Do(Run(w, steps[..|steps| - 1]), steps[|steps| - 1])
  }

  predicate FaultAt(w: World, i: nat) {
    i < |w.faults| && w.faults[i]
  }

  /** An install that comes as far as the swap while the program's path is empty, and whose
      removal of the file aside succeeds. */
  predicate LosesTheLast(w: World, release: Release) {
    && Self !in w.files && release.hasBinary && release.sumKnown && release.version != ""
    && release.arrives == Program(release.sum, release.version) && !FaultAt(w, 1) && !FaultAt(w, 2)
  }

  predicate Loses(w: World, step: Step) {
    step.Installs? && LosesTheLast(w, step.release)
  }

  ghost predicate NoneLoses(w: World, steps: seq<Step>) {
    steps == [] || (NoneLoses(w, steps[..|steps| - 1]) && !Loses(Run(w, steps[..|steps| - 1]), steps[|steps| - 1]))
  }

  ghost predicate Lost(w: World, after: World) {
    exists k :: |w.seen| <= k < |after.seen| && !HasBinary(after.seen[k])
  }

  ghost predicate Grows(w: World, after: World) {
    |w.seen| <= |after.seen| && after.seen[..|w.seen|] == w.seen
  }

  lemma ThenGrows(w: World, files: Files)
    ensures Grows(w, w.Then(files))
  {
  }

  lemma GrowsOn(w: World, middle: World, after: World)
    requires Grows(w, middle) && Grows(middle, after)
    ensures Grows(w, after)
  {
    assert after.seen[..|w.seen|] == after.seen[..|middle.seen|][..|w.seen|];
  }

  lemma OperationsGrow(w: World)
    ensures forall p :: Grows(w, Remove(w, p).0)
    ensures forall p, q :: Grows(w, Rename(w, p, q).0)
    ensures forall p, f :: Grows(w, Write(w, p, f).0)
    ensures forall p :: Grows(w, SumOf(w, p).0)
  {
    forall files: Files ensures Grows(w, w.Then(files)) {
      ThenGrows(w, files);
    }
    hide Grows;
  }

  lemma SwapGrows(w: World, version: string)
    ensures Grows(w, Swap(w, version).0)
  {
    var cleared := Remove(w, Old).0;
    var (aside, moved) := Rename(cleared, Self, Old);
    OperationsGrow(w);
    OperationsGrow(cleared);
    OperationsGrow(aside);
    hide Grows, Remove, Rename, Write;
    GrowsOn(w, cleared, aside);
    if moved {
      var (placed, put) := Rename(aside, New, Self);
      OperationsGrow(placed);
      GrowsOn(w, aside, placed);
      GrowsOn(w, placed, Swap(w, version).0);
    }
  }

  lemma InstallGrows(w: World, release: Release)
    ensures Grows(w, Install(w, release).0)
  {
    if release.hasBinary && release.sumKnown {
      var read := SumOf(w, Self).0;
      var downloaded := Write(read, New, release.arrives).0;
      var staged := Stage(read, release).0;
      OperationsGrow(w);
      OperationsGrow(read);
      SwapGrows(downloaded, release.version);
      OperationsGrow(staged);
      GrowsOn(w, read, downloaded);
      hide Grows, Remove, Write, SumOf, Swap;
      if staged != downloaded {
        GrowsOn(w, downloaded, staged);
      }
      GrowsOn(w, staged, Remove(staged, New).0);
    }
  }

  lemma StepGrows(w: World, step: Step)
    ensures Grows(w, Do(w, step))
  {
    match step {
      case Installs(release) => InstallGrows(w, release);
      case RollsBack => RollbackGrows(w);
      case Starts =>
        OperationsGrow(w);
        OperationsGrow(Remove(w, Pending).0);
        GrowsOn(w, Remove(w, Pending).0, Cleanup(w));
    }
  }

  lemma RollbackGrows(w: World)
    ensures Grows(w, Rollback(w).0)
  {
    var (looked, _, found) := SumOf(w, Old);
    OperationsGrow(w);
    if found {
      var cleared := Remove(looked, Failed).0;
      var aside := Rename(cleared, Self, Failed).0;
      var placed := Rename(aside, Old, Self).0;
      OperationsGrow(looked);
      OperationsGrow(cleared);
      OperationsGrow(aside);
      OperationsGrow(placed);
      hide Grows, Remove, Rename, SumOf;
      GrowsOn(w, looked, cleared);
      GrowsOn(w, cleared, aside);
      GrowsOn(w, aside, placed);
      GrowsOn(w, placed, Rollback(w).0);
    }
  }

  /** Without a file at the path, an install keeps the file aside unless it is one that loses it. */
  lemma InstallWithoutSelf(w: World, release: Release)
    requires Self !in w.files && Old in w.files && !LosesTheLast(w, release)
    ensures Throughout(w, Install(w, release).0, HasBinary)
  {
    if release.hasBinary && release.sumKnown {
      var read := SumOf(w, Self).0;
      var (downloaded, whole) := Write(read, New, release.arrives);
      var staged := Stage(read, release).0;
      OneState(w, read.files, HasBinary);
      OneState(read, downloaded.files, HasBinary);
      assert downloaded.Faulty() == FaultAt(w, 2) && whole == !FaultAt(w, 1);
      if staged != downloaded {
        var cleared := Remove(downloaded, Old).0;
        assert cleared.files == downloaded.files;
        OneState(downloaded, cleared.files, HasBinary);
        OneState(cleared, staged.files, HasBinary);
        Onwards(downloaded, cleared, staged, HasBinary);
      }
      var after := Remove(staged, New).0;
      OneState(staged, after.files, HasBinary);
      hide Throughout, Stage, Write, SumOf, Remove;
      Onwards(w, read, downloaded, HasBinary);
      if staged != downloaded {
        Onwards(w, downloaded, staged, HasBinary);
      }
      Onwards(w, staged, after, HasBinary);
    } else {
      assert Install(w, release).0 == w;
    }
  }

  /** The state after the file aside has been removed has no binary, whatever comes then. */
  lemma LosingStep(w: World, release: Release)
    requires LosesTheLast(w, release)
    ensures Lost(w, Install(w, release).0)
  {
    var read := SumOf(w, Self).0;
    var downloaded := Write(read, New, release.arrives).0;
    var cleared := Remove(downloaded, Old).0;
    var k := |w.seen| + 2;
    assert |cleared.seen| == k + 1 && cleared.seen[k] == cleared.files && !HasBinary(cleared.files);
    var aside := Rename(cleared, Self, Old).0;
    assert aside.seen[k] == cleared.files;
    assert Stage(read, release).0 == aside;
    var after := Remove(aside, New).0;
    assert after.seen[k] == cleared.files && Install(w, release).0 == after;
  }

  lemma StepKeepsABinary(w: World, step: Step)
    requires HasBinary(w.files) && !Loses(w, step)
    ensures Throughout(w, Do(w, step), HasBinary)
  {
    match step {
      case Installs(release) =>
        hide Throughout, Install, LosesTheLast;
        if Self in w.files {
          InstallKeepsTheBinary(w, release);
          Weaker(w, Do(w, step), Keeping(w.files[Self]), HasBinary);
        } else {
          InstallWithoutSelf(w, release);
        }
      case RollsBack =>
        hide Throughout, Rollback;
        RollbackPutsBack(w);
        if Old in w.files {
          RollbackKeepsTheOld(w);
          Weaker(w, Do(w, step), Keeping(w.files[Old]), HasBinary);
        } else {
          OneState(w, w.files, HasBinary);
        }
      case Starts =>
        hide Throughout;
        var cleared := Remove(w, Pending).0;
        OneState(w, cleared.files, HasBinary);
        OneState(cleared, Do(w, step).files, HasBinary);
        Onwards(w, cleared, Do(w, step), HasBinary);
    }
  }

  lemma {:induction false} RunGrows(w: World, steps: seq<Step>)
    ensures Grows(w, Run(w, steps))
  {
    if steps == [] {
    } else {
      hide Do;
      var init := steps[..|steps| - 1];
      RunGrows(w, init);
      StepGrows(Run(w, init), steps[|steps| - 1]);
      hide Grows;
      GrowsOn(w, Run(w, init), Run(w, steps));
    }
  }

  lemma LostStaysLost(w: World, middle: World, after: World)
    requires Lost(w, middle) && Grows(middle, after)
    ensures Lost(w, after)
  {
    var k :| |w.seen| <= k < |middle.seen| && !HasBinary(middle.seen[k]);
    assert after.seen[..|middle.seen|][k] == after.seen[k];
  }

  lemma LostLater(w: World, middle: World, after: World)
    requires Grows(w, middle) && Lost(middle, after)
    ensures Lost(w, after)
  {
  }

  lemma {:induction false} LosingRun(w: World, steps: seq<Step>)
    requires !NoneLoses(w, steps)
    ensures Lost(w, Run(w, steps))
  {
    hide Do, Loses, Lost, Grows;
    var init, step := steps[..|steps| - 1], steps[|steps| - 1];
    var before := Run(w, init);
    if NoneLoses(w, init) {
      RunGrows(w, init);
      LosingOne(before, step);
      LostLater(w, before, Run(w, steps));
    } else {
      LosingRun(w, init);
      StepGrows(before, step);
      LostStaysLost(w, before, Run(w, steps));
    }
  }

  lemma LosingOne(w: World, step: Step)
    requires Loses(w, step)
    ensures Lost(w, Do(w, step))
  {
    hide Install, LosesTheLast, Lost;
    LosingStep(w, step.release);
  }

  lemma {:induction false} KeepingRun(w: World, steps: seq<Step>)
    requires HasBinary(w.files) && NoneLoses(w, steps)
    ensures Throughout(w, Run(w, steps), HasBinary)
  {
    if steps != [] {
      hide Do, Loses;
      var before := Run(w, steps[..|steps| - 1]);
      KeepingRun(w, steps[..|steps| - 1]);
      LastState(w, before, HasBinary);
      hide Throughout;
      StepKeepsABinary(before, steps[|steps| - 1]);
      Onwards(w, before, Run(w, steps), HasBinary);
    } else {
      assert Run(w, steps) == w;
    }
  }

  /** Over any run of installs, rollbacks and restarts, with any failures, every state there
      ever is holds a binary that can be started or put back, exactly where no install reaches
      its swap with the path empty and gets to remove the file aside. */
  lemma RunsKeepABinary(w: World, steps: seq<Step>)
    requires HasBinary(w.files)
    ensures Throughout(w, Run(w, steps), HasBinary) <==> NoneLoses(w, steps)
  {
    if NoneLoses(w, steps) {
      KeepingRun(w, steps);
    } else {
      LosingRun(w, steps);
    }
  }

  /** A run that loses its binary: an install whose second rename fails, and the put-back after
      it too, leaves the path empty, and the next install throws the one aside away. */
  lemma TwoInstallsLoseTheBinary(w: World, f: File, release: Release)
    requires w == World(map[Self := f], [false, false, false, false, true, true], [])
    requires Sum(f) != release.sum && release.version != ""
      && release == Release(release.version, true, release.sum, true, Program(release.sum, release.version))
    ensures var once := Do(w, Installs(release));
            Self !in once.files && Old in once.files && once.files[Old] == f
              && !HasBinary(Do(once, Installs(release)).files)
    ensures !NoneLoses(w, [Installs(release), Installs(release)])
  {
    var once := FirstOfTwo(w, f, release);
    SecondOfTwo(once, release);
    var steps := [Installs(release), Installs(release)];
    hide Do, LosesTheLast;
    assert steps[..1] == [Installs(release)] && steps[..1][..0] == [];
    assert Run(w, steps[..1]) == Do(Run(w, []), Installs(release));
    assert Loses(Run(w, steps[..1]), steps[1]);
  }

  lemma FirstOfTwo(w: World, f: File, release: Release) returns (once: World)
    requires w == World(map[Self := f], [false, false, false, false, true, true], [])
    requires Sum(f) != release.sum && release.version != ""
      && release == Release(release.version, true, release.sum, true, Program(release.sum, release.version))
    ensures once == Do(w, Installs(release)) && once.files == map[Old := f] && once.faults == []
  {
    once := Do(w, Installs(release));
    var read := SumOf(w, Self).0;
    var downloaded := Write(read, New, release.arrives).0;
    assert downloaded.files == map[Self := f, New := release.arrives]
      && downloaded.faults == [false, false, true, true];
    var cleared := Remove(downloaded, Old).0;
    var aside := Rename(cleared, Self, Old).0;
    assert aside.files == map[Old := f, New := release.arrives] && aside.faults == [true, true];
    var placed := Rename(aside, New, Self).0;
    var back := Rename(placed, Old, Self).0;
    assert back.files == aside.files && back.faults == [];
    assert Stage(read, release).0 == back;
    assert once == Remove(back, New).0;
  }

  lemma SecondOfTwo(once: World, release: Release)
    requires once.faults == [] && Self !in once.files && Old in once.files && release.version != ""
    requires release == Release(release.version, true, release.sum, true, Program(release.sum, release.version))
    ensures LosesTheLast(once, release) && !HasBinary(Do(once, Installs(release)).files)
  {
    SwapLosesWithoutSelf(once.files[New := release.arrives], release.version);
    var read := SumOf(once, Self).0;
    var downloaded := Write(read, New, release.arrives).0;
    assert downloaded.files == once.files[New := release.arrives] && downloaded.faults == [];
    var cleared := Remove(downloaded, Old).0;
    var aside := Rename(cleared, Self, Old).0;
    assert Stage(read, release).0 == aside && !HasBinary(aside.files);
  }

  /** Asking again for a release that has been installed. */
  function AskAgain(w: World, release: Release, times: nat): World {
    if times == 0 then w else Install(AskAgain(w, release, times - 1), release).0
  }

  ghost predicate Readable(w: World, release: Release, times: nat) {
    times == 0 || (Readable(w, release, times - 1) && !AskAgain(w, release, times - 1).Faulty())
  }

  lemma {:induction false} AskingAgainChangesNothing(w: World, release: Release, times: nat)
    requires release.hasBinary && release.sumKnown && Self in w.files && Sum(w.files[Self]) == release.sum
    requires Readable(w, release, times)
    ensures AskAgain(w, release, times).files == w.files
  {
    hide Install;
    if times == 0 {
    } else {
      AskingAgainChangesNothing(w, release, times - 1);
      AlreadyInstalledTouchesNothing(AskAgain(w, release, times - 1), release);
    }
  }

  lemma InstallNeedsAll(w: World, release: Release)
    ensures Install(w, release).1 == Done ==> release.hasBinary && release.sumKnown
  {
    hide Stage;
  }

  /** After a successful install, and however often the same release is asked for again, a
      successful rollback puts back the binary that was running before. */
  lemma InstallThenRollback(w: World, release: Release, times: nat)
    requires Self in w.files
    ensures var (installed, outcome) := Install(w, release);
            var (after, back) := Rollback(AskAgain(installed, release, times));
            outcome == Done && Readable(installed, release, times) && back == Done ==>
              Self in after.files && after.files[Self] == w.files[Self]
  {
    hide Install, Rollback, AskAgain, Readable;
    InstallKeepsTheBinary(w, release);
    var (installed, outcome) := Install(w, release);
    if outcome == Done && Readable(installed, release, times) {
      InstallNeedsAll(w, release);
      AskingAgainChangesNothing(installed, release, times);
      RollbackPutsBack(AskAgain(installed, release, times));
    }
  }
}
