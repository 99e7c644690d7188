/** The rename pass of the file list (`renameFiles`): every entry gets exactly
    one outcome, decided in a fixed order, and `move` is only called on entries
    that pass every check. The counts then pick one of three summaries. */
module Rename {
  import opened Types
  import opened Strings
  import Collisions

  /** What `handle.move(newName)` did. `Threw(None, _)` is a thrown value that
      is not an `Error` (its message reads "Unknown error");
      `invalidModification` is a `DOMException` named `InvalidModificationError`. */
  datatype MoveResult = Moved | Threw(message: Option<string>, invalidModification: bool)

  /** The branches of the loop body, in the order they are tried. */
  datatype Decision = SkipCollision | SkipNoNewName | SkipNoHandle | TryMove

  /** One element of the `results` array. */
  datatype EntryResult = Renamed(oldName: string, newName: string) | NotRenamed(error: string, file: string)

  const CollisionSkipError := "Naming collision detected - multiple files would have the same name"
  const CollisionSkipResult := "Naming collision detected"
  const NoNewNameError := "No new name suggested or same as original"
  const NoNewNameResult := "No new name suggested"
  const NoHandleError := "File System Access API required - please re-add files using drag & drop or file picker"
  /** The error thrown for a handle without `move`. It is written as the
      eight pieces `MoveMissingNoPair` takes one by one to show that the
      message contains no collision phrase. */
  const MoveMissingError := "File renaming " + "not supported: " + "File System " + "Access API "
    + "move() method " + "is not " + "available in " + "this browser"

  function Decide(f: FileItem, marks: set<string>): (d: Decision)
    ensures d == SkipCollision <==> f.path in marks
    ensures d == SkipNoNewName <==> f.path !in marks && !HasNewName(f)
    ensures d == SkipNoHandle <==> f.path !in marks && HasNewName(f) && f.handle.None?
    ensures d == TryMove <==> f.path !in marks && HasNewName(f) && f.handle.Some?
  {
    if f.path in marks then SkipCollision
    else if !HasNewName(f) then SkipNoNewName
    else if f.handle.None? then SkipNoHandle
    else TryMove
  }

  /** The "not supported" message never has `a` directly before `b` when no
      piece of it has and `a` is not the space that ends each piece. */
  lemma MoveMissingNoPair(a: char, b: char)
    requires a != ' '
    requires NoPairFrom("File renaming ", a, b, 0) && NoPairFrom("not supported: ", a, b, 0)
    requires NoPairFrom("File System ", a, b, 0) && NoPairFrom("Access API ", a, b, 0)
    requires NoPairFrom("move() method ", a, b, 0) && NoPairFrom("is not ", a, b, 0)
    requires NoPairFrom("available in ", a, b, 0) && NoPairFrom("this browser", a, b, 0)
    ensures NoPairIn(MoveMissingError, a, b)
  {
    NoPairFromAll("File renaming ", a, b, 0);
    NoPairFromAll("not supported: ", a, b, 0);
    NoPairFromAll("File System ", a, b, 0);
    NoPairFromAll("Access API ", a, b, 0);
    NoPairFromAll("move() method ", a, b, 0);
    NoPairFromAll("is not ", a, b, 0);
    NoPairFromAll("available in ", a, b, 0);
    NoPairFromAll("this browser", a, b, 0);
    var s := "File renaming ";
    NoPairJoin(s, "not supported: ", a, b);
    s := s + "not supported: ";
    NoPairJoin(s, "File System ", a, b);
    s := s + "File System ";
    NoPairJoin(s, "Access API ", a, b);
    s := s + "Access API ";
    NoPairJoin(s, "move() method ", a, b);
    s := s + "move() method ";
    NoPairJoin(s, "is not ", a, b);
    s := s + "is not ";
    NoPairJoin(s, "available in ", a, b);
    s := s + "available in ";
    NoPairJoin(s, "this browser", a, b);
  }

  /** A message without "ll" mentions no collision; one without "lr" says
      nothing is "already" there. */
  lemma PairsRuleOutCollision(m: string)
    requires NoPairIn(m, 'l', 'l') && NoPairIn(m, 'l', 'r')
    ensures !LooksLikeCollision(m, false)
  {
    PairAbsent(m, "collision", 2);
    PairAbsent(m, "already exists", 1);
    PairAbsent(m, "name is already in use", 9);
  }

  /** No piece of the "not supported" message has "ll" or "lr". */
  lemma MoveMissingPieces1()
    ensures NoPairFrom("File renaming ", 'l', 'l', 0) && NoPairFrom("File renaming ", 'l', 'r', 0)
    ensures NoPairFrom("not supported: ", 'l', 'l', 0) && NoPairFrom("not supported: ", 'l', 'r', 0)
  { }

  lemma MoveMissingPieces2()
    ensures NoPairFrom("File System ", 'l', 'l', 0) && NoPairFrom("File System ", 'l', 'r', 0)
    ensures NoPairFrom("Access API ", 'l', 'l', 0) && NoPairFrom("Access API ", 'l', 'r', 0)
  { }

  lemma MoveMissingPieces3()
    ensures NoPairFrom("move() method ", 'l', 'l', 0) && NoPairFrom("move() method ", 'l', 'r', 0)
    ensures NoPairFrom("is not ", 'l', 'l', 0) && NoPairFrom("is not ", 'l', 'r', 0)
  { }

  lemma MoveMissingPieces4()
    ensures NoPairFrom("available in ", 'l', 'l', 0) && NoPairFrom("available in ", 'l', 'r', 0)
    ensures NoPairFrom("this browser", 'l', 'l', 0) && NoPairFrom("this browser", 'l', 'r', 0)
  { }

  /** The whole "not supported" message has neither "ll" nor "lr", while
      each collision phrase has one of them (see `PairsRuleOutCollision`). */
  lemma MoveMissingNoPairs()
    ensures NoPairIn(MoveMissingError, 'l', 'l') && NoPairIn(MoveMissingError, 'l', 'r')
  {
    MoveMissingPieces1();
    MoveMissingPieces2();
    MoveMissingPieces3();
    MoveMissingPieces4();
    MoveMissingNoPair('l', 'l');
    MoveMissingNoPair('l', 'r');
  }

  /** The error thrown for a handle without `move` has none of the collision
      phrases, so the catch block records it as it is. */
  lemma MoveMissingKept(target: string)
    ensures FailureMessage(Some(MoveMissingError), false, target) == MoveMissingError
  {
    MoveMissingNoPairs();
    PairsRuleOutCollision(MoveMissingError);
  }

  /** The patterns that turn a thrown error into a collision report. */
  predicate LooksLikeCollision(message: string, invalidModification: bool) {
    Contains(message, "already exists") || Contains(message, "collision")
    || Contains(message, "name is already in use") || invalidModification
  }

  function ExistingNameError(target: string): string {
    "Naming collision: A file or folder named \"" + target + "\" already exists"
  }

  /** The message recorded for a `move` that threw. */
  function FailureMessage(message: Option<string>, invalidModification: bool, target: string): (m: string)
    ensures LooksLikeCollision(message.GetOr("Unknown error"), invalidModification) ==> m == ExistingNameError(target)
    ensures !LooksLikeCollision(message.GetOr("Unknown error"), invalidModification) ==> m == message.GetOr("Unknown error")
  {
    var raw := message.GetOr("Unknown error");
    if LooksLikeCollision(raw, invalidModification) then ExistingNameError(target) else raw
  }

  /** What happened to one entry: its new state, its result, and whether
      `move` was invoked on its handle. */
  datatype EntryOutcome = EntryOutcome(item: FileItem, result: EntryResult, moveCalled: bool)

  /** Eligible for `move`: not marked as colliding, a new name, and a handle
      that exposes `move`. */
  predicate MayMove(f: FileItem, marks: set<string>) {
    Decide(f, marks) == TryMove && f.handle.value.hasMove
  }

  function ProcessEntry(f: FileItem, marks: set<string>, move: (Handle, string) -> MoveResult): (o: EntryOutcome)
    ensures SameIdentity(o.item, f) && o.item.suggestedName == f.suggestedName && o.item.isRetrying == f.isRetrying
    ensures o.moveCalled <==> MayMove(f, marks)
    ensures o.item.renameStatus.Some?
    ensures o.result.Renamed? <==> o.item.renameStatus == Some(Success)
    ensures o.result.Renamed? ==>
      o.moveCalled && move(f.handle.value, f.suggestedName.value) == Moved
      && o.result == Renamed(f.originalName, f.suggestedName.value)
    ensures o.item.renameStatus == Some(Warning) <==> Decide(f, marks) == SkipNoNewName
    ensures f.path in marks ==> o.item.renameError == Some(CollisionSkipError) && o.result.NotRenamed?
  {
    match Decide(f, marks)
    case SkipCollision =>
      EntryOutcome(f.(renameStatus := Some(Error), renameError := Some(CollisionSkipError)),
        NotRenamed(CollisionSkipResult, f.originalName), false)
    case SkipNoNewName =>
      EntryOutcome(f.(renameStatus := Some(Warning), renameError := Some(NoNewNameError)),
        NotRenamed(NoNewNameResult, f.originalName), false)
    case SkipNoHandle =>
      EntryOutcome(f.(renameStatus := Some(Error), renameError := Some(NoHandleError)),
        NotRenamed(NoHandleError, f.originalName), false)
    case TryMove =>
      var target := f.suggestedName.value;
      var outcome := if f.handle.value.hasMove then move(f.handle.value, target) else Threw(Some(MoveMissingError), false);
      match outcome
      case Moved =>
        // the previous `renameError`, if any, is kept by `{ ...file, renameStatus: 'success' }`
        EntryOutcome(f.(renameStatus := Some(Success)), Renamed(f.originalName, target), true)
      case Threw(message, invalidModification) =>
        var m := FailureMessage(message, invalidModification, target);
        EntryOutcome(f.(renameStatus := Some(Error), renameError := Some(m)),
          NotRenamed(m, f.originalName), f.handle.value.hasMove)
  }

  /** The loop state after the first `n` entries. */
  datatype LoopState = LoopState(
    updated: seq<FileItem>,
    results: seq<EntryResult>,
    moveCalls: seq<nat>,
    successful: nat,
    failed: nat)

  /** Entry `c` of the batch is eligible for `move`. */
  predicate MayMoveAt(files: seq<FileItem>, marks: set<string>, c: int) {
    0 <= c < |files| && MayMove(files[c], marks)
  }

  /** Appending the next index when it is eligible keeps the calls exactly
      the eligible indices so far, in increasing order. */
  lemma CallsStep(files: seq<FileItem>, marks: set<string>, n: nat, calls: seq<nat>, called: bool)
    requires n < |files|
    requires forall c :: c in calls <==> 0 <= c < n && MayMoveAt(files, marks, c)
    requires forall a, b :: 0 <= a < b < |calls| ==> calls[a] < calls[b]
    requires called <==> MayMoveAt(files, marks, n)
    ensures var t := if called then calls + [n] else calls;
      && (forall c :: c in t <==> 0 <= c < n + 1 && MayMoveAt(files, marks, c))
      && (forall a, b :: 0 <= a < b < |t| ==> t[a] < t[b])
  {
    assert forall a :: 0 <= a < |calls| ==> calls[a] in calls;
  }

  function RenameLoop(files: seq<FileItem>, marks: set<string>, move: (Handle, string) -> MoveResult, n: nat): (s: LoopState)
    requires n <= |files|
    ensures |s.updated| == n && |s.results| == n
    ensures s.successful + s.failed == n
    ensures forall i {:trigger s.updated[i]} :: 0 <= i < n ==> s.updated[i] == ProcessEntry(files[i], marks, move).item
    ensures forall i {:trigger s.results[i]} :: 0 <= i < n ==> s.results[i] == ProcessEntry(files[i], marks, move).result
    ensures s.successful <= |s.moveCalls|
  {
    if n == 0 then LoopState([], [], [], 0, 0)
    else
      var prev := RenameLoop(files, marks, move, n - 1);
      var o := ProcessEntry(files[n - 1], marks, move);
      var updated := prev.updated + [o.item];
      var results := prev.results + [o.result];
      assert forall i :: 0 <= i < n - 1 ==> updated[i] == prev.updated[i] && results[i] == prev.results[i];
      LoopState(updated, results, prev.moveCalls + (if o.moveCalled then [n - 1] else []),
        prev.successful + (if o.result.Renamed? then 1 else 0),
        prev.failed + (if o.result.Renamed? then 0 else 1))
  }

  /** After n entries, `move` has been called on exactly the eligible indices,
      in increasing order. */
  lemma {:induction false} LoopCalls(files: seq<FileItem>, marks: set<string>, move: (Handle, string) -> MoveResult, n: nat)
    requires n <= |files|
    ensures var s := RenameLoop(files, marks, move, n);
      && (forall c :: c in s.moveCalls <==> 0 <= c < n && MayMoveAt(files, marks, c))
      && (forall a, b :: 0 <= a < b < |s.moveCalls| ==> s.moveCalls[a] < s.moveCalls[b])
  {
    if n > 0 {
      LoopCalls(files, marks, move, n - 1);
      CallsStep(files, marks, n - 1, RenameLoop(files, marks, move, n - 1).moveCalls, MayMoveAt(files, marks, n - 1));
      CallsUnfold(files, marks, move, n);
    }
  }

  /** One step of the loop appends the entry's index exactly when it called `move`. */
  lemma CallsUnfold(files: seq<FileItem>, marks: set<string>, move: (Handle, string) -> MoveResult, n: nat)
    requires 0 < n <= |files|
    ensures RenameLoop(files, marks, move, n).moveCalls
      == RenameLoop(files, marks, move, n - 1).moveCalls
         + (if MayMoveAt(files, marks, n - 1) then [n - 1] else [])
  {
  }

  /** How many entries carry the collision error because their path is marked. */
  function CountMarked(files: seq<FileItem>, marks: set<string>): (k: nat)
    ensures k <= |files|
  {
    if |files| == 0 then 0
    else CountMarked(files[..|files| - 1], marks) + (if files[|files| - 1].path in marks then 1 else 0)
  }

  /** One part of the parenthesised breakdown of a partial success. */
  datatype Detail = HadCollisions(count: nat) | OtherFailures(count: nat)

  /** The message shown after the pass, by its three shapes. */
  datatype Summary =
    | AllRenamed(successful: nat)
    | PartlyRenamed(successful: nat, failed: nat, details: seq<Detail>)
    | NoneRenamed(failed: nat, collisions: nat)

  function Summarize(successful: nat, failed: nat, collisionCount: int): (s: Summary)
    ensures s.AllRenamed? <==> failed == 0 && collisionCount == 0
    ensures s.PartlyRenamed? <==> !(failed == 0 && collisionCount == 0) && successful > 0
  {
    if failed == 0 && collisionCount == 0 then AllRenamed(successful)
    else if successful > 0 then
      PartlyRenamed(successful, failed,
        (if collisionCount > 0 then [HadCollisions(collisionCount)] else [])
        + (if failed - collisionCount > 0 then [OtherFailures(failed - collisionCount)] else []))
    else NoneRenamed(failed, if collisionCount >= 0 then collisionCount else 0)
  }

  /** The outcome of the whole pass. */
  datatype RenameReport = RenameReport(
    files: seq<FileItem>,
    results: seq<EntryResult>,
    moveCalls: seq<nat>,
    successful: nat,
    failed: nat,
    collisionFiles: set<string>,
    summary: Summary)

  /** The pass: collision check, one outcome per entry, then the summary. The
      collision count in the summary is the size of `collisionFiles`, a set of
      paths (see `IntendedSummary` for the count per entry). */
  function RenamePass(files: seq<FileItem>, move: (Handle, string) -> MoveResult): (r: RenameReport)
    ensures |r.results| == |files| && r.successful + r.failed == |files|
    ensures forall c :: c in r.moveCalls <==> MayMoveAt(files, r.collisionFiles, c)
    ensures r.collisionFiles == Collisions.CheckForCollisions(files).collisionFiles
    ensures r.summary == Summarize(r.successful, r.failed, |r.collisionFiles|)
  {
    var marks := Collisions.CheckForCollisions(files).collisionFiles;
    var s := RenameLoop(files, marks, move, |files|);
    LoopCalls(files, marks, move, |files|);
    RenameReport(s.updated, s.results, s.moveCalls, s.successful, s.failed, marks,
      Summarize(s.successful, s.failed, |marks|))
  }

  /** The summary with the collision count the breakdown needs: the number of
      entries that got the collision error. */
  function IntendedSummary(files: seq<FileItem>, move: (Handle, string) -> MoveResult): Summary {
    var r := RenamePass(files, move);
    Summarize(r.successful, r.failed, CountMarked(files, r.collisionFiles))
  }

  // ---------------------------------------------------------------------
  // Properties of the pass

  /** Each entry's outcome follows the fixed precedence: marked as colliding,
      then no new name, then no handle, and only then `move`. */
  lemma OutcomePrecedence(files: seq<FileItem>, move: (Handle, string) -> MoveResult, i: int)
    requires 0 <= i < |files|
    ensures var r := RenamePass(files, move); var f := files[i]; var g := r.files[i];
      && SameIdentity(g, f) && g.suggestedName == f.suggestedName
      && (f.path in r.collisionFiles ==>
            g.renameStatus == Some(Error) && g.renameError == Some(CollisionSkipError) && i !in r.moveCalls)
      && (f.path !in r.collisionFiles && !HasNewName(f) ==>
            g.renameStatus == Some(Warning) && g.renameError == Some(NoNewNameError) && i !in r.moveCalls)
      && (f.path !in r.collisionFiles && HasNewName(f) && f.handle.None? ==>
            g.renameStatus == Some(Error) && g.renameError == Some(NoHandleError) && i !in r.moveCalls)
      && (f.path !in r.collisionFiles && HasNewName(f) && f.handle.Some? ==>
            (i in r.moveCalls <==> f.handle.value.hasMove)
            && (g.renameStatus == Some(Success) <==>
                  f.handle.value.hasMove && move(f.handle.value, f.suggestedName.value) == Moved))
  {
  }

  /** The outcome of an entry that reaches `move`: success with the new name,
      or the error status with the message the catch block records. A handle
      without `move` throws the "not supported" error, which the collision
      rewrite leaves as it is (`MoveMissingKept`). */
  lemma MoveOutcome(files: seq<FileItem>, move: (Handle, string) -> MoveResult, i: int)
    requires 0 <= i < |files|
    ensures var r := RenamePass(files, move); var f := files[i]; var g := r.files[i];
      f.path !in r.collisionFiles && HasNewName(f) && f.handle.Some? ==>
        var target := f.suggestedName.value;
        var t := move(f.handle.value, target);
        && (f.handle.value.hasMove && t == Moved ==>
              g.renameStatus == Some(Success) && g.renameError == f.renameError
              && r.results[i] == Renamed(f.originalName, target))
        && (f.handle.value.hasMove && t.Threw? ==>
              var m := FailureMessage(t.message, t.invalidModification, target);
              g.renameStatus == Some(Error) && g.renameError == Some(m) && r.results[i] == NotRenamed(m, f.originalName))
        && (!f.handle.value.hasMove ==>
              g.renameStatus == Some(Error) && g.renameError == Some(MoveMissingError)
              && r.results[i] == NotRenamed(MoveMissingError, f.originalName))
  {
    var s := RenameLoop(files, Collisions.CheckForCollisions(files).collisionFiles, move, |files|);
    assert s.updated[i] == RenamePass(files, move).files[i];
    assert s.results[i] == RenamePass(files, move).results[i];
    if files[i].suggestedName.Some? {
      MoveMissingKept(files[i].suggestedName.value);
    }
  }

  /** `move` is never invoked on an entry that is marked as colliding, lacks a
      new name, or lacks a handle; each entry is moved at most once, in batch
      order. */
  lemma MoveOnlyOnEligible(files: seq<FileItem>, move: (Handle, string) -> MoveResult)
    ensures var r := RenamePass(files, move);
      && (forall c :: c in r.moveCalls ==>
            0 <= c < |files| && files[c].path !in r.collisionFiles && HasNewName(files[c]) && files[c].handle.Some?)
      && (forall a, b :: 0 <= a < b < |r.moveCalls| ==> r.moveCalls[a] < r.moveCalls[b])
  {
    LoopCalls(files, Collisions.CheckForCollisions(files).collisionFiles, move, |files|);
  }

  /** Entries whose path is not marked and that failed anyway. */
  function CountOtherFailures(files: seq<FileItem>, marks: set<string>, move: (Handle, string) -> MoveResult): (k: nat)
    ensures k <= |files|
  {
    if |files| == 0 then 0
    else
      var last := files[|files| - 1];
      CountOtherFailures(files[..|files| - 1], marks, move)
        + (if last.path !in marks && ProcessEntry(last, marks, move).result.NotRenamed? then 1 else 0)
  }

  lemma {:induction false} FailedSplits(files: seq<FileItem>, marks: set<string>, move: (Handle, string) -> MoveResult, n: nat)
    requires n <= |files|
    ensures RenameLoop(files, marks, move, n).failed
      == CountMarked(files[..n], marks) + CountOtherFailures(files[..n], marks, move)
  {
    if n > 0 {
      FailedSplits(files, marks, move, n - 1);
      var f := files[n - 1];
      var o := ProcessEntry(f, marks, move);
      var prefix := files[..n];
      assert prefix[..n - 1] == files[..n - 1];
      assert prefix[n - 1] == f;
      assert CountMarked(prefix, marks) == CountMarked(files[..n - 1], marks) + (if f.path in marks then 1 else 0);
      assert CountOtherFailures(prefix, marks, move)
        == CountOtherFailures(files[..n - 1], marks, move) + (if f.path !in marks && o.result.NotRenamed? then 1 else 0);
      assert RenameLoop(files, marks, move, n).failed
        == RenameLoop(files, marks, move, n - 1).failed + (if o.result.Renamed? then 0 else 1);
    }
  }

  /** The three-way summary, with the intended collision count: "all renamed"
      exactly when nothing failed, "partly" when something failed and something
      was renamed, otherwise "none"; the breakdown splits the failures into
      entries with the collision error and all other failures. */
  lemma SummaryBreakdown(files: seq<FileItem>, move: (Handle, string) -> MoveResult)
    ensures var r := RenamePass(files, move); var s := IntendedSummary(files, move);
      var k := CountMarked(files, r.collisionFiles);
      var o := CountOtherFailures(files, r.collisionFiles, move);
      && r.failed == k + o
      && (s.AllRenamed? <==> r.failed == 0)
      && (s.PartlyRenamed? <==> r.failed > 0 && r.successful > 0)
      && (s.NoneRenamed? <==> r.failed > 0 && r.successful == 0)
      && (s.PartlyRenamed? ==>
            s.details == (if k > 0 then [HadCollisions(k)] else []) + (if o > 0 then [OtherFailures(o)] else []))
      && (s.NoneRenamed? ==> s.collisions == k)
  {
    var marks := Collisions.CheckForCollisions(files).collisionFiles;
    FailedSplits(files, marks, move, |files|);
    assert files[..|files|] == files;
  }

  /** The paths of a batch. */
  function Paths(files: seq<FileItem>): (ps: set<string>)
    ensures forall p :: p in ps <==> exists i :: 0 <= i < |files| && files[i].path == p
  {
    if |files| == 0 then {}
    else
      var init := files[..|files| - 1];
      var ps := Paths(init) + {files[|files| - 1].path};
      assert forall i :: 0 <= i < |init| ==> init[i] == files[i];
      ps
  }

  predicate UniquePaths(files: seq<FileItem>) {
    forall i, j :: 0 <= i < j < |files| ==> files[i].path != files[j].path
  }

  /** Distinct marked paths never outnumber the entries that carry one, and
      the two agree when no two entries share a path. */
  lemma {:induction false} MarkedPathsVersusEntries(files: seq<FileItem>, marks: set<string>)
    ensures |marks * Paths(files)| <= CountMarked(files, marks)
    ensures UniquePaths(files) ==> |marks * Paths(files)| == CountMarked(files, marks)
  {
    if |files| > 0 {
      var init := files[..|files| - 1];
      var p := files[|files| - 1].path;
      MarkedPathsVersusEntries(init, marks);
      assert Paths(files) == Paths(init) + {p};
      var extra: set<string> := if p in marks then {p} else {};
      assert marks * Paths(files) == (marks * Paths(init)) + extra;
      if UniquePaths(files) {
        assert UniquePaths(init);
        assert p !in Paths(init);
      }
    }
  }

  /** When paths are unique the source's count and the intended one agree. */
  lemma SummariesAgreeOnUniquePaths(files: seq<FileItem>, move: (Handle, string) -> MoveResult)
    requires UniquePaths(files)
    ensures RenamePass(files, move).summary == IntendedSummary(files, move)
  {
    var marks := Collisions.CheckForCollisions(files).collisionFiles;
    forall q | q in marks ensures q in Paths(files) {
      Collisions.CollisionFilesAreConsidered(files, q);
    }
    assert marks * Paths(files) == marks;
    MarkedPathsVersusEntries(files, marks);
  }

  /** Two picked files with the same name share a path. If both are suggested
      the same new name, both fail with the collision error, yet the source's
      summary reports one collision: `|collisionFiles|` counts paths, not
      entries. */
  lemma DuplicatePathUndercount(x: FileItem, y: FileItem, move: (Handle, string) -> MoveResult)
    requires x.path == y.path && Collisions.SameTarget(x, y)
    ensures var r := RenamePass([x, y], move);
      && r.successful == 0 && r.failed == 2
      && r.summary == NoneRenamed(2, 1)
      && IntendedSummary([x, y], move) == NoneRenamed(2, 2)
  {
    var files := [x, y];
    var marks := Collisions.CheckForCollisions(files).collisionFiles;
    Collisions.CollisionsSymmetric(files, 0, 1);
    forall q | q in marks ensures q == x.path {
      Collisions.CollisionFilesExact(files, q);
    }
    assert marks == {x.path};
    assert CountMarked(files, marks) == 2 by {
      assert files[..1] == [x];
    }
    SummaryBreakdown(files, move);
  }

  lemma {:induction false} CountMarkedNothing(files: seq<FileItem>)
    ensures CountMarked(files, {}) == 0
  {
    if |files| > 0 {
      CountMarkedNothing(files[..|files| - 1]);
    }
  }

  /** The first element, or 0 for the empty sequence: lets
      `NoMemberIsEmpty` name a member without indexing a sequence it is
      about to rule out. */
  function FirstOr0(s: seq<nat>): nat {
    if |s| == 0 then 0 else s[0]
  }

  /** A sequence with no members is empty; `NothingSuggested` needs it for the
      list of `move` calls, which it knows only member by member. */
  lemma NoMemberIsEmpty(s: seq<nat>)
    requires forall c :: c !in s
    ensures s == []
  {
    assert s == [] || FirstOr0(s) in s;
  }

  /** A batch with no new names marks nothing, calls `move` on nothing, and
      gives every entry the "no new name" warning. */
  lemma NothingSuggested(files: seq<FileItem>, move: (Handle, string) -> MoveResult)
    requires forall i :: 0 <= i < |files| ==> !HasNewName(files[i])
    ensures var r := RenamePass(files, move);
      && r.collisionFiles == {} && r.moveCalls == [] && r.successful == 0
      && (forall i :: 0 <= i < |files| ==>
            r.files[i].renameStatus == Some(Warning) && r.results[i] == NotRenamed(NoNewNameResult, files[i].originalName))
      && r.summary == (if |files| == 0 then AllRenamed(0) else NoneRenamed(|files|, 0))
  {
    var marks := Collisions.CheckForCollisions(files).collisionFiles;
    if q :| q in marks {
      Collisions.CollisionFilesAreConsidered(files, q);
      assert false;
    }
    assert marks == {};
    var r := RenamePass(files, move);
    NoMemberIsEmpty(r.moveCalls);
    CountMarkedNothing(files);
    SummaryBreakdown(files, move);
  }
}
