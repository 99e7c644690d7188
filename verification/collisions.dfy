/** The batch-local collision check run before renaming (`checkForCollisions`):
    one pass over the batch, grouping entries by parent path and looking each
    suggested name up among the names already registered for that parent. */
module Collisions {
  import opened Types
  import opened Strings

  /** An entry the detector looks at: it has a suggestion that is non-empty
      and differs from its original name. */
  predicate Considered(f: FileItem) {
    HasNewName(f)
  }

  /** Both entries are considered and would get the same name in the same
      parent path. */
  predicate SameTarget(a: FileItem, b: FileItem) {
    Considered(a) && Considered(b)
    && ParentPath(a.path) == ParentPath(b.path) && a.suggestedName == b.suggestedName
  }

  /** Entry `j` is the first considered entry of its (parent, target) key. */
  predicate IsFirst(files: seq<FileItem>, j: int)
    requires 0 <= j < |files|
  {
    Considered(files[j]) && forall k :: 0 <= k < j ==> !SameTarget(files[k], files[j])
  }

  /** Entry `i` clashes with some earlier entry. */
  predicate Clashes(files: seq<FileItem>, i: int)
    requires 0 <= i < |files|
  {
    exists k :: 0 <= k < i && SameTarget(files[k], files[i])
  }

  /** Entry `i` shares its key with another entry among the first `n`. */
  predicate InCollision(files: seq<FileItem>, n: int, i: int)
    requires 0 <= i < |files| && n <= |files|
  {
    exists k :: 0 <= k < n && k != i && SameTarget(files[i], files[k])
  }

  /** How many of the first `n` entries clash with an earlier one. */
  function CountClashes(files: seq<FileItem>, n: nat): nat
    requires n <= |files|
  {
    if n == 0 then 0 else CountClashes(files, n - 1) + (if Clashes(files, n - 1) then 1 else 0)
  }

  /** A name registered for a parent path, with the path of the entry that
      registered it. */
  datatype Registered = Registered(name: string, originalPath: string)

  /** The fixed words of a collision message. */
  const Lead := "Naming collision: \""
  const And := "\" and \""
  const WouldBoth := "\" would both be renamed to \""

  /** One collision message: the entry being scanned, the last path segment of
      the entry it clashed with, and the shared target name. */
  datatype CollisionError = CollisionError(originalName: string, otherName: string, target: string) {
    /** The logged text of the message: it names both entries and the
        shared target. */
    function Text(): (r: string)
      ensures |r| > |Lead| && r[..|Lead|] == Lead
      ensures Contains(r, originalName) && Contains(r, otherName) && Contains(r, target)
    {
      var t := target + "\"";
      var o := otherName + (WouldBoth + t);
      var r := Lead + (originalName + (And + o));
      ShowsFirst(target, "\"");
      ShowsFirst(otherName, WouldBoth + t);
      ShowsFirst(originalName, And + o);
      ContainsPrepend(WouldBoth, t, target);
      ContainsPrepend(otherName, WouldBoth + t, target);
      ContainsPrepend(And, o, target);
      ContainsPrepend(And, o, otherName);
      ContainsPrepend(originalName, And + o, target);
      ContainsPrepend(originalName, And + o, otherName);
      ContainsPrepend(Lead, originalName + (And + o), target);
      ContainsPrepend(Lead, originalName + (And + o), otherName);
      ContainsPrepend(Lead, originalName + (And + o), originalName);
      r
    }
  }

  /** The state of the pass: names registered per parent path, the messages
      so far and the paths marked as colliding. */
  datatype ScanState = ScanState(
    groups: map<string, seq<Registered>>,
    errors: seq<CollisionError>,
    collisionFiles: set<string>)

  /** `filesInDirectory.find(f => f.name === name)`: the first registration
      with that name. */
  function Find(list: seq<Registered>, name: string): (r: Option<Registered>)
    ensures r.Some? ==> r.value in list && r.value.name == name
    ensures r.None? <==> forall k :: 0 <= k < |list| ==> list[k].name != name
    ensures r.Some? ==> exists k :: 0 <= k < |list| && list[k] == r.value && forall j :: 0 <= j < k ==> list[j].name != name
  {
    if |list| == 0 then None
    else if list[0].name == name then Some(list[0])
    else Find(list[1..], name)
  }

  /** The body of the loop for one entry. */
  function Step(st: ScanState, f: FileItem): ScanState {
    if !Considered(f) then st
    else
      var parent := ParentPath(f.path);
      var group := if parent in st.groups then st.groups[parent] else [];
      match Find(group, f.suggestedName.value)
      case Some(dup) =>
        st.(errors := st.errors + [CollisionError(f.originalName, LastSegment(dup.originalPath), f.suggestedName.value)],
            collisionFiles := st.collisionFiles + {f.path, dup.originalPath})
      case None =>
        st.(groups := st.groups[parent := group + [Registered(f.suggestedName.value, f.path)]])
  }

  /** The state after the first `n` entries. */
  function ScanPrefix(files: seq<FileItem>, n: nat): ScanState
    requires n <= |files|
  {
    if n == 0 then ScanState(map[], [], {}) else Step(ScanPrefix(files, n - 1), files[n - 1])
  }

  /** The result of `checkForCollisions`. */
  datatype Report = Report(hasCollisions: bool, errors: seq<CollisionError>, collisionFiles: set<string>)

  function CheckForCollisions(files: seq<FileItem>): (r: Report)
    ensures |r.errors| == CountClashes(files, |files|)
    ensures r.hasCollisions <==> r.collisionFiles != {}
  {
    var st := ScanPrefix(files, |files|);
    ScanInvariant(files, |files|);
    Report(|st.errors| > 0, st.errors, st.collisionFiles)
  }

  // ---------------------------------------------------------------------
  // The invariant of the pass, one piece per field of the state

  /** Registration `r` under parent `p` was made by the first entry of its key
      among the first `n`. */
  ghost predicate RegisteredBy(files: seq<FileItem>, n: nat, p: string, r: Registered)
    requires n <= |files|
  {
    exists j :: 0 <= j < n && IsFirst(files, j) && ParentPath(files[j].path) == p
      && files[j].suggestedName == Some(r.name) && files[j].path == r.originalPath
  }

  ghost predicate RegisteredByFirst(files: seq<FileItem>, n: nat, groups: map<string, seq<Registered>>)
    requires n <= |files|
  {
    forall p, r :: p in groups && r in groups[p] ==> RegisteredBy(files, n, p, r)
  }

  /** Every considered entry's target is registered under its parent. */
  ghost predicate AllRegistered(files: seq<FileItem>, n: nat, groups: map<string, seq<Registered>>)
    requires n <= |files|
  {
    forall j :: 0 <= j < n && Considered(files[j]) ==>
      ParentPath(files[j].path) in groups
      && Find(groups[ParentPath(files[j].path)], files[j].suggestedName.value).Some?
  }

  /** `q` is the path of an entry that collides among the first `n`. */
  ghost predicate Marked(files: seq<FileItem>, n: nat, q: string)
    requires n <= |files|
  {
    exists i :: 0 <= i < n && InCollision(files, n, i) && files[i].path == q
  }

  /** The marked paths are exactly the paths of colliding entries. */
  ghost predicate MarksExact(files: seq<FileItem>, n: nat, marks: set<string>)
    requires n <= |files|
  {
    forall q :: q in marks <==> Marked(files, n, q)
  }

  /** The message for entry `f` clashing with the registered entry `g`. */
  function Describe(f: FileItem, g: FileItem): CollisionError
    requires Considered(f)
  {
    CollisionError(f.originalName, LastSegment(g.path), f.suggestedName.value)
  }

  /** `e` describes a clashing entry together with the first entry of its key. */
  ghost predicate NamesFirst(files: seq<FileItem>, n: nat, e: CollisionError)
    requires n <= |files|
  {
    exists i, j :: 0 <= j < i < n && IsFirst(files, j) && SameTarget(files[j], files[i])
      && e == Describe(files[i], files[j])
  }

  ghost predicate MessagesNameFirst(files: seq<FileItem>, n: nat, errors: seq<CollisionError>)
    requires n <= |files|
  {
    forall e :: e in errors ==> NamesFirst(files, n, e)
  }

  ghost predicate Inv(files: seq<FileItem>, n: nat, st: ScanState)
    requires n <= |files|
  {
    && RegisteredByFirst(files, n, st.groups)
    && AllRegistered(files, n, st.groups)
    && MarksExact(files, n, st.collisionFiles)
    && MessagesNameFirst(files, n, st.errors)
    && |st.errors| == CountClashes(files, n)
    && (|st.errors| == 0 <==> st.collisionFiles == {})
  }

  /** Two first entries of the same key are the same entry. */
  lemma FirstIsUnique(files: seq<FileItem>, i: int, j: int)
    requires 0 <= i < |files| && 0 <= j < |files|
    requires IsFirst(files, i) && IsFirst(files, j)
    requires ParentPath(files[i].path) == ParentPath(files[j].path)
    requires files[i].suggestedName == files[j].suggestedName
    ensures i == j
  {
    if i < j {
      assert SameTarget(files[i], files[j]);
    } else if j < i {
      assert SameTarget(files[j], files[i]);
    }
  }

  /** The group an entry is looked up in. */
  function GroupOf(groups: map<string, seq<Registered>>, f: FileItem): seq<Registered> {
    var parent := ParentPath(f.path);
    if parent in groups then groups[parent] else []
  }

  /** Entry `n` finds a registration exactly when it clashes with an earlier
      entry; what it finds was registered by the first entry of its key. */
  lemma StepLookup(files: seq<FileItem>, n: nat, groups: map<string, seq<Registered>>)
    requires n < |files| && Considered(files[n])
    requires RegisteredByFirst(files, n, groups) && AllRegistered(files, n, groups)
    ensures Find(GroupOf(groups, files[n]), files[n].suggestedName.value).Some? <==> Clashes(files, n)
    ensures Find(GroupOf(groups, files[n]), files[n].suggestedName.value).Some? ==>
      exists j :: 0 <= j < n && IsFirst(files, j) && SameTarget(files[j], files[n])
        && files[j].path == Find(GroupOf(groups, files[n]), files[n].suggestedName.value).value.originalPath
  {
    var f := files[n];
    var parent := ParentPath(f.path);
    var found := Find(GroupOf(groups, f), f.suggestedName.value);
    if found.Some? {
      var r := found.value;
      assert parent in groups && r in groups[parent];
      assert RegisteredBy(files, n, parent, r);
      var j :| 0 <= j < n && IsFirst(files, j) && ParentPath(files[j].path) == parent
        && files[j].suggestedName == Some(r.name) && files[j].path == r.originalPath;
      assert SameTarget(files[j], f);
    }
    if Clashes(files, n) {
      var k :| 0 <= k < n && SameTarget(files[k], f);
      assert Find(groups[ParentPath(files[k].path)], files[k].suggestedName.value).Some?;
    }
  }

  lemma RegisteredGrows(files: seq<FileItem>, n: nat, groups: map<string, seq<Registered>>)
    requires n < |files| && RegisteredByFirst(files, n, groups)
    ensures RegisteredByFirst(files, n + 1, groups)
  {
    forall p: string, r: Registered | p in groups && r in groups[p] ensures RegisteredBy(files, n + 1, p, r) {
      assert RegisteredBy(files, n, p, r);
    }
  }

  lemma AllRegisteredClash(files: seq<FileItem>, n: nat, groups: map<string, seq<Registered>>)
    requires n < |files| && Considered(files[n]) && AllRegistered(files, n, groups)
    requires Find(GroupOf(groups, files[n]), files[n].suggestedName.value).Some?
    ensures AllRegistered(files, n + 1, groups)
  {
  }

  lemma MessagesClash(files: seq<FileItem>, n: nat, j: nat, errors: seq<CollisionError>)
    requires n < |files| && j < n && IsFirst(files, j) && SameTarget(files[j], files[n])
    requires MessagesNameFirst(files, n, errors)
    ensures MessagesNameFirst(files, n + 1, errors + [Describe(files[n], files[j])])
  {
    forall e | e in errors + [Describe(files[n], files[j])] ensures NamesFirst(files, n + 1, e) {
      if e in errors {
        assert NamesFirst(files, n, e);
      } else {
        assert e == Describe(files[n], files[j]);
      }
    }
  }

  lemma MessagesSame(files: seq<FileItem>, n: nat, errors: seq<CollisionError>)
    requires n < |files| && MessagesNameFirst(files, n, errors)
    ensures MessagesNameFirst(files, n + 1, errors)
  {
    forall e | e in errors ensures NamesFirst(files, n + 1, e) {
      assert NamesFirst(files, n, e);
    }
  }

  /** Entry `i` collides among the first `n + 1` entries, but not among the
      first `n`: its only partner is entry `n`, so it is the first of its key. */
  lemma NewPartnerIsFirst(files: seq<FileItem>, n: nat, i: nat)
    requires n < |files| && i < n
    requires InCollision(files, n + 1, i) && !InCollision(files, n, i)
    ensures IsFirst(files, i) && SameTarget(files[i], files[n])
  {
    var k :| 0 <= k < n + 1 && k != i && SameTarget(files[i], files[k]);
    forall k' | 0 <= k' < i ensures !SameTarget(files[k'], files[i]) {
      assert !(k' != i && SameTarget(files[i], files[k']));
    }
  }

  /** When entry `n` clashes with the first entry `j` of its key, marking the
      two paths keeps the marks exact. */
  lemma MarksClash(files: seq<FileItem>, n: nat, j: nat, marks: set<string>)
    requires n < |files| && j < n && IsFirst(files, j) && SameTarget(files[j], files[n])
    requires MarksExact(files, n, marks)
    ensures MarksExact(files, n + 1, marks + {files[n].path, files[j].path})
  {
    var f := files[n];
    var marks' := marks + {f.path, files[j].path};
    assert InCollision(files, n + 1, n) by { assert SameTarget(f, files[j]); }
    assert InCollision(files, n + 1, j) by { assert SameTarget(files[j], f); }
    forall q ensures q in marks' <==> Marked(files, n + 1, q) {
      if q in marks {
        assert Marked(files, n, q);
        var i :| 0 <= i < n && InCollision(files, n, i) && files[i].path == q;
        assert InCollision(files, n + 1, i);
      } else if q !in marks' {
        forall i | 0 <= i < n + 1 && InCollision(files, n + 1, i) ensures files[i].path != q {
          if i < n && !InCollision(files, n, i) {
            NewPartnerIsFirst(files, n, i);
            FirstIsUnique(files, i, j);
          } else if i < n {
            assert Marked(files, n, files[i].path);
          }
        }
      } else if q == f.path {
        assert Marked(files, n + 1, q) by { assert files[n].path == q; }
      } else {
        assert Marked(files, n + 1, q) by { assert files[j].path == q; }
      }
    }
  }

  /** When entry `n` does not collide with an earlier one, no entry starts to
      collide. */
  lemma MarksFresh(files: seq<FileItem>, n: nat, marks: set<string>)
    requires n < |files| && !Clashes(files, n)
    requires MarksExact(files, n, marks)
    ensures MarksExact(files, n + 1, marks)
  {
    forall i | 0 <= i < n + 1 && InCollision(files, n + 1, i) ensures i < n && InCollision(files, n, i) {
      var k :| 0 <= k < n + 1 && k != i && SameTarget(files[i], files[k]);
    }
    forall i | 0 <= i < n && InCollision(files, n, i) ensures InCollision(files, n + 1, i) {
    }
    forall q ensures Marked(files, n + 1, q) <==> Marked(files, n, q) {
      if Marked(files, n + 1, q) {
        var i :| 0 <= i < n + 1 && InCollision(files, n + 1, i) && files[i].path == q;
      }
      if Marked(files, n, q) {
        var i :| 0 <= i < n && InCollision(files, n, i) && files[i].path == q;
      }
    }
  }

  lemma RegisteredFresh(files: seq<FileItem>, n: nat, groups: map<string, seq<Registered>>)
    requires n < |files| && Considered(files[n]) && !Clashes(files, n)
    requires RegisteredByFirst(files, n, groups)
    ensures RegisteredByFirst(files, n + 1,
      groups[ParentPath(files[n].path) := GroupOf(groups, files[n]) + [Registered(files[n].suggestedName.value, files[n].path)]])
  {
    var f := files[n];
    var parent := ParentPath(f.path);
    var group := GroupOf(groups, f);
    var reg := Registered(f.suggestedName.value, f.path);
    var newGroups := groups[parent := group + [reg]];
    assert IsFirst(files, n);
    RegisteredGrows(files, n, groups);
    forall p: string, r: Registered | p in newGroups && r in newGroups[p] ensures RegisteredBy(files, n + 1, p, r) {
      if p == parent && r == reg {
        assert files[n].suggestedName == Some(r.name);
      } else if p == parent {
        assert r in group;
      } else {
        assert r in groups[p];
      }
    }
  }

  lemma AllRegisteredFresh(files: seq<FileItem>, n: nat, groups: map<string, seq<Registered>>)
    requires n < |files| && Considered(files[n]) && AllRegistered(files, n, groups)
    ensures AllRegistered(files, n + 1,
      groups[ParentPath(files[n].path) := GroupOf(groups, files[n]) + [Registered(files[n].suggestedName.value, files[n].path)]])
  {
    var f := files[n];
    var parent := ParentPath(f.path);
    var group := GroupOf(groups, f);
    var grown := group + [Registered(f.suggestedName.value, f.path)];
    var newGroups := groups[parent := grown];
    forall j | 0 <= j < n + 1 && Considered(files[j])
      ensures ParentPath(files[j].path) in newGroups
        && Find(newGroups[ParentPath(files[j].path)], files[j].suggestedName.value).Some?
    {
      if ParentPath(files[j].path) == parent {
        if j == n {
          assert grown[|group|].name == files[j].suggestedName.value;
        } else {
          var w := Find(group, files[j].suggestedName.value).value;
          assert w in grown;
        }
      }
    }
  }

  lemma StepSkip(files: seq<FileItem>, n: nat, st: ScanState)
    requires n < |files| && Inv(files, n, st) && !Considered(files[n])
    ensures Inv(files, n + 1, Step(st, files[n]))
  {
    assert Step(st, files[n]) == st;
    assert !Clashes(files, n);
    assert CountClashes(files, n + 1) == CountClashes(files, n);
    RegisteredGrows(files, n, st.groups);
    MarksFresh(files, n, st.collisionFiles);
    MessagesSame(files, n, st.errors);
  }

  lemma StepClash(files: seq<FileItem>, n: nat, st: ScanState)
    requires n < |files| && Inv(files, n, st) && Considered(files[n])
    requires Find(GroupOf(st.groups, files[n]), files[n].suggestedName.value).Some?
    ensures Inv(files, n + 1, Step(st, files[n]))
  {
    var f := files[n];
    StepLookup(files, n, st.groups);
    var dup := Find(GroupOf(st.groups, f), f.suggestedName.value).value;
    var j :| 0 <= j < n && IsFirst(files, j) && SameTarget(files[j], f) && files[j].path == dup.originalPath;
    assert Step(st, f) == ScanState(st.groups, st.errors + [Describe(f, files[j])], st.collisionFiles + {f.path, files[j].path});
    ClashKeeps(files, n, j, st);
  }

  /** The state after entry `n` clashes with the earlier first entry `j`
      keeps the invariant. */
  lemma ClashKeeps(files: seq<FileItem>, n: nat, j: nat, st: ScanState)
    requires n < |files| && Inv(files, n, st) && Considered(files[n])
    requires j < n && IsFirst(files, j) && SameTarget(files[j], files[n])
    requires Find(GroupOf(st.groups, files[n]), files[n].suggestedName.value).Some?
    ensures Inv(files, n + 1, ScanState(st.groups, st.errors + [Describe(files[n], files[j])],
                                        st.collisionFiles + {files[n].path, files[j].path}))
  {
    var errors := st.errors + [Describe(files[n], files[j])];
    var marks := st.collisionFiles + {files[n].path, files[j].path};
    assert Clashes(files, n) by {
      assert 0 <= j < n && SameTarget(files[j], files[n]);
    }
    assert |errors| == CountClashes(files, n + 1);
    assert files[n].path in marks;
    assert |errors| == 0 <==> marks == {};
    RegisteredGrows(files, n, st.groups);
    AllRegisteredClash(files, n, st.groups);
    MarksClash(files, n, j, st.collisionFiles);
    MessagesClash(files, n, j, st.errors);
  }

  lemma StepFresh(files: seq<FileItem>, n: nat, st: ScanState)
    requires n < |files| && Inv(files, n, st) && Considered(files[n])
    requires Find(GroupOf(st.groups, files[n]), files[n].suggestedName.value).None?
    ensures Inv(files, n + 1, Step(st, files[n]))
  {
    var f := files[n];
    StepLookup(files, n, st.groups);
    var st' := Step(st, f);
    assert st' == st.(groups := st.groups[ParentPath(f.path) := GroupOf(st.groups, f) + [Registered(f.suggestedName.value, f.path)]]);
    assert CountClashes(files, n + 1) == CountClashes(files, n);
    RegisteredFresh(files, n, st.groups);
    AllRegisteredFresh(files, n, st.groups);
    MarksFresh(files, n, st.collisionFiles);
    MessagesSame(files, n, st.errors);
  }

  /** One step of the fold keeps the invariant. */
  lemma StepKeeps(files: seq<FileItem>, n: nat)
    requires n < |files| && Inv(files, n, ScanPrefix(files, n))
    ensures Inv(files, n + 1, ScanPrefix(files, n + 1))
  {
    var st := ScanPrefix(files, n);
    if !Considered(files[n]) {
      StepSkip(files, n, st);
    } else if Find(GroupOf(st.groups, files[n]), files[n].suggestedName.value).Some? {
      StepClash(files, n, st);
    } else {
      StepFresh(files, n, st);
    }
  }

  lemma ScanInvariant(files: seq<FileItem>, n: nat)
    requires n <= |files|
    ensures Inv(files, n, ScanPrefix(files, n))
  {
    var k := 0;
    while k < n
      invariant k <= n && Inv(files, k, ScanPrefix(files, k))
    {
      StepKeeps(files, k);
      k := k + 1;
    }
  }


  // ---------------------------------------------------------------------
  // What `checkForCollisions` reports

  /** Two distinct entries that would get the same name in the same parent
      path are both marked: the detection is symmetric. */
  lemma CollisionsSymmetric(files: seq<FileItem>, i: int, j: int)
    requires 0 <= i < |files| && 0 <= j < |files| && i != j
    requires SameTarget(files[i], files[j])
    ensures files[i].path in CheckForCollisions(files).collisionFiles
    ensures files[j].path in CheckForCollisions(files).collisionFiles
  {
    ScanInvariant(files, |files|);
    assert InCollision(files, |files|, i);
    assert InCollision(files, |files|, j) by { assert SameTarget(files[j], files[i]); }
    assert Marked(files, |files|, files[i].path);
    assert Marked(files, |files|, files[j].path);
  }

  /** A path is marked exactly when it belongs to an entry that shares its
      (parent, target) key with another entry. */
  lemma CollisionFilesExact(files: seq<FileItem>, q: string)
    ensures q in CheckForCollisions(files).collisionFiles <==>
      exists i, j :: 0 <= i < |files| && 0 <= j < |files| && i != j
        && SameTarget(files[i], files[j]) && files[i].path == q
  {
    ScanInvariant(files, |files|);
    if q in CheckForCollisions(files).collisionFiles {
      assert Marked(files, |files|, q);
      var i :| 0 <= i < |files| && InCollision(files, |files|, i) && files[i].path == q;
      var j :| 0 <= j < |files| && j != i && SameTarget(files[i], files[j]);
    }
  }

  /** Only paths of considered entries are marked: entries without a
      suggestion, or whose suggestion is their original name, are ignored. */
  lemma CollisionFilesAreConsidered(files: seq<FileItem>, q: string)
    requires q in CheckForCollisions(files).collisionFiles
    ensures exists i :: 0 <= i < |files| && Considered(files[i]) && files[i].path == q
  {
    CollisionFilesExact(files, q);
    var i, j :| 0 <= i < |files| && 0 <= j < |files| && i != j
      && SameTarget(files[i], files[j]) && files[i].path == q;
  }

  /** `hasCollisions` holds exactly when there are messages, exactly when some
      path is marked, exactly when two entries share a key. */
  lemma HasCollisionsIff(files: seq<FileItem>)
    ensures var r := CheckForCollisions(files);
      (r.hasCollisions <==> |r.errors| > 0)
      && (r.hasCollisions <==> r.collisionFiles != {})
      && (r.hasCollisions <==>
            exists i, j :: 0 <= i < |files| && 0 <= j < |files| && i != j && SameTarget(files[i], files[j]))
  {
    var r := CheckForCollisions(files);
    ScanInvariant(files, |files|);
    if exists i, j :: 0 <= i < |files| && 0 <= j < |files| && i != j && SameTarget(files[i], files[j]) {
      var i, j :| 0 <= i < |files| && 0 <= j < |files| && i != j && SameTarget(files[i], files[j]);
      CollisionsSymmetric(files, i, j);
    }
    if r.collisionFiles != {} {
      var q :| q in r.collisionFiles;
      CollisionFilesExact(files, q);
    }
  }

  /** One message per entry that clashes with an earlier one, and each message
      names the FIRST entry of the key as the other party: with three entries
      sharing a key, the second and the third are never named together. */
  lemma ErrorsPerLaterEntry(files: seq<FileItem>)
    ensures |CheckForCollisions(files).errors| == CountClashes(files, |files|)
    ensures forall e :: e in CheckForCollisions(files).errors ==>
      exists i, j :: 0 <= j < i < |files| && IsFirst(files, j) && SameTarget(files[j], files[i])
        && e == Describe(files[i], files[j])
  {
    ScanInvariant(files, |files|);
    forall e | e in CheckForCollisions(files).errors
      ensures
        exists i, j :: 0 <= j < i < |files| && IsFirst(files, j) && SameTarget(files[j], files[i])
          && e == Describe(files[i], files[j])
    {
      assert NamesFirst(files, |files|, e);
    }
  }

  lemma {:induction false} ScanIgnoresReplaced(files: seq<FileItem>, k: int, g: FileItem, n: nat)
    requires 0 <= k < |files| && !Considered(files[k]) && !Considered(g) && n <= |files|
    ensures ScanPrefix(files[k := g], n) == ScanPrefix(files, n)
  {
    if n > 0 {
      ScanIgnoresReplaced(files, k, g, n - 1);
    }
  }

  /** The report does not depend on entries that are not considered: replacing
      one by any other entry that is not considered changes nothing. */
  lemma IgnoresUnconsidered(files: seq<FileItem>, k: int, g: FileItem)
    requires 0 <= k < |files| && !Considered(files[k]) && !Considered(g)
    ensures CheckForCollisions(files[k := g]) == CheckForCollisions(files)
  {
    ScanIgnoresReplaced(files, k, g, |files|);
  }

  /** Three entries that would all get the same name in the same parent: two
      messages, both naming the first entry as the other party (the second and
      third are never reported as a pair), and all three paths marked. */
  lemma ThreeWayCollision(a: FileItem, b: FileItem, c: FileItem)
    requires SameTarget(a, b) && SameTarget(a, c)
    ensures CheckForCollisions([a, b, c]) == Report(true, [Describe(b, a), Describe(c, a)], {a.path, b.path, c.path})
  {
    var files := [a, b, c];
    var parent := ParentPath(a.path);
    var reg := Registered(a.suggestedName.value, a.path);
    var s1 := ScanState(map[parent := [reg]], [], {});
    assert [] + [reg] == [reg];
    assert ScanPrefix(files, 1) == s1;
    assert Find([reg], b.suggestedName.value) == Some(reg);
    var s2 := ScanState(s1.groups, [Describe(b, a)], {b.path, a.path});
    assert ScanPrefix(files, 2) == s2;
    assert ScanPrefix(files, 3) == ScanState(s1.groups, [Describe(b, a), Describe(c, a)], {b.path, a.path, c.path});
  }
}
