/** Turning what the user picked or dropped into entries of the batch. A
    directory's listing (`processDirectoryHandle`) names each entry after its
    immediate parent only: the path of a file two levels down is
    `<subdirectory>/<file>`, without the top directory. The browser's handles,
    permissions and failures are inputs. */
module FileManager {
  import opened Types
  import opened Strings

  /** A handle as the picker, the drop or a directory iteration yields it. A
      file whose `getFile()` throws is not `readable`; `failAt == Some(k)` says
      the iteration of a directory throws when it reaches its `k`-th entry. */
  datatype Node =
    | FileNode(name: string, handle: Handle, readable: bool)
    | DirNode(name: string, handle: Handle, children: seq<Node>, failAt: Option<nat>)

  /** The detail of the `show-error` event. */
  const UnsupportedBrowserText := "This application requires a modern browser with File System Access API support (Chrome 86+ or Edge 86+). Please use a supported browser."

  /** What the component dispatches. */
  datatype Event = NoEvent | FilesAdded(items: seq<FileItem>) | ShowError(detail: string)

  // ---------------------------------------------------------------------
  // Directory listing

  /** The listing loop stops at entry `j`: the iteration throws there, or
      the entry is a file whose contents cannot be read. */
  predicate StopsAt(d: Node, j: nat)
    requires d.DirNode? && j < |d.children|
  {
    d.failAt == Some(j) || (d.children[j].FileNode? && !d.children[j].readable)
  }

  /** The item for child `c` of directory `d`: its path is the directory's
      name, a slash, and the child's name. */
  function EntryOf(d: Node, c: Node): FileItem {
    NewItem(d.name + "/" + c.name, c.name, c.DirNode?, c.handle)
  }

  /** `processDirectoryHandle(d)` from its `i`-th entry on. Any throw inside
      the loop ends the listing of `d` with the items collected so far; a
      subdirectory's own failures are absorbed by its own call. */
  function ListFrom(d: Node, i: nat): (items: seq<FileItem>)
    requires d.DirNode?
    decreases d, |d.children| - i
  {
    if i >= |d.children| || StopsAt(d, i) then []
    else
      var c := d.children[i];
      [EntryOf(d, c)] + (if c.DirNode? then ListFrom(c, 0) else []) + ListFrom(d, i + 1)
  }

  /** `processDirectoryHandle(d)`: empty exactly when the loop stops at the
      first entry, and otherwise led by that entry (see `ListingShape` for
      the shape of every entry). */
  function Listing(d: Node): (r: seq<FileItem>)
    requires d.DirNode?
    ensures r == [] <==> |d.children| == 0 || StopsAt(d, 0)
    ensures r != [] ==> r[0] == EntryOf(d, d.children[0])
  {
    ListFrom(d, 0)
  }

  /** The names of `d` and of every directory below it, from entry `i` on. */
  function DirNamesFrom(d: Node, i: nat): (names: set<string>)
    requires d.DirNode?
    ensures d.name in names
    decreases d, |d.children| - i
  {
    if i >= |d.children| then {d.name}
    else
      var c := d.children[i];
      (if c.DirNode? then DirNamesFrom(c, 0) else {}) + DirNamesFrom(d, i + 1)
  }

  /** Every entry of a listing is fresh (named after itself, with its handle,
      no suggestion, no status), and its path is the name of one directory of
      the tree, a slash, and its own name. */
  lemma {:induction false} ListingShape(d: Node, i: nat)
    requires d.DirNode?
    ensures forall x :: x in ListFrom(d, i) ==>
      x.originalName == x.name && x.handle.Some? && x.suggestedName.None? && x.renameStatus.None? && !x.isRetrying
      && exists p :: p in DirNamesFrom(d, 0) && x.path == p + "/" + x.name
    decreases d, |d.children| - i
  {
    DirNamesFromGrows(d, i);
    if i < |d.children| && !StopsAt(d, i) {
      var c := d.children[i];
      ListingShape(d, i + 1);
      DirNamesFromGrows(d, i + 1);
      if c.DirNode? {
        ListingShape(c, 0);
        DirNamesFromGrows(d, i);
      }
    }
  }

  /** The names collected from entry `i` on are among those collected from the
      start. */
  lemma {:induction false} DirNamesFromGrows(d: Node, i: nat)
    requires d.DirNode?
    ensures DirNamesFrom(d, i) <= DirNamesFrom(d, 0)
    ensures i < |d.children| && d.children[i].DirNode? ==> DirNamesFrom(d.children[i], 0) <= DirNamesFrom(d, 0)
    decreases |d.children| - i
  {
    if i > 0 && i <= |d.children| {
      DirNamesFromTail(d, 0, i);
    }
    if i < |d.children| && d.children[i].DirNode? {
      DirNamesFromTail(d, 0, i);
    }
  }

  lemma {:induction false} DirNamesFromTail(d: Node, j: nat, i: nat)
    requires d.DirNode? && j <= i
    ensures DirNamesFrom(d, i) <= DirNamesFrom(d, j)
    ensures i < |d.children| && d.children[i].DirNode? ==> DirNamesFrom(d.children[i], 0) <= DirNamesFrom(d, j)
    decreases i - j
  {
    if j < i && j < |d.children| {
      DirNamesFromTail(d, j + 1, i);
    }
  }

  /** The entry at index `c` is reached: nothing before it, nor it, stops the
      loop. */
  predicate Reached(d: Node, c: nat)
    requires d.DirNode?
  {
    c < |d.children| && forall j :: 0 <= j <= c ==> !StopsAt(d, j)
  }

  /** The listing from entry `i` starts with that entry's own contribution. */
  lemma ListFromUnfold(d: Node, i: nat)
    requires d.DirNode? && i < |d.children| && !StopsAt(d, i)
    ensures var c := d.children[i];
      ListFrom(d, i) == [EntryOf(d, c)]
        + (if c.DirNode? then ListFrom(c, 0) else []) + ListFrom(d, i + 1)
  {
  }

  /** A reached file yields an entry `<dirName>/<fileName>`. */
  lemma {:induction false} ReachedFile(d: Node, i: nat, c: nat)
    requires d.DirNode? && i <= c && Reached(d, c) && d.children[c].FileNode?
    ensures EntryOf(d, d.children[c]) in ListFrom(d, i)
    decreases |d.children| - i
  {
    ListFromUnfold(d, i);
    if i < c {
      ReachedFile(d, i + 1, c);
    }
  }

  /** An entry followed by `sub` inside `tail` stays so inside `head + tail`. */
  lemma HitShifts(head: seq<FileItem>, tail: seq<FileItem>, item: FileItem, sub: seq<FileItem>, k: nat)
    requires k < |tail| && tail[k] == item && sub <= tail[k + 1..]
    ensures var l := head + tail; l[|head| + k] == item && sub <= l[|head| + k + 1..]
  {
    assert (head + tail)[|head| + k + 1..] == tail[k + 1..];
  }

  /** An entry followed by `sub` in the listing from entry `i + 1` is still
      so, further on, in the listing from entry `i`. */
  lemma ShiftedHit(d: Node, i: nat, item: FileItem, sub: seq<FileItem>, k: nat) returns (k': nat)
    requires d.DirNode? && i < |d.children| && !StopsAt(d, i)
    requires var l := ListFrom(d, i + 1); k < |l| && l[k] == item && sub <= l[k + 1..]
    ensures var l := ListFrom(d, i); k' < |l| && l[k'] == item && sub <= l[k' + 1..]
  {
    var c := d.children[i];
    var head := [EntryOf(d, c)] + (if c.DirNode? then ListFrom(c, 0) else []);
    assert ListFrom(d, i) == head + ListFrom(d, i + 1);
    HitShifts(head, ListFrom(d, i + 1), item, sub, k);
    k' := |head| + k;
  }

  /** A subdirectory that does not stop the loop is listed right after its
      own entry. */
  lemma DirectoryHere(d: Node, c: nat)
    requires d.DirNode? && c < |d.children| && !StopsAt(d, c) && d.children[c].DirNode?
    ensures var n := d.children[c]; var l := ListFrom(d, c);
      0 < |l| && l[0] == EntryOf(d, n) && ListFrom(n, 0) <= l[1..]
  {
    var n := d.children[c];
    assert ListFrom(d, c) == [EntryOf(d, n)] + (ListFrom(n, 0) + ListFrom(d, c + 1));
  }

  /** The position in the listing from entry `i` at which a reached
      subdirectory `c` shows up. */
  lemma {:induction false} DirectoryEntryAt(d: Node, i: nat, c: nat) returns (k: nat)
    requires d.DirNode? && i <= c && Reached(d, c) && d.children[c].DirNode?
    ensures var n := d.children[c]; var l := ListFrom(d, i);
      k < |l| && l[k] == EntryOf(d, n) && ListFrom(n, 0) <= l[k + 1..]
    decreases |d.children| - i
  {
    var n := d.children[c];
    if i < c {
      assert !StopsAt(d, i);
      var k' := DirectoryEntryAt(d, i + 1, c);
      var item, sub := EntryOf(d, n), ListFrom(n, 0);
      k := ShiftedHit(d, i, item, sub, k');
    } else {
      DirectoryHere(d, c);
      k := 0;
    }
  }

  /** A reached subdirectory yields its own entry followed at once by its
      listing. */
  lemma ReachedDirectory(d: Node, i: nat, c: nat)
    requires d.DirNode? && i <= c && Reached(d, c) && d.children[c].DirNode?
    ensures var n := d.children[c]; var l := ListFrom(d, i);
      exists k :: 0 <= k < |l| && l[k] == EntryOf(d, n) && ListFrom(n, 0) <= l[k + 1..]
  {
    var k := DirectoryEntryAt(d, i, c);
  }

  /** A throw during the iteration keeps what was listed before it: the
      listing with a failure is a prefix of the listing without one. */
  lemma {:induction false} FailureKeepsPrefix(d: Node, k: nat, i: nat)
    requires d.DirNode? && d.failAt.None?
    ensures ListFrom(d.(failAt := Some(k)), i) <= ListFrom(d, i)
    decreases |d.children| - i
  {
    var f := d.(failAt := Some(k));
    if i < |d.children| && !StopsAt(f, i) {
      FailureKeepsPrefix(d, k, i + 1);
      var c := d.children[i];
      var head := [EntryOf(d, c)] + (if c.DirNode? then ListFrom(c, 0) else []);
      assert ListFrom(f, i) == head + ListFrom(f, i + 1);
      assert ListFrom(d, i) == head + ListFrom(d, i + 1);
    }
  }

  /** Paths carry the immediate parent only: a file two levels down is named
      after its own directory, and the top directory does not appear. */
  lemma NestedPathOmitsAncestors(top: string, th: Handle, sub: string, sh: Handle, file: string, fh: Handle)
    ensures Listing(DirNode(top, th, [DirNode(sub, sh, [FileNode(file, fh, true)], None)], None))
      == [NewItem(top + "/" + sub, sub, true, sh), NewItem(sub + "/" + file, file, false, fh)]
  {
    var inner := DirNode(sub, sh, [FileNode(file, fh, true)], None);
    var outer := DirNode(top, th, [inner], None);
    assert ListFrom(inner, 1) == [];
    assert ListFrom(inner, 0) == [NewItem(sub + "/" + file, file, false, fh)];
    assert ListFrom(outer, 1) == [];
  }

  /** Two sibling directories with the same name give their files the same
      path, so the collision check groups them together although they live
      in different directories. */
  lemma SameNamedDirectoriesShareParent(top: string, th: Handle, sub: string, h1: Handle, h2: Handle,
                                        file: string, f1: Handle, f2: Handle)
    requires sub != "" && '/' !in file
    ensures var l := Listing(DirNode(top, th, [DirNode(sub, h1, [FileNode(file, f1, true)], None),
                                              DirNode(sub, h2, [FileNode(file, f2, true)], None)], None));
      |l| == 4 && l[1].path == l[3].path && ParentPath(l[1].path) == sub && ParentPath(l[3].path) == sub
  {
    var a := DirNode(sub, h1, [FileNode(file, f1, true)], None);
    var b := DirNode(sub, h2, [FileNode(file, f2, true)], None);
    var outer := DirNode(top, th, [a, b], None);
    assert ListFrom(a, 1) == [] && ListFrom(b, 1) == [];
    assert ListFrom(outer, 2) == [];
    assert ListFrom(a, 0) == [NewItem(sub + "/" + file, file, false, f1)];
    assert ListFrom(b, 0) == [NewItem(sub + "/" + file, file, false, f2)];
    assert ListFrom(outer, 1) == [NewItem(top + "/" + sub, sub, true, h2), NewItem(sub + "/" + file, file, false, f2)];
    assert ListFrom(outer, 0) == [NewItem(top + "/" + sub, sub, true, h1), NewItem(sub + "/" + file, file, false, f1)]
      + ListFrom(outer, 1);
    ParentOfJoined(sub, file);
  }

  // ---------------------------------------------------------------------
  // The picker

  /** What the picker returned: it threw (no support, or the user backed
      out), or it gave these handles. */
  datatype PickerOutcome = PickerFailed | Picked(handles: seq<Node>)

  /** The entries one handle gives once it has been read: a file one entry
      named after itself, a directory its listing when folders are loaded and
      one entry for itself otherwise. */
  function HandleEntries(x: Node, loadFilesInFolders: bool): seq<FileItem> {
    match x
    case FileNode(n, h, _) => [NewItem(n, n, false, h)]
    case DirNode(n, h, _, _) => if loadFilesInFolders then Listing(x) else [NewItem(n, n, true, h)]
  }

  /** The entries of the handles, one after another. */
  function AllEntries(handles: seq<Node>, loadFilesInFolders: bool): seq<FileItem> {
    if |handles| == 0 then [] else HandleEntries(handles[0], loadFilesInFolders) + AllEntries(handles[1..], loadFilesInFolders)
  }

  /** Every picked file can be read. */
  predicate AllReadable(handles: seq<Node>) {
    forall i :: 0 <= i < |handles| && handles[i].FileNode? ==> handles[i].readable
  }

  /** The entries for the picked handles, or `None` when a `getFile()`
      throws, which ends the whole picker with the error event. */
  function PickedItems(handles: seq<Node>, loadFilesInFolders: bool): (r: Option<seq<FileItem>>)
    ensures r.Some? <==> AllReadable(handles)
    ensures r.Some? ==> r.value == AllEntries(handles, loadFilesInFolders)
  {
    if |handles| == 0 then Some([])
    else
      var rest := PickedItems(handles[1..], loadFilesInFolders);
      match handles[0]
      case FileNode(n, h, readable) =>
        if !readable || rest.None? then None else Some([NewItem(n, n, false, h)] + rest.value)
      case DirNode(n, h, _, _) =>
        if rest.None? then None
        else if loadFilesInFolders then Some(Listing(handles[0]) + rest.value)
        else Some([NewItem(n, n, true, h)] + rest.value)
  }

  /** `handleFileSystemPicker`: the collected entries, even none, or the
      error event. */
  function Picker(outcome: PickerOutcome, loadFilesInFolders: bool): (e: Event)
    ensures e != NoEvent
    ensures outcome.PickerFailed? ==> e == ShowError(UnsupportedBrowserText)
    ensures outcome.Picked? ==>
      if AllReadable(outcome.handles) then e == FilesAdded(AllEntries(outcome.handles, loadFilesInFolders))
      else e == ShowError(UnsupportedBrowserText)
  {
    match outcome
    case PickerFailed => ShowError(UnsupportedBrowserText)
    case Picked(handles) =>
      match PickedItems(handles, loadFilesInFolders)
      case None => ShowError(UnsupportedBrowserText)
      case Some(items) => FilesAdded(items)
  }

  /** Picked files are named by their own name only, so two picked files with
      the same name share a path; with folder loading off a picked directory
      is a single entry. */
  lemma {:induction false} PickedShape(handles: seq<Node>, i: int)
    requires 0 <= i < |handles| && PickedItems(handles, false).Some?
    ensures |PickedItems(handles, false).value| == |handles|
    ensures var x := PickedItems(handles, false).value[i];
      x.path == handles[i].name && x.name == handles[i].name && x.originalName == handles[i].name
      && x.isDirectory == handles[i].DirNode? && x.handle == Some(handles[i].handle)
  {
    PickedLength(handles);
    if i > 0 {
      PickedShape(handles[1..], i - 1);
    }
  }

  lemma {:induction false} PickedLength(handles: seq<Node>)
    requires PickedItems(handles, false).Some?
    ensures |PickedItems(handles, false).value| == |handles|
  {
    if |handles| > 0 {
      PickedLength(handles[1..]);
    }
  }

  /** Every picked file must be readable for anything to be added. */
  lemma {:induction false} UnreadablePickFails(handles: seq<Node>, loadFilesInFolders: bool, i: int)
    requires 0 <= i < |handles| && handles[i].FileNode? && !handles[i].readable
    ensures Picker(Picked(handles), loadFilesInFolders) == ShowError(UnsupportedBrowserText)
  {
    if i > 0 {
      UnreadablePickFails(handles[1..], loadFilesInFolders, i - 1);
    }
  }

  /** With folder loading on, a picked directory contributes its listing and
      not an entry for itself; an empty pick still dispatches, with no
      entries. */
  lemma PickedDirectoryListing(d: Node)
    requires d.DirNode?
    ensures Picker(Picked([d]), true) == FilesAdded(Listing(d))
    ensures Picker(Picked([]), true) == FilesAdded([]) && Picker(Picked([]), false) == FilesAdded([])
  {
    assert [d][1..] == [];
    assert PickedItems([d], true) == Some(Listing(d) + []);
    assert Listing(d) + [] == Listing(d);
  }

  // ---------------------------------------------------------------------
  // Drag and drop

  /** The outcome of `requestPermission({ mode: 'readwrite' })`; a handle
      without that method counts as not granted. */
  datatype Permission = Granted | NotGranted

  /** One dropped item: not of kind `file`, no handle (null or a throw), or a
      handle with its permission. */
  datatype DropItem = NotAFile | NoHandle | Dropped(node: Node, permission: Permission)

  /** The drop event: no `dataTransfer`, no handle API, or these items. */
  datatype DropData = NoDataTransfer | NoHandleApi | Items(items: seq<DropItem>)

  /** The entries one dropped item contributes. */
  function DroppedItems(x: DropItem, loadFilesInFolders: bool): (r: seq<FileItem>)
    ensures !(x.Dropped? && x.permission == Granted) ==> r == []
    ensures x.Dropped? && x.permission == Granted ==>
      r == (if x.node.FileNode? && !x.node.readable then [] else HandleEntries(x.node, loadFilesInFolders))
    ensures x.Dropped? && x.permission == Granted ==> r == PickedItems([x.node], loadFilesInFolders).GetOr([])
  {
    match x
    case Dropped(FileNode(n, h, readable), Granted) => if readable then [NewItem(n, n, false, h)] else []
    case Dropped(DirNode(n, h, children, failAt), Granted) =>
      if loadFilesInFolders then Listing(DirNode(n, h, children, failAt)) else [NewItem(n, n, true, h)]
    case _ => []
  }

  function CollectDrop(xs: seq<DropItem>, loadFilesInFolders: bool): seq<FileItem> {
    if |xs| == 0 then [] else DroppedItems(xs[0], loadFilesInFolders) + CollectDrop(xs[1..], loadFilesInFolders)
  }

  /** `handleDrop`. */
  function Drop(data: DropData, loadFilesInFolders: bool): (e: Event)
    ensures data.NoDataTransfer? <==> e == NoEvent
    ensures data.NoHandleApi? ==> e == ShowError(UnsupportedBrowserText)
    ensures e.FilesAdded? ==> |e.items| > 0
    ensures data.Items? && CollectDrop(data.items, loadFilesInFolders) != [] ==>
      e == FilesAdded(CollectDrop(data.items, loadFilesInFolders))
    ensures data.Items? && CollectDrop(data.items, loadFilesInFolders) == [] ==>
      e == ShowError(UnsupportedBrowserText)
  {
    match data
    case NoDataTransfer => NoEvent
    case NoHandleApi => ShowError(UnsupportedBrowserText)
    case Items(xs) =>
      var items := CollectDrop(xs, loadFilesInFolders);
      if |items| > 0 then FilesAdded(items) else ShowError(UnsupportedBrowserText)
  }

  /** An item that is not a granted handle contributes nothing: removing it
      leaves the drop's result as it was. */
  lemma {:induction false} UngrantedIgnored(xs: seq<DropItem>, loadFilesInFolders: bool, i: int)
    requires 0 <= i < |xs| && !(xs[i].Dropped? && xs[i].permission == Granted)
    ensures CollectDrop(xs[..i] + xs[i + 1..], loadFilesInFolders) == CollectDrop(xs, loadFilesInFolders)
  {
    var ys := xs[..i] + xs[i + 1..];
    if i > 0 {
      UngrantedIgnored(xs[1..], loadFilesInFolders, i - 1);
      assert ys[0] == xs[0];
      assert ys[1..] == xs[1..][..i - 1] + xs[1..][i..];
      assert CollectDrop(ys, loadFilesInFolders)
        == DroppedItems(xs[0], loadFilesInFolders) + CollectDrop(ys[1..], loadFilesInFolders);
    } else {
      assert ys == xs[1..];
    }
  }

  /** A drop in which nothing is granted shows the error instead of adding
      entries. */
  lemma {:induction false} NothingGrantedShowsError(xs: seq<DropItem>, loadFilesInFolders: bool)
    requires forall i :: 0 <= i < |xs| ==> !(xs[i].Dropped? && xs[i].permission == Granted)
    ensures CollectDrop(xs, loadFilesInFolders) == []
    ensures Drop(Items(xs), loadFilesInFolders) == ShowError(UnsupportedBrowserText)
  {
    if |xs| > 0 {
      NothingGrantedShowsError(xs[1..], loadFilesInFolders);
    }
  }

  /** A granted readable file in a drop is added: the drop dispatches the
      entries, and the file's own entry is among them. */
  lemma {:induction false} GrantedFileAdded(xs: seq<DropItem>, loadFilesInFolders: bool, i: int)
    requires 0 <= i < |xs| && xs[i].Dropped? && xs[i].permission == Granted
    requires xs[i].node.FileNode? && xs[i].node.readable
    ensures var x := xs[i].node; var e := Drop(Items(xs), loadFilesInFolders);
      e.FilesAdded? && NewItem(x.name, x.name, false, x.handle) in e.items
  {
    CollectedFile(xs, loadFilesInFolders, i);
  }

  lemma {:induction false} CollectedFile(xs: seq<DropItem>, loadFilesInFolders: bool, i: int)
    requires 0 <= i < |xs| && xs[i].Dropped? && xs[i].permission == Granted
    requires xs[i].node.FileNode? && xs[i].node.readable
    ensures var x := xs[i].node; NewItem(x.name, x.name, false, x.handle) in CollectDrop(xs, loadFilesInFolders)
  {
    if i > 0 {
      CollectedFile(xs[1..], loadFilesInFolders, i - 1);
    }
  }
}
