/** The two server routes that carry logic: `/api/suggest-names`, which asks
    the model for one name per entry and falls back to the original name on
    any failure, and `/api/rename-files`, which renames the eligible entries on
    disk. The chat model and the file system are inputs. */
module Server {
  import opened Types
  import opened Strings

  /** The entry as it travels over the wire (the server's `FileItem`). */
  datatype WireItem = WireItem(path: string, name: string, isDirectory: bool, originalName: string, suggestedName: Option<string>)

  /** The serialisable copy the client sends: no handle, no status. */
  function ToWire(f: FileItem): (w: WireItem)
    ensures w.path == f.path && w.name == f.name && w.isDirectory == f.isDirectory
    ensures w.originalName == f.originalName && w.suggestedName == f.suggestedName
  {
    WireItem(f.path, f.name, f.isDirectory, f.originalName, f.suggestedName)
  }

  // ---------------------------------------------------------------------
  // The prompt

  const PromptHead := "## Goal\nYou are a file renaming assistant. Given the following file and renaming rules, suggest a new name for the file.\n\n## Rules\n"
  const PromptMiddle := "\n\n## File to rename\n"
  const DirectoryMark := " (directory)"
  const PromptTail := "\n\n## Output format\nRespond with a JSON object with a single property \"suggestion\", which is a string containing only the new filename or directory name (without path). Keep file extensions if they exist.\n\nExample response format:\n{ \"suggestion\": \"new-name.txt\" }"

  /** Where each piece of a five-part concatenation sits. */
  lemma Pieces(a: string, b: string, c: string, d: string, e: string)
    ensures var p := a + b + c + d + e;
      && p[..|a|] == a
      && p[|a|..|a| + |b|] == b
      && p[|a| + |b|..][..|c|] == c
      && p[|a| + |b| + |c|..][..|d|] == d
      && p[|p| - |e|..] == e
  {
    var p := a + b + c + d + e;
    assert p == a + (b + (c + (d + e)));
    var i := |a| + |b|;
    assert p[i..][..|c|] == p[i..i + |c|];
    assert p[i + |c|..][..|d|] == p[i + |c|..i + |c| + |d|];
  }

  /** The line naming the entry. */
  function NameLine(w: WireItem): (l: string)
    ensures |l| >= |w.originalName| && l[..|w.originalName|] == w.originalName
    ensures w.isDirectory <==> |l| > |w.originalName|
  {
    w.originalName + (if w.isDirectory then DirectoryMark else "")
  }

  /** The user message sent for one entry. */
  function Prompt(rules: string, w: WireItem): (p: string)
    ensures |p| == |PromptHead| + |rules| + |PromptMiddle| + |NameLine(w)| + |PromptTail|
    ensures p[..|PromptHead|] == PromptHead
    ensures p[|PromptHead|..|PromptHead| + |rules|] == rules
    ensures p[|PromptHead| + |rules|..][..|PromptMiddle|] == PromptMiddle
    ensures p[|PromptHead| + |rules| + |PromptMiddle|..][..|NameLine(w)|] == NameLine(w)
    ensures p[|p| - |PromptTail|..] == PromptTail
  {
    Pieces(PromptHead, rules, PromptMiddle, NameLine(w), PromptTail);
    PromptHead + rules + PromptMiddle + NameLine(w) + PromptTail
  }

  /** The name line carries " (directory)" exactly for directories, so the
      prompts of a file and a directory of the same name differ. */
  lemma PromptMarksDirectories(rules: string, w: WireItem)
    ensures NameLine(w.(isDirectory := true)) == w.originalName + DirectoryMark
    ensures NameLine(w.(isDirectory := false)) == w.originalName
    ensures Prompt(rules, w.(isDirectory := false)) != Prompt(rules, w.(isDirectory := true))
  {
    var file := Prompt(rules, w.(isDirectory := false));
    var dir := Prompt(rules, w.(isDirectory := true));
    assert |file| < |dir|;
  }

  // ---------------------------------------------------------------------
  // Suggestions

  /** The `suggestion` property of the parsed reply. */
  datatype Json = Missing | JString(s: string) | NotAString

  /** What one chat completion produced: the call threw, the content was
      absent or empty, the content was not JSON, or it parsed. */
  datatype ModelReply = CallFailed | NoContent | InvalidJson | Parsed(suggestion: Json)

  /** The reply holds a string with a non-whitespace character. */
  predicate Usable(reply: ModelReply) {
    reply.Parsed? && reply.suggestion.JString? && !IsBlank(reply.suggestion.s)
  }

  /** Every failure keeps the original name; only a string with a
      non-whitespace character replaces it. */
  function SuggestOne(w: WireItem, reply: ModelReply): (s: string)
    ensures s != w.originalName ==> Usable(reply)
    ensures Usable(reply) ==> s == reply.suggestion.s
    ensures !IsBlank(w.originalName) ==> !IsBlank(s)
  {
    match reply
    case Parsed(JString(t)) => if IsBlank(t) then w.originalName else t
    case _ => w.originalName
  }

  /** `/api/suggest-names`: one chat call per entry, in order. `chat(i, p)` is
      the model's reply to prompt `p` for the entry at position `i`. */
  function SuggestNames(files: seq<WireItem>, rules: string, chat: (nat, string) -> ModelReply): (r: seq<WireItem>)
    ensures |r| == |files|
    ensures forall i :: 0 <= i < |files| ==>
      r[i] == files[i].(suggestedName := Some(SuggestOne(files[i], chat(i, Prompt(rules, files[i])))))
  {
    seq(|files|, i requires 0 <= i < |files| => files[i].(suggestedName := Some(SuggestOne(files[i], chat(i, Prompt(rules, files[i]))))))
  }

  /** The response keeps every entry in place and changes only its
      suggestion, which is the model's string when it is usable and the
      original name otherwise; no failure of one entry affects another. */
  lemma SuggestionFallback(files: seq<WireItem>, rules: string, chat: (nat, string) -> ModelReply, i: int)
    requires 0 <= i < |files|
    ensures var r := SuggestNames(files, rules, chat); var reply := chat(i, Prompt(rules, files[i]));
      && r[i].path == files[i].path && r[i].name == files[i].name
      && r[i].isDirectory == files[i].isDirectory && r[i].originalName == files[i].originalName
      && r[i].suggestedName.Some?
      && (Usable(reply) ==> r[i].suggestedName == Some(reply.suggestion.s))
      && (!Usable(reply) ==> r[i].suggestedName == Some(files[i].originalName))
  {
  }

  /** A suggestion equal to the original name is not a new name: an entry
      whose model failed is skipped by every later rename. */
  lemma FallbackIsNotEligible(w: WireItem, reply: ModelReply)
    requires !Usable(reply)
    ensures !Eligible(w.(suggestedName := Some(SuggestOne(w, reply))))
  {
  }

  // ---------------------------------------------------------------------
  // Renaming on disk

  /** `!file.suggestedName || file.suggestedName === file.originalName`,
      negated. */
  predicate Eligible(w: WireItem) {
    w.suggestedName.Some? && w.suggestedName.value != "" && w.suggestedName.value != w.originalName
  }

  /** The wire copy of an entry is eligible exactly when the entry has a new
      name: the server and the client agree on what to skip. */
  lemma EligibleMatchesClient(f: FileItem)
    ensures Eligible(ToWire(f)) <==> HasNewName(f)
  {
  }

  /** `join(dirname(path), name)`: the text up to and including the last
      slash, then the new name; a path without a slash is replaced. */
  function TargetPath(path: string, name: string): (t: string)
    ensures '/' !in path ==> t == name
  {
    path[..LastIndexOf(path, '/') + 1] + name
  }

  /** The target keeps the parent directory and swaps the last component. */
  lemma TargetKeepsParent(path: string, name: string)
    requires '/' !in name
    ensures LastSegment(TargetPath(path, name)) == name
    ensures ParentPath(TargetPath(path, name)) == ParentPath(path)
    ensures TargetPath(path, name)[..|path| - |LastSegment(path)|] == path[..|path| - |LastSegment(path)|]
  {
    var k := LastIndexOf(path, '/');
    var t := TargetPath(path, name);
    if k >= 0 {
      var dir := path[..k];
      assert t == dir + "/" + name;
      if dir != "" {
        ParentOfJoined(dir, name);
      } else {
        RootJoined(name);
      }
    }
  }

  lemma RootJoined(name: string)
    requires '/' !in name
    ensures ParentPath("/" + name) == "/"
    ensures LastSegment("/" + name) == name
  {
    var t := "/" + name;
    assert t[0] == '/';
    assert forall j :: 0 < j < |t| ==> t[j] == name[j - 1];
    assert LastIndexOf(t, '/') == 0;
    assert t[1..] == name;
  }

  /** What `fs.rename` did. `Threw(None)` is a thrown value that is not an
      `Error`. */
  datatype FsResult = Done | Threw(message: Option<string>)

  /** One element of the `results` array. */
  datatype RenameResult = Ok(oldName: string, newName: string) | Failed(error: string, file: string)

  const NoNewNameResult := "No new name suggested"

  /** The results and the `fs.rename(oldPath, newPath)` calls in order. */
  datatype RenameRun = RenameRun(results: seq<RenameResult>, calls: seq<(string, string)>)

  function RenameOne(w: WireItem, outcome: FsResult): (r: RenameResult)
    requires Eligible(w)
  {
    match outcome
    case Done => Ok(w.originalName, w.suggestedName.value)
    case Threw(m) => Failed(m.GetOr("Unknown error"), w.originalName)
  }

  /** The calls `fs.rename` receives for a batch: one per eligible entry. */
  function Calls(files: seq<WireItem>): (cs: seq<(string, string)>)
    ensures |cs| <= |files|
  {
    if |files| == 0 then []
    else
      var w := files[|files| - 1];
      Calls(files[..|files| - 1]) + (if Eligible(w) then [(w.path, TargetPath(w.path, w.suggestedName.value))] else [])
  }

  /** `/api/rename-files`. `fs(old, new)` is the outcome of renaming `old`
      to `new`. */
  function RenameFiles(files: seq<WireItem>, fs: (string, string) -> FsResult): (r: RenameRun)
    ensures |r.results| == |files|
    ensures forall i :: 0 <= i < |files| && !Eligible(files[i]) ==>
      r.results[i] == Failed(NoNewNameResult, files[i].originalName)
    ensures forall i :: 0 <= i < |files| && Eligible(files[i]) ==>
      r.results[i] == RenameOne(files[i], fs(files[i].path, TargetPath(files[i].path, files[i].suggestedName.value)))
    ensures r.calls == Calls(files)
  {
    if |files| == 0 then RenameRun([], [])
    else
      var init := files[..|files| - 1];
      var w := files[|files| - 1];
      var prev := RenameFiles(init, fs);
      if !Eligible(w) then
        RenameRun(prev.results + [Failed(NoNewNameResult, w.originalName)], prev.calls)
      else
        var target := TargetPath(w.path, w.suggestedName.value);
        RenameRun(prev.results + [RenameOne(w, fs(w.path, target))], prev.calls + [(w.path, target)])
  }

  /** An entry succeeds exactly when it is eligible and its `fs.rename` did
      not throw; every call renames an eligible entry's path to its target. */
  lemma RenameSuccessIff(files: seq<WireItem>, fs: (string, string) -> FsResult, i: int)
    requires 0 <= i < |files|
    ensures var r := RenameFiles(files, fs);
      r.results[i].Ok? <==>
        Eligible(files[i]) && fs(files[i].path, TargetPath(files[i].path, files[i].suggestedName.value)) == Done
  {
  }

  lemma {:induction false} CallsOnlyEligible(files: seq<WireItem>, c: (string, string))
    requires c in Calls(files)
    ensures exists i :: 0 <= i < |files| && Eligible(files[i]) &&
                       c == (files[i].path, TargetPath(files[i].path, files[i].suggestedName.value))
  {
    var init := files[..|files| - 1];
    var w := files[|files| - 1];
    if c in Calls(init) {
      CallsOnlyEligible(init, c);
      var i :| 0 <= i < |init| && Eligible(init[i])
        && c == (init[i].path, TargetPath(init[i].path, init[i].suggestedName.value));
      assert init[i] == files[i];
    } else {
      assert Eligible(w) && c == (w.path, TargetPath(w.path, w.suggestedName.value));
      assert files[|files| - 1] == w;
    }
  }

  /** A batch with nothing eligible touches no file. */
  lemma {:induction false} NothingEligibleNoCalls(files: seq<WireItem>)
    requires forall i :: 0 <= i < |files| ==> !Eligible(files[i])
    ensures Calls(files) == []
  {
    if |files| > 0 {
      NothingEligibleNoCalls(files[..|files| - 1]);
    }
  }
}
