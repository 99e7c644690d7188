/** The file-list panel: the working batch in display order, the
    "suggestions tried" flag that enables the per-row ReGen buttons, and the
    notice shown above the table. Every operation of the panel is a function
    from one panel state to the next; model replies and the cancellation point
    are inputs. */
module FileList {
  import opened Types
  import opened Strings
  import Sorting
  import Rename
  import Collisions

  /** The notice line above the table, by what produced it. */
  datatype Notice =
    | NoNotice
    | MissingRules
    | Cancelled
    | Generated
    | RetrySucceeded(originalName: string)
    | RetryFailed(originalName: string, reason: string)
    | Renamed(summary: Rename.Summary)

  datatype NoticeKind = Plain | SuccessKind | ErrorKind

  const MissingRulesText := "Please enter some renaming rules first."
  const CancelledText := "AI suggestions generation was cancelled."
  const GeneratedText := "AI suggestions generated successfully!"

  /** The colour of a notice: success for a completed round, a completed retry
      and a pass in which nothing failed; error otherwise. */
  function Kind(n: Notice): (k: NoticeKind)
    ensures k == Plain <==> n.NoNotice?
    ensures n.Renamed? ==> (k == SuccessKind <==> n.summary.AllRenamed?)
  {
    match n
    case NoNotice => Plain
    case MissingRules => ErrorKind
    case Cancelled => ErrorKind
    case Generated => SuccessKind
    case RetrySucceeded(_) => SuccessKind
    case RetryFailed(_, _) => ErrorKind
    case Renamed(s) => if s.AllRenamed? then SuccessKind else ErrorKind
  }

  predicate IsDigit(c: char) {
    '0' <= c <= '9'
  }

  predicate AllDigits(s: string) {
    forall i :: 0 <= i < |s| ==> IsDigit(s[i])
  }

  /** The number a string of decimal digits denotes. */
  function DigitsValue(s: string): nat
    requires AllDigits(s)
  {
    if |s| == 0 then 0 else DigitsValue(s[..|s| - 1]) * 10 + (s[|s| - 1] as int - '0' as int)
  }

  /** `String(n)` for a count: decimal digits without leading zeros that
      denote `n`. */
  function Decimal(n: nat): (s: string)
    ensures |s| > 0 && AllDigits(s) && DigitsValue(s) == n
    ensures |s| == 1 || s[0] != '0'
  {
    var d := ['0' + (n % 10) as char];
    if n < 10 then d
    else
      var s := Decimal(n / 10) + d;
      assert s[..|s| - 1] == Decimal(n / 10);
      s
  }

  /** The longest run of digits at the start of `s`. */
  function LeadingDigits(s: string): (r: string)
    ensures |r| <= |s| && r == s[..|r|] && AllDigits(r)
    ensures |r| == |s| || !IsDigit(s[|r|])
  {
    if |s| == 0 || !IsDigit(s[0]) then []
    else
      var r := [s[0]] + LeadingDigits(s[1..]);
      assert r[1..] == LeadingDigits(s[1..]);
      r
  }

  /** The count a reader takes from the start of `s`: the number its leading
      digits denote. */
  function ReadCount(s: string): nat {
    DigitsValue(LeadingDigits(s))
  }

  lemma {:induction false} LeadingDigitsOf(d: string, t: string)
    requires AllDigits(d) && (|t| == 0 || !IsDigit(t[0]))
    ensures LeadingDigits(d + t) == d
    decreases |d|
  {
    if |d| == 0 {
      assert d + t == t;
    } else {
      LeadingDigitsOf(d[1..], t);
      assert (d + t)[1..] == d[1..] + t;
    }
  }

  /** A count written with `Decimal` and followed by anything but a digit is
      read back as the same count. */
  lemma ReadDecimal(n: nat, t: string)
    requires |t| == 0 || !IsDigit(t[0])
    ensures ReadCount(Decimal(n) + t) == n
  {
    LeadingDigitsOf(Decimal(n), t);
  }

  /** The words that mark a notice as reporting naming collisions. */
  const CollisionWords := "naming collisions"

  /** Digits never include the `g` of the collision words. */
  lemma DigitsLackG(d: string)
    requires AllDigits(d)
    ensures 'g' !in d
  {
  }

  /** `s` mentions naming collisions only if it has a `g`. */
  lemma NoGNoCollisions(s: string)
    requires 'g' !in s
    ensures !Contains(s, CollisionWords)
  {
    assert CollisionWords[5] == 'g';
    CharAbsent(s, CollisionWords, 5);
  }

  lemma CountThenWords(k: nat, words: string)
    requires |words| > 0 && words[0] == ' '
    ensures ReadCount(Decimal(k) + words) == k
  {
    ReadDecimal(k, words);
  }

  lemma CollisionDetail(k: nat)
    ensures var r := Decimal(k) + " had " + CollisionWords;
      ReadCount(r) == k && Contains(r, CollisionWords)
  {
    var r := Decimal(k) + " had " + CollisionWords;
    CountThenWords(k, " had " + CollisionWords);
    assert r == Decimal(k) + (" had " + CollisionWords);
    ContainsInfix(Decimal(k) + " had ", CollisionWords, "");
    assert r + "" == r;
  }

  lemma OtherDetail(k: nat)
    ensures var r := Decimal(k) + " other failures";
      ReadCount(r) == k && !Contains(r, CollisionWords)
  {
    CountThenWords(k, " other failures");
    DigitsLackG(Decimal(k));
    assert 'g' !in " other failures";
    NoGNoCollisions(Decimal(k) + " other failures");
  }

  /** One entry of `errorDetails`. */
  function DetailText(d: Rename.Detail): (r: string)
    ensures |r| > 0 && ReadCount(r) == d.count
    ensures Contains(r, CollisionWords) <==> d.HadCollisions?
  {
    match d
    case HadCollisions(k) =>
      CollisionDetail(k);
      Decimal(k) + " had " + CollisionWords
    case OtherFailures(k) =>
      OtherDetail(k);
      Decimal(k) + " other failures"
  }

  /** `errorDetails`: the text of each detail, in order. */
  function DetailTexts(ds: seq<Rename.Detail>): (ts: seq<string>)
    ensures |ts| == |ds| && forall i :: 0 <= i < |ds| ==> ts[i] == DetailText(ds[i])
  {
    seq(|ds|, i requires 0 <= i < |ds| => DetailText(ds[i]))
  }

  /** `errorDetails.join(', ')`. */
  function JoinDetails(ds: seq<Rename.Detail>): (r: string)
    ensures r == "" <==> |ds| == 0
  {
    Join(DetailTexts(ds), ", ")
  }

  /** Every detail's text appears in the joined details. */
  lemma JoinShowsEveryDetail(ds: seq<Rename.Detail>, i: int)
    requires 0 <= i < |ds|
    ensures Contains(JoinDetails(ds), DetailText(ds[i]))
  {
    ContainsInfix("", DetailText(ds[i]), "");
    assert "" + DetailText(ds[i]) + "" == DetailText(ds[i]);
    JoinIncludes(DetailTexts(ds), ", ", i, DetailText(ds[i]));
  }

  /** Details without a collision detail are joined into text without a `g`. */
  lemma JoinWithoutCollisions(ds: seq<Rename.Detail>)
    requires forall i :: 0 <= i < |ds| ==> ds[i].OtherFailures?
    ensures 'g' !in JoinDetails(ds)
  {
    forall i | 0 <= i < |ds| ensures 'g' !in DetailTexts(ds)[i] {
      DigitsLackG(Decimal(ds[i].count));
      assert 'g' !in " other failures";
    }
    JoinLacks(DetailTexts(ds), ", ", 'g');
  }

  /** The lead-in of each summary shape; the count follows it. */
  const AllRenamedLead := "Successfully renamed "
  const PartlyRenamedLead := "Renamed "
  const NoneRenamedLead := "Failed to rename files. "

  /** A lead-in, a count and more words: the count is read back after the
      lead-in. */
  lemma LeadThenCount(lead: string, k: nat, t: string)
    requires |t| > 0 && t[0] == ' '
    ensures var r := lead + (Decimal(k) + t);
      |r| > |lead| && r[..|lead|] == lead && ReadCount(r[|lead|..]) == k
  {
    var r := lead + (Decimal(k) + t);
    assert r[|lead|..] == Decimal(k) + t;
    ReadDecimal(k, t);
  }

  /** What follows the count in each summary shape. */
  const AllRenamedTail := " files!"

  function PartlyRenamedOpen(failed: nat): string {
    " files, " + Decimal(failed) + " failed ("
  }

  const PartlyRenamedClose := "). Check console for details."

  function PartlyRenamedTail(failed: nat, details: seq<Rename.Detail>): string {
    PartlyRenamedOpen(failed) + (JoinDetails(details) + PartlyRenamedClose)
  }

  function NoneRenamedTail(collisions: nat): string {
    " operations failed" + (if collisions > 0 then " (" + Decimal(collisions) + " due to " + CollisionWords + ")" else "") + "."
  }

  /** The notice text of a pass, by its summary: the shape's lead-in, the
      count, and the rest of the sentence. */
  function SummaryText(s: Rename.Summary): (r: string)
    ensures s.AllRenamed? ==>
      |r| > |AllRenamedLead| && r[..|AllRenamedLead|] == AllRenamedLead
      && ReadCount(r[|AllRenamedLead|..]) == s.successful
    ensures s.PartlyRenamed? ==>
      |r| > |PartlyRenamedLead| && r[..|PartlyRenamedLead|] == PartlyRenamedLead
      && ReadCount(r[|PartlyRenamedLead|..]) == s.successful
    ensures s.NoneRenamed? ==>
      |r| > |NoneRenamedLead| && r[..|NoneRenamedLead|] == NoneRenamedLead
      && ReadCount(r[|NoneRenamedLead|..]) == s.failed
  {
    match s
    case AllRenamed(ok) =>
      LeadThenCount(AllRenamedLead, ok, AllRenamedTail);
      AllRenamedLead + (Decimal(ok) + AllRenamedTail)
    case PartlyRenamed(ok, failed, details) =>
      LeadThenCount(PartlyRenamedLead, ok, PartlyRenamedTail(failed, details));
      PartlyRenamedLead + (Decimal(ok) + PartlyRenamedTail(failed, details))
    case NoneRenamed(failed, collisions) =>
      LeadThenCount(NoneRenamedLead, failed, NoneRenamedTail(collisions));
      NoneRenamedLead + (Decimal(failed) + NoneRenamedTail(collisions))
  }

  /** The summary reports naming collisions: a collision count in a pass
      where nothing was renamed, or a collision detail in a partial one. */
  predicate MentionsCollisions(s: Rename.Summary) {
    (s.NoneRenamed? && s.collisions > 0)
    || (s.PartlyRenamed? && exists i :: 0 <= i < |s.details| && s.details[i].HadCollisions?)
  }

  lemma AllRenamedNoMention(ok: nat)
    ensures !Contains(SummaryText(Rename.AllRenamed(ok)), CollisionWords)
  {
    DigitsLackG(Decimal(ok));
    assert 'g' !in AllRenamedLead && 'g' !in AllRenamedTail;
    NoGNoCollisions(AllRenamedLead + (Decimal(ok) + AllRenamedTail));
  }

  lemma PartlyRenamedShows(ok: nat, failed: nat, details: seq<Rename.Detail>, i: int)
    requires 0 <= i < |details| && details[i].HadCollisions?
    ensures Contains(SummaryText(Rename.PartlyRenamed(ok, failed, details)), CollisionWords)
  {
    var pre := PartlyRenamedOpen(failed);
    var j := JoinDetails(details);
    var post := PartlyRenamedClose;
    JoinIncludes(DetailTexts(details), ", ", i, CollisionWords);
    ContainsExtend(j, post, CollisionWords);
    ContainsPrepend(pre, j + post, CollisionWords);
    ContainsPrepend(Decimal(ok), pre + (j + post), CollisionWords);
    ContainsPrepend(PartlyRenamedLead, Decimal(ok) + (pre + (j + post)), CollisionWords);
  }

  lemma OpenLacksG(failed: nat)
    ensures 'g' !in PartlyRenamedOpen(failed)
  {
    DigitsLackG(Decimal(failed));
    assert 'g' !in " files, " && 'g' !in " failed (";
  }

  lemma PartlyRenamedHides(ok: nat, failed: nat, details: seq<Rename.Detail>)
    requires forall i :: 0 <= i < |details| ==> details[i].OtherFailures?
    ensures !Contains(SummaryText(Rename.PartlyRenamed(ok, failed, details)), CollisionWords)
  {
    var t := PartlyRenamedTail(failed, details);
    JoinWithoutCollisions(details);
    OpenLacksG(failed);
    assert 'g' !in PartlyRenamedClose;
    assert 'g' !in t;
    DigitsLackG(Decimal(ok));
    assert 'g' !in PartlyRenamedLead;
    var r := PartlyRenamedLead + (Decimal(ok) + t);
    assert 'g' !in r;
    NoGNoCollisions(r);
  }

  lemma PartlyRenamedMention(ok: nat, failed: nat, details: seq<Rename.Detail>)
    ensures Contains(SummaryText(Rename.PartlyRenamed(ok, failed, details)), CollisionWords)
      <==> exists i :: 0 <= i < |details| && details[i].HadCollisions?
  {
    if exists i :: 0 <= i < |details| && details[i].HadCollisions? {
      var i :| 0 <= i < |details| && details[i].HadCollisions?;
      PartlyRenamedShows(ok, failed, details, i);
    } else {
      PartlyRenamedHides(ok, failed, details);
    }
  }

  lemma NoneRenamedMention(failed: nat, collisions: nat)
    ensures Contains(SummaryText(Rename.NoneRenamed(failed, collisions)), CollisionWords) <==> collisions > 0
  {
    var t := NoneRenamedTail(collisions);
    if collisions > 0 {
      var mid := " (" + Decimal(collisions) + " due to " + CollisionWords + ")";
      ContainsInfix(" (" + Decimal(collisions) + " due to ", CollisionWords, ")");
      ContainsPrepend(" operations failed", mid, CollisionWords);
      ContainsExtend(" operations failed" + mid, ".", CollisionWords);
      ContainsPrepend(Decimal(failed), t, CollisionWords);
      ContainsPrepend(NoneRenamedLead, Decimal(failed) + t, CollisionWords);
    } else {
      DigitsLackG(Decimal(failed));
      assert 'g' !in NoneRenamedLead && 'g' !in t;
      NoGNoCollisions(NoneRenamedLead + (Decimal(failed) + t));
    }
  }

  /** The notice of a pass mentions naming collisions exactly when its
      summary reports them. */
  lemma SummaryMentionsCollisions(s: Rename.Summary)
    ensures Contains(SummaryText(s), CollisionWords) <==> MentionsCollisions(s)
  {
    match s
    case AllRenamed(ok) => AllRenamedNoMention(ok);
    case PartlyRenamed(ok, failed, details) => PartlyRenamedMention(ok, failed, details);
    case NoneRenamed(failed, collisions) => NoneRenamedMention(failed, collisions);
  }

  /** The text of a notice. */
  function Text(n: Notice): (r: string)
    ensures r == "" <==> n.NoNotice?
    ensures n.RetrySucceeded? ==> Contains(r, n.originalName)
    ensures n.RetryFailed? ==> Contains(r, n.originalName) && Contains(r, n.reason)
    ensures n.Renamed? ==> r == SummaryText(n.summary)
  {
    match n
    case NoNotice => ""
    case MissingRules => MissingRulesText
    case Cancelled => CancelledText
    case Generated => GeneratedText
    case RetrySucceeded(name) =>
      ContainsInfix("AI suggestion generated for \"", name, "\"!");
      "AI suggestion generated for \"" + name + "\"!"
    case RetryFailed(name, reason) =>
      var a := "Failed to generate suggestion for \"";
      ContainsInfix(a, name, "\": " + reason);
      assert a + name + ("\": " + reason) == a + name + "\": " + reason;
      ContainsInfix(a + name + "\": ", reason, "");
      assert a + name + "\": " + reason + "" == a + name + "\": " + reason;
      a + name + "\": " + reason
    case Renamed(s) => SummaryText(s)
  }

  datatype Panel = Panel(files: seq<FileItem>, hasTriedGeneration: bool, notice: Notice)

  /** The reply to one `/api/suggest-names` request for one entry: the
      `suggestedName` of the returned entry (`None` when it is absent), or a
      failure (an HTTP error status, a network error, an unreadable body) with
      its message. */
  datatype Reply = Answered(suggestion: Option<string>) | Failed(reason: string)

  // ---------------------------------------------------------------------
  // Adding, clearing, asking

  /** `addFiles` on the panel: only the batch changes. */
  function AddFiles(p: Panel, newFiles: seq<FileItem>): (r: Panel)
    ensures multiset(r.files) == multiset(p.files) + multiset(newFiles)
    ensures Sorting.Sorted(r.files)
    ensures r.hasTriedGeneration == p.hasTriedGeneration && r.notice == p.notice
  {
    var files := Sorting.AddFiles(p.files, newFiles);
    Sorting.SortedIff(files);
    p.(files := files)
  }

  /** `clearFiles`. */
  function ClearFiles(p: Panel): (r: Panel)
    ensures r.files == [] && !r.hasTriedGeneration && r.notice == NoNotice
  {
    Panel([], false, NoNotice)
  }

  /** `hasSuggestions`: `Array.prototype.some` over the batch. */
  function HasSuggestions(files: seq<FileItem>): (b: bool)
    ensures b <==> exists i :: 0 <= i < |files| && HasNewName(files[i])
  {
    if |files| == 0 then false
    else
      assert forall i :: 0 < i < |files| ==> files[i] == files[1..][i - 1];
      HasNewName(files[0]) || HasSuggestions(files[1..])
  }

  /** Whether row `i` shows its ReGen button; `loading` is the panel's
      transient busy flag. */
  predicate RetryButtonShown(p: Panel, loading: bool, i: int)
    requires 0 <= i < |p.files|
  {
    p.hasTriedGeneration && !p.files[i].isRetrying && !loading
  }

  // ---------------------------------------------------------------------
  // A generation round

  /** The reset applied to every entry at the start of a round. */
  function ClearSuggestion(f: FileItem): (g: FileItem)
    ensures SameIdentity(g, f)
    ensures g.suggestedName.None? && g.renameStatus.None? && g.renameError.None? && !g.isRetrying
  {
    f.(suggestedName := None, renameStatus := None, renameError := None, isRetrying := false)
  }

  /** Merges the reply for one entry into it: an answer sets the suggestion
      (possibly to nothing), a failure leaves it unset. */
  function Answer(f: FileItem, reply: Reply): (g: FileItem)
    ensures g.suggestedName == (if reply.Answered? then reply.suggestion else None)
    ensures SameIdentity(g, f) && g.renameStatus == f.renameStatus
    ensures g.renameError == f.renameError && g.isRetrying == f.isRetrying
  {
    match reply
    case Answered(s) => f.(suggestedName := s)
    case Failed(_) => f.(suggestedName := None)
  }

  /** The batch the per-entry loop starts from. */
  function ClearedRound(files: seq<FileItem>): (c: seq<FileItem>)
    ensures |c| == |files| && Sorting.Sorted(c)
    ensures multiset(c) == multiset(Sorting.MapItems(ClearSuggestion, files))
  {
    Sorting.Sort(Sorting.MapItems(ClearSuggestion, files))
  }

  /** Index `j` is reached by the loop: the abort, if any, is observed later. */
  predicate Reached(abortAt: Option<nat>, j: nat) {
    abortAt.None? || j < abortAt.value
  }

  /** The result of the per-entry loop. */
  datatype Round = Round(files: seq<FileItem>, cancelled: bool)

  /** The loop from index `i` on. `abortAt == Some(k)` says the abort is first
      noticed at entry `k`: either by the check at the top of the loop or as
      an `AbortError` from the request for entry `k`; in both cases entry `k`
      is left as it was. The loop has not yet passed the abort point. */
  function Loop(files: seq<FileItem>, reply: nat -> Reply, abortAt: Option<nat>, i: nat): (r: Round)
    requires i <= |files|
    requires abortAt.None? || i <= abortAt.value
    ensures |r.files| == |files|
    ensures forall j :: 0 <= j < i ==> r.files[j] == files[j]
    ensures forall j :: i <= j < |files| ==>
      r.files[j] == (if Reached(abortAt, j) then Answer(files[j], reply(j)) else files[j])
    ensures r.cancelled <==> abortAt.Some? && i <= abortAt.value < |files|
    decreases |files| - i
  {
    if i == |files| then Round(files, false)
    else if abortAt == Some(i) then Round(files, true)
    else Loop(files[i := Answer(files[i], reply(i))], reply, abortAt, i + 1)
  }

  /** `generateSuggestions` after all its requests have settled. Rules that
      are empty or whitespace only change nothing but the notice. Otherwise the
      round sets the ReGen flag; entries before the abort point hold their
      reply (a failed request leaves that suggestion unset and the loop goes
      on), entries from the abort point on stay cleared, and the notice says
      whether the abort was observed. */
  function Generate(p: Panel, rules: string, reply: nat -> Reply, abortAt: Option<nat>): (r: Panel)
    ensures IsBlank(rules) ==>
      r.files == p.files && r.hasTriedGeneration == p.hasTriedGeneration && r.notice == MissingRules
    ensures !IsBlank(rules) ==> var c := ClearedRound(p.files);
      && |r.files| == |p.files| && r.hasTriedGeneration
      && (forall j :: 0 <= j < |c| && Reached(abortAt, j) ==> r.files[j] == Answer(c[j], reply(j)))
      && (forall j :: 0 <= j < |c| && !Reached(abortAt, j) ==> r.files[j] == c[j])
      && (r.notice == Cancelled <==> abortAt.Some? && abortAt.value < |p.files|)
      && (r.notice != Cancelled ==> r.notice == Generated)
  {
    if IsBlank(rules) then p.(notice := MissingRules)
    else
      var round := Loop(ClearedRound(p.files), reply, abortAt, 0);
      Panel(round.files, true, if round.cancelled then Cancelled else Generated)
  }

  // ---------------------------------------------------------------------
  // Regenerating one entry

  /** The first half of `retrySingleFile`: the row shows "Generating...". */
  function RetryBegin(p: Panel, index: nat): (r: Panel)
    requires index < |p.files|
    ensures |r.files| == |p.files| && r.hasTriedGeneration == p.hasTriedGeneration && r.notice == p.notice
    ensures forall j :: 0 <= j < |p.files| && j != index ==> r.files[j] == p.files[j]
    ensures SameIdentity(r.files[index], p.files[index]) && r.files[index].isRetrying
    ensures r.files[index].suggestedName.None? && r.files[index].renameStatus.None? && r.files[index].renameError.None?
  {
    var f := p.files[index];
    p.(files := p.files[index := f.(isRetrying := true, suggestedName := None, renameStatus := None, renameError := None)])
  }

  /** The second half: the reply is merged into the same row. */
  function RetryFinish(p: Panel, index: nat, originalName: string, reply: Reply): (r: Panel)
    requires index < |p.files|
    ensures |r.files| == |p.files| && r.hasTriedGeneration == p.hasTriedGeneration
    ensures forall j :: 0 <= j < |p.files| && j != index ==> r.files[j] == p.files[j]
    ensures r.files[index] == Answer(p.files[index], reply).(isRetrying := false)
    ensures r.notice == (if reply.Answered? then RetrySucceeded(originalName) else RetryFailed(originalName, reply.reason))
  {
    var f := p.files[index];
    match reply
    case Answered(s) =>
      p.(files := p.files[index := f.(isRetrying := false, suggestedName := s)], notice := RetrySucceeded(originalName))
    case Failed(reason) =>
      p.(files := p.files[index := f.(isRetrying := false, suggestedName := None)], notice := RetryFailed(originalName, reason))
  }

  /** `retrySingleFile(index)` after its request has settled. Blank rules
      change nothing but the notice, an index outside the batch changes
      nothing at all, and otherwise only the chosen entry changes: it keeps its
      identity, has no status, is not retrying and carries the new suggestion
      (none on failure), and the notice names it. */
  function Retry(p: Panel, rules: string, index: int, reply: Reply): (r: Panel)
    ensures IsBlank(rules) ==>
      r.files == p.files && r.hasTriedGeneration == p.hasTriedGeneration && r.notice == MissingRules
    ensures !IsBlank(rules) && (index < 0 || index >= |p.files|) ==> r == p
    ensures !IsBlank(rules) && 0 <= index < |p.files| ==>
      && |r.files| == |p.files| && r.hasTriedGeneration == p.hasTriedGeneration
      && var f := p.files[index]; var g := r.files[index];
      && (forall j :: 0 <= j < |p.files| && j != index ==> r.files[j] == p.files[j])
      && SameIdentity(g, f) && !g.isRetrying && g.renameStatus.None? && g.renameError.None?
      && g.suggestedName == (if reply.Answered? then reply.suggestion else None)
      && r.notice == (if reply.Answered? then RetrySucceeded(f.originalName) else RetryFailed(f.originalName, reply.reason))
  {
    if IsBlank(rules) then p.(notice := MissingRules)
    else if index < 0 || index >= |p.files| then p
    else RetryFinish(RetryBegin(p, index), index, p.files[index].originalName, reply)
  }

  // ---------------------------------------------------------------------
  // Renaming

  /** `renameFiles` on the panel: the pass, then the batch back in display
      order, the ReGen buttons hidden, and the summary as the notice. */
  function RenameFiles(p: Panel, move: (Handle, string) -> Rename.MoveResult): (r: Panel)
    ensures multiset(r.files) == multiset(Rename.RenamePass(p.files, move).files)
    ensures Sorting.Sorted(r.files)
    ensures !r.hasTriedGeneration
    ensures r.notice == Renamed(Rename.RenamePass(p.files, move).summary)
  {
    Panel(Sorting.Sort(Rename.RenamePass(p.files, move).files), false, Renamed(Rename.RenamePass(p.files, move).summary))
  }

  // ---------------------------------------------------------------------
  // Properties

  /** Every entry of a round starts with no suggestion and no status, and not
      retrying; when the batch is already in display order (as it always is,
      see `DisplayOrderKept`) the reset keeps every entry where it was. */
  lemma RoundStart(files: seq<FileItem>)
    ensures var c := ClearedRound(files);
      forall j :: 0 <= j < |c| ==>
        c[j].suggestedName.None? && c[j].renameStatus.None? && c[j].renameError.None? && !c[j].isRetrying
    ensures Sorting.Sorted(files) ==> ClearedRound(files) == Sorting.MapItems(ClearSuggestion, files)
  {
    var c := ClearedRound(files);
    var m := Sorting.MapItems(ClearSuggestion, files);
    forall j | 0 <= j < |c|
      ensures c[j].suggestedName.None? && c[j].renameStatus.None? && c[j].renameError.None? && !c[j].isRetrying
    {
      assert c[j] in multiset(m);
    }
    if Sorting.Sorted(files) {
      Sorting.SortCommutesWithMap(ClearSuggestion, files);
      Sorting.SortSortedIsIdentity(files);
    }
  }

  /** In a round without an abort, an entry's suggestion is exactly what its
      reply carried, and nothing else about it changes. */
  lemma GenerateAnswersEveryEntry(p: Panel, rules: string, reply: nat -> Reply)
    requires !IsBlank(rules) && Sorting.Sorted(p.files)
    ensures var r := Generate(p, rules, reply, None);
      && |r.files| == |p.files| && r.notice == Generated
      && forall j :: 0 <= j < |p.files| ==>
           SameIdentity(r.files[j], p.files[j])
           && r.files[j].suggestedName == (if reply(j).Answered? then reply(j).suggestion else None)
           && r.files[j].renameStatus.None? && r.files[j].renameError.None? && !r.files[j].isRetrying
  {
    RoundStart(p.files);
    var c := ClearedRound(p.files);
    var round := Loop(c, reply, None, 0);
    assert Generate(p, rules, reply, None) == Panel(round.files, true, Generated);
    forall j | 0 <= j < |p.files|
      ensures var g := round.files[j];
        SameIdentity(g, p.files[j]) && g.suggestedName == (if reply(j).Answered? then reply(j).suggestion else None)
        && g.renameStatus.None? && g.renameError.None? && !g.isRetrying
    {
      assert c[j] == ClearSuggestion(p.files[j]);
      assert round.files[j] == Answer(c[j], reply(j));
    }
  }

  /** A pass changes no entry's sort key, so the sort after it moves nothing
      when the batch was in display order. */
  lemma RenameKeepsPositions(p: Panel, move: (Handle, string) -> Rename.MoveResult)
    requires Sorting.Sorted(p.files)
    ensures RenameFiles(p, move).files == Rename.RenamePass(p.files, move).files
  {
    var q := Rename.RenamePass(p.files, move).files;
    forall j | 0 <= j < |p.files| ensures Sorting.SameSortKey(p.files[j], q[j]) {
      Rename.OutcomePrecedence(p.files, move, j);
    }
    SameKeysKeepSorted(p.files, q);
    Sorting.SortSortedIsIdentity(q);
  }

  lemma SmallDecimals()
    ensures Decimal(1) == "1" && Decimal(2) == "2"
  {
  }

  /** The notice of a pass where two operations failed and one path was
      marked as colliding: "Failed to rename files. 2 operations failed (1 due
      to naming collisions)." */
  lemma TwoFailedOneCollisionText()
    ensures SummaryText(Rename.NoneRenamed(2, 1))
      == NoneRenamedLead + ("2" + (" operations failed" + (" (" + "1" + " due to " + CollisionWords + ")") + "."))
  {
    SmallDecimals();
  }

  /** Two picked files with the same path and the same suggestion: both fail
      with the collision error, yet the notice counts one collision. */
  lemma DuplicatePathNotice(p: Panel, x: FileItem, y: FileItem, move: (Handle, string) -> Rename.MoveResult)
    requires p.files == [x, y] && x.path == y.path && Collisions.SameTarget(x, y)
    ensures Text(RenameFiles(p, move).notice)
      == NoneRenamedLead + ("2" + (" operations failed" + (" (" + "1" + " due to " + CollisionWords + ")") + "."))
  {
    Rename.DuplicatePathUndercount(x, y, move);
    TwoFailedOneCollisionText();
  }

  /** After a pass no row offers ReGen; after a completed round every row does
      once the panel is no longer busy. */
  lemma RetryButtons(p: Panel, rules: string, reply: nat -> Reply, move: (Handle, string) -> Rename.MoveResult)
    ensures var r := RenameFiles(p, move);
      forall i :: 0 <= i < |r.files| ==> !RetryButtonShown(r, false, i)
    ensures !IsBlank(rules) ==>
      var r := Generate(p, rules, reply, None);
      forall i :: 0 <= i < |r.files| ==> RetryButtonShown(r, false, i)
  {
    if !IsBlank(rules) {
      RoundStart(p.files);
    }
  }

  /** A batch without suggestions would rename nothing: when the Rename
      button is disabled, the pass could not call `move` at all. */
  lemma NoSuggestionsNothingToRename(files: seq<FileItem>, move: (Handle, string) -> Rename.MoveResult)
    requires !HasSuggestions(files)
    ensures Rename.RenamePass(files, move).moveCalls == []
    ensures Rename.RenamePass(files, move).successful == 0
  {
    Rename.NothingSuggested(files, move);
  }

  /** Two entries that agree on the sort key everywhere are ordered alike. */
  lemma SameKeysKeepSorted(a: seq<FileItem>, b: seq<FileItem>)
    requires |a| == |b| && Sorting.Sorted(a)
    requires forall j :: 0 <= j < |a| ==> Sorting.SameSortKey(a[j], b[j])
    ensures Sorting.Sorted(b)
  {
    forall i, j | 0 <= i < j < |b| ensures Sorting.SortLe(b[i], b[j]) {
      assert Sorting.SortLe(a[i], a[j]);
    }
  }

  /** A round keeps display order: the loop changes no sort key. */
  lemma GenerateKeepsOrder(p: Panel, rules: string, reply: nat -> Reply, abortAt: Option<nat>)
    requires Sorting.Sorted(p.files)
    ensures Sorting.Sorted(Generate(p, rules, reply, abortAt).files)
  {
    if !IsBlank(rules) {
      SameKeysKeepSorted(ClearedRound(p.files), Generate(p, rules, reply, abortAt).files);
    }
  }

  /** A retry keeps display order: it changes no sort key. */
  lemma RetryKeepsOrder(p: Panel, rules: string, index: int, one: Reply)
    requires Sorting.Sorted(p.files)
    ensures Sorting.Sorted(Retry(p, rules, index, one).files)
  {
    if !IsBlank(rules) && 0 <= index < |p.files| {
      SameKeysKeepSorted(p.files, Retry(p, rules, index, one).files);
    }
  }

  /** Display order is an invariant of the panel: every operation that starts
      from a batch in display order ends with one. */
  lemma DisplayOrderKept(p: Panel, rules: string, reply: nat -> Reply, abortAt: Option<nat>,
                         index: int, one: Reply, newFiles: seq<FileItem>, move: (Handle, string) -> Rename.MoveResult)
    requires Sorting.Sorted(p.files)
    ensures Sorting.Sorted(Generate(p, rules, reply, abortAt).files)
    ensures Sorting.Sorted(Retry(p, rules, index, one).files)
    ensures Sorting.Sorted(AddFiles(p, newFiles).files)
    ensures Sorting.Sorted(RenameFiles(p, move).files)
    ensures Sorting.Sorted(ClearFiles(p).files)
  {
    GenerateKeepsOrder(p, rules, reply, abortAt);
    RetryKeepsOrder(p, rules, index, one);
  }
}
