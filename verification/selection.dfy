/** The main window's selection logic: which of the three file lists (a
    commit's files, the unstaged list, the staged list) drives the diff view,
    what each selection handler asks the repository for, and what the stage
    and unstage actions send to the index.

    The window is an immutable record; every handler returns the next record
    together with the one repository request it issued. Answers the
    repository gives (diff lines, success flags, a fresh status scan) are
    parameters. */
module SelectionCoordinator {
  import opened Types
  import opened PathKeys
  import opened RowSelection

  /** The three lists whose selection can drive the diff view. */
  datatype Source = HistoryFiles | Unstaged | Staged

  /** Which list was last selected from; `Unset` until one was. */
  datatype SelectedCode = Unset | SelectedBy(source: Source)

  /** The string the window stores for each code. */
  function CodeText(code: SelectedCode): string {
    match code
    case Unset => ""
    case SelectedBy(HistoryFiles) => "history"
    case SelectedBy(Unstaged) => "unstaged"
    case SelectedBy(Staged) => "staged"
  }

  /** The diff view: the lines received since its last reset, whether they
      were rendered, and the file item they were rendered for (none for a
      diff over several files). */
  datatype DiffView = DiffView(lines: seq<LineItem>, rendered: bool, origin: Option<FileItem>)

  const EmptyDiff := DiffView([], false, None)

  /** The repository's answer to a diff request: its success flag and the
      lines it emitted, in emission order. */
  datatype DiffReply = DiffReply(ok: bool, lines: seq<LineItem>)

  /** The repository call a handler makes. */
  datatype Request =
    | NoRequest
    | CommitToParentFiles(oid: string)
    | CommitToParentLines(oid: string, path: string)
    | IndexToWork(paths: seq<string>)
    | IndexToHead(paths: seq<string>)
    | AddToIndex(paths: seq<string>)
    | IndexUnstage(paths: seq<string>)

  datatype Window = Window(
    code: SelectedCode,
    history: seq<HistoryItem>,      // the commit list
    commit: Option<HistoryItem>,    // the commit whose files are listed
    historyFiles: seq<FileItem>,
    historyFileSel: seq<nat>,
    unstaged: seq<FileItem>,
    unstagedSel: seq<nat>,
    staged: seq<FileItem>,
    stagedSel: seq<nat>,
    diff: DiffView)

  datatype Step = Step(window: Window, request: Request)

  const Initial := Window(Unset, [], None, [], [], [], [], [], [], EmptyDiff)

  function Selection(w: Window, s: Source): seq<nat> {
    match s
    case HistoryFiles => w.historyFileSel
    case Unstaged => w.unstagedSel
    case Staged => w.stagedSel
  }

  function WithSelection(w: Window, s: Source, rows: seq<nat>): Window {
    match s
    case HistoryFiles => w.(historyFileSel := rows)
    case Unstaged => w.(unstagedSel := rows)
    case Staged => w.(stagedSel := rows)
  }

  function Files(w: Window, s: Source): seq<FileItem> {
    match s
    case HistoryFiles => w.historyFiles
    case Unstaged => w.unstaged
    case Staged => w.staged
  }

  /** The one of the unstaged and staged lists that is not `s`. */
  function OtherIndexList(s: Source): Source
    requires s != HistoryFiles
  {
    if s == Unstaged then Staged else Unstaged
  }

  /** What the handlers rely on: the rows they fetch with `at(row)` exist,
      and a non-empty commit file list belongs to some commit. */
  predicate Valid(w: Window) {
    && RowsIn(w.unstagedSel, |w.unstaged|)
    && RowsIn(w.stagedSel, |w.staged|)
    && (|w.historyFiles| > 0 ==> w.commit.Some?)
  }

  /** A list with a selection is the list the code names; hence at most one
      list has a selection at any time. */
  predicate Coherent(w: Window) {
    forall s :: Selection(w, s) != [] ==> w.code == SelectedBy(s)
  }

  /** The lists and the commit are left as they were. */
  predicate SameLists(w: Window, w': Window) {
    && w'.history == w.history
    && w'.commit == w.commit
    && w'.historyFiles == w.historyFiles
    && w'.unstaged == w.unstaged
    && w'.staged == w.staged
  }

  /** `clearSelection()` on the view of list `s`. Clearing a non-empty
      selection notifies that view's handler synchronously with nothing
      selected: the unstaged and staged handlers then reset the diff view
      (they always do so first), the commit-file handler does nothing. */
  function ClearSelection(w: Window, s: Source): (r: Window)
    ensures Selection(r, s) == []
    ensures forall t :: t != s ==> Selection(r, t) == Selection(w, t)
    ensures r.code == w.code && SameLists(w, r)
    ensures r.diff == if Selection(w, s) != [] && s != HistoryFiles then EmptyDiff else w.diff
  {
    if Selection(w, s) == [] then w
    else
      var cleared := WithSelection(w, s, []);
      if s == HistoryFiles then cleared else cleared.(diff := EmptyDiff)
  }

  /** historySelectionChanged: a commit was picked from the commit list. Its
      file list is replaced by the commit-to-parent diff files (left empty
      when that call fails), which also empties the file list's selection;
      the diff view is reset only when the code is the commit-file list. */
  function HistorySelectionChanged(w: Window, rows: seq<nat>, files: Option<seq<FileItem>>): (r: Step)
    requires Valid(w)
    ensures Valid(r.window)
    ensures r.window.code == w.code
    ensures r.window.history == w.history
    ensures r.window.unstaged == w.unstaged && r.window.staged == w.staged
    ensures r.window.unstagedSel == w.unstagedSel && r.window.stagedSel == w.stagedSel
    ensures r.window.diff == if r.request.NoRequest? || w.code != SelectedBy(HistoryFiles) then w.diff else EmptyDiff
    ensures |rows| > 0 && rows[0] < |w.history| ==>
      && r.request == CommitToParentFiles(w.history[rows[0]].oid)
      && r.window.commit == Some(w.history[rows[0]])
      && r.window.historyFiles == files.GetOr([])
      && r.window.historyFileSel == []
    ensures !(|rows| > 0 && rows[0] < |w.history|) ==> r == Step(w, NoRequest)
  {
    if |rows| == 0 || rows[0] >= |w.history| then Step(w, NoRequest)
    else
      var item := w.history[rows[0]];
      var diff := if w.code == SelectedBy(HistoryFiles) then EmptyDiff else w.diff;
      Step(w.(commit := Some(item), historyFiles := files.GetOr([]), historyFileSel := [], diff := diff),
           CommitToParentFiles(item.oid))
  }

  /** historyFileSelectionChanged: `rows` are the newly selected indexes of
      the commit's file list; only the first one is used. */
  function HistoryFileSelectionChanged(w: Window, rows: seq<nat>, reply: DiffReply): (r: Step)
    requires Valid(w)
    ensures Valid(r.window) && SameLists(w, r.window)
    ensures |rows| == 0 ==> r == Step(w, NoRequest)
    ensures |rows| > 0 ==>
      && r.window.code == SelectedBy(HistoryFiles)
      && r.window.unstagedSel == [] && r.window.stagedSel == []
      && r.window.historyFileSel == w.historyFileSel
    ensures |rows| > 0 && rows[0] < |w.historyFiles| ==>
      && w.commit.Some?
      && r.request == CommitToParentLines(w.commit.value.oid, HistoryPath(w.historyFiles[rows[0]]))
      && r.window.diff.lines == reply.lines
      && r.window.diff.rendered == reply.ok
      && (reply.ok ==> r.window.diff.origin == Some(w.historyFiles[rows[0]]))
      && (!reply.ok ==> r.window.diff.origin == None)
    ensures |rows| > 0 && rows[0] >= |w.historyFiles| ==>
      && r.request == NoRequest
      && r.window.diff == if w.unstagedSel != [] || w.stagedSel != [] then EmptyDiff else w.diff
  {
    if |rows| == 0 then Step(w, NoRequest)
    else
      var w1 := ClearSelection(ClearSelection(w.(code := SelectedBy(HistoryFiles)), Unstaged), Staged);
      if rows[0] < |w.historyFiles| then
        var item := w.historyFiles[rows[0]];
        var diff := DiffView(reply.lines, reply.ok, if reply.ok then Some(item) else None);
        Step(w1.(diff := diff), CommitToParentLines(w.commit.value.oid, HistoryPath(item)))
      else
        Step(w1, NoRequest)
  }

  /** workingFileSelectionChanged and stagedFileSelectionChanged, which differ
      only in their list and in the diff they request. The diff view is reset
      whatever the selection; a non-empty selection takes over the code,
      clears the other two lists' selections and requests the diff of the
      distinct selected rows. */
  function FileListSelectionChanged(w: Window, s: Source, reply: DiffReply): (r: Step)
    requires s != HistoryFiles && Valid(w)
    ensures Valid(r.window) && SameLists(w, r.window)
    ensures Selection(r.window, s) == Selection(w, s)
    ensures Selection(w, s) == [] ==> r == Step(w.(diff := EmptyDiff), NoRequest)
    ensures Selection(w, s) != [] ==>
      && r.window.code == SelectedBy(s)
      && Selection(r.window, HistoryFiles) == [] && Selection(r.window, OtherIndexList(s)) == []
      && r.window.diff.lines == reply.lines
      && r.window.diff.rendered == reply.ok
      && r.window.diff.origin == (if reply.ok then DiffOrigin(Selection(w, s), Files(w, s)) else None)
      && r.request == (if s == Unstaged then IndexToWork(KeysAt(w.unstaged, Distinct(w.unstagedSel)))
                       else IndexToHead(KeysAt(w.staged, Distinct(w.stagedSel))))
  {
    var rows := Selection(w, s);
    var files := Files(w, s);
    var w0 := w.(diff := EmptyDiff);
    if rows == [] then Step(w0, NoRequest)
    else
      var w1 := ClearSelection(ClearSelection(w0.(code := SelectedBy(s)), HistoryFiles), OtherIndexList(s));
      var paths := KeysAt(files, Distinct(rows));
      var diff := DiffView(reply.lines, reply.ok, if reply.ok then DiffOrigin(rows, files) else None);
      Step(w1.(diff := diff), if s == Unstaged then IndexToWork(paths) else IndexToHead(paths))
  }

  /** workingFileSelectionChanged: the unstaged list's selection drives an
      index-to-working-tree diff. */
  function WorkingFileSelectionChanged(w: Window, reply: DiffReply): (r: Step)
    requires Valid(w)
    ensures Valid(r.window) && SameLists(w, r.window)
    ensures r.window.unstagedSel == w.unstagedSel
    ensures w.unstagedSel != [] ==>
      && r.window.code == SelectedBy(Unstaged)
      && r.window.historyFileSel == [] && r.window.stagedSel == []
      && r.request.IndexToWork?
      && |r.request.paths| == |Distinct(w.unstagedSel)| <= |w.unstagedSel|
      && (forall k :: 0 <= k < |r.request.paths| ==>
            r.request.paths[k] == StageKey(w.unstaged[Distinct(w.unstagedSel)[k]]))
      && r.window.diff.lines == reply.lines
      && (reply.ok && |w.unstagedSel| == 1 ==> r.window.diff.origin == Some(w.unstaged[w.unstagedSel[0]]))
      && r.window.diff.rendered == reply.ok
      && (!reply.ok ==> r.window.diff.origin == None)
      && (|w.unstagedSel| > 1 ==> r.window.diff.origin == None)
    ensures w.unstagedSel == [] ==> r.window == w.(diff := EmptyDiff) && r.request == NoRequest
  {
    FileListSelectionChanged(w, Unstaged, reply)
  }

  /** stagedFileSelectionChanged: the staged list's selection drives an
      index-to-HEAD diff. */
  function StagedFileSelectionChanged(w: Window, reply: DiffReply): (r: Step)
    requires Valid(w)
    ensures Valid(r.window) && SameLists(w, r.window)
    ensures r.window.stagedSel == w.stagedSel
    ensures w.stagedSel != [] ==>
      && r.window.code == SelectedBy(Staged)
      && r.window.historyFileSel == [] && r.window.unstagedSel == []
      && r.request.IndexToHead?
      && |r.request.paths| == |Distinct(w.stagedSel)| <= |w.stagedSel|
      && (forall k :: 0 <= k < |r.request.paths| ==>
            r.request.paths[k] == StageKey(w.staged[Distinct(w.stagedSel)[k]]))
      && r.window.diff.lines == reply.lines
      && (reply.ok && |w.stagedSel| == 1 ==> r.window.diff.origin == Some(w.staged[w.stagedSel[0]]))
      && r.window.diff.rendered == reply.ok
      && (!reply.ok ==> r.window.diff.origin == None)
      && (|w.stagedSel| > 1 ==> r.window.diff.origin == None)
    ensures w.stagedSel == [] ==> r.window == w.(diff := EmptyDiff) && r.request == NoRequest
  {
    FileListSelectionChanged(w, Staged, reply)
  }

  /** updateStatus: a successful scan replaces both lists at once (which
      empties their selections); a failed scan changes nothing. */
  function UpdateStatus(w: Window, status: Option<Status>): (r: Window)
    ensures status.None? ==> r == w
    ensures status.Some? ==>
      && r.staged == status.value.staged && r.unstaged == status.value.unstaged
      && r.stagedSel == [] && r.unstagedSel == []
      && r.code == w.code && r.diff == w.diff
      && r.history == w.history && r.commit == w.commit
      && r.historyFiles == w.historyFiles && r.historyFileSel == w.historyFileSel
    ensures Valid(w) ==> Valid(r)
  {
    match status
    case None => w
    case Some(s) => w.(staged := s.staged, unstaged := s.unstaged, stagedSel := [], unstagedSel := [])
  }

  /** The shared body of stageAll, stageSelected, unstageAll and
      unstageSelected: the keys of every row (`whole`) or of the selected
      rows, repeats kept, go to the index; success rescans the status, a
      failure only shows a message. */
  function ChangeIndex(w: Window, from: Source, whole: bool, ok: bool, status: Option<Status>): (r: Step)
    requires from != HistoryFiles && Valid(w)
  {
    var files := Files(w, from);
    var rows := if whole then AllRows(|files|) else Selection(w, from);
    var paths := KeysAt(files, rows);
    Step(if ok then UpdateStatus(w, status) else w,
         if from == Unstaged then AddToIndex(paths) else IndexUnstage(paths))
  }

  /** stageAll: every unstaged item, in list order. */
  function StageAll(w: Window, ok: bool, status: Option<Status>): (r: Step)
    requires Valid(w)
    ensures r.request.AddToIndex? && |r.request.paths| == |w.unstaged|
    ensures forall k :: 0 <= k < |w.unstaged| ==> r.request.paths[k] == StageKey(w.unstaged[k])
    ensures r.window == if ok then UpdateStatus(w, status) else w
  {
    ChangeIndex(w, Unstaged, true, ok, status)
  }

  /** stageSelected: the selected unstaged rows, in selection order, without
      dropping repeats. */
  function StageSelected(w: Window, ok: bool, status: Option<Status>): (r: Step)
    requires Valid(w)
    ensures r.request.AddToIndex? && |r.request.paths| == |w.unstagedSel|
    ensures forall k :: 0 <= k < |w.unstagedSel| ==>
      r.request.paths[k] == StageKey(w.unstaged[w.unstagedSel[k]])
    ensures r.window == if ok then UpdateStatus(w, status) else w
  {
    ChangeIndex(w, Unstaged, false, ok, status)
  }

  /** unstageAll: every staged item, in list order. */
  function UnstageAll(w: Window, ok: bool, status: Option<Status>): (r: Step)
    requires Valid(w)
    ensures r.request.IndexUnstage? && |r.request.paths| == |w.staged|
    ensures forall k :: 0 <= k < |w.staged| ==> r.request.paths[k] == StageKey(w.staged[k])
    ensures r.window == if ok then UpdateStatus(w, status) else w
  {
    ChangeIndex(w, Staged, true, ok, status)
  }

  /** unstageSelected: the selected staged rows, in selection order, without
      dropping repeats. */
  function UnstageSelected(w: Window, ok: bool, status: Option<Status>): (r: Step)
    requires Valid(w)
    ensures r.request.IndexUnstage? && |r.request.paths| == |w.stagedSel|
    ensures forall k :: 0 <= k < |w.stagedSel| ==>
      r.request.paths[k] == StageKey(w.staged[w.stagedSel[k]])
    ensures r.window == if ok then UpdateStatus(w, status) else w
  {
    ChangeIndex(w, Staged, false, ok, status)
  }

  /** cleaningRepo: the commit list, the commit details and its file list
      and the diff view are emptied. The selected code, the status lists and
      their selections are left alone. */
  function CleaningRepo(w: Window): (r: Window)
    ensures r.code == w.code
    ensures r.history == [] && r.commit == None && r.historyFiles == [] && r.historyFileSel == []
    ensures r.diff == EmptyDiff
    ensures r.unstaged == w.unstaged && r.unstagedSel == w.unstagedSel
    ensures r.staged == w.staged && r.stagedSel == w.stagedSel
    ensures Valid(w) ==> Valid(r)
  {
    w.(history := [], commit := None, historyFiles := [], historyFileSel := [], diff := EmptyDiff)
  }

  /** setupRepoUI, once a repository is open: a non-empty history from the
      repository is installed in the commit list; an empty or missing one
      leaves the list as it was. Nothing else in the window is touched here
      (the status rescan that follows is `UpdateStatus`). */
  function LoadHistory(w: Window, items: seq<HistoryItem>): (r: Window)
    ensures r.history == (if items != [] then items else w.history)
    ensures r == w.(history := r.history)
    ensures Valid(w) ==> Valid(r)
  {
    if items == [] then w else w.(history := items)
  }

  /** What can happen to the window: the user selects rows in one of the
      lists (the view's selection becomes `rows`, then its handler runs; the
      commit-file view also passes the rows just `added` to it), a status
      refresh (timer or menu), one of the four index actions, a repository's
      history being loaded, or the repository announcing that it is being
      cleaned. */
  datatype Event =
    | CommitSelected(rows: seq<nat>, files: Option<seq<FileItem>>)
    | HistoryFilesSelected(rows: seq<nat>, added: seq<nat>, reply: DiffReply)
    | UnstagedSelected(rows: seq<nat>, reply: DiffReply)
    | StagedSelected(rows: seq<nat>, reply: DiffReply)
    | Refreshed(status: Option<Status>)
    | StageAllClicked(ok: bool, status: Option<Status>)
    | StageSelectedClicked(ok: bool, status: Option<Status>)
    | UnstageAllClicked(ok: bool, status: Option<Status>)
    | UnstageSelectedClicked(ok: bool, status: Option<Status>)
    | HistoryLoaded(items: seq<HistoryItem>)
    | Cleaning

  /** The rows a selection event newly selects. */
  function Added(e: Event): seq<nat>
    requires e.HistoryFilesSelected? || e.UnstagedSelected? || e.StagedSelected?
  {
    if e.HistoryFilesSelected? then e.added else e.rows
  }

  /** A view only offers rows its list has, and a selection that gains no row
      yet is not empty can only be what is left of an earlier selection. */
  predicate Admissible(w: Window, e: Event) {
    match e
    case HistoryFilesSelected(rows, added, _) => added == [] && rows != [] ==> w.historyFileSel != []
    case UnstagedSelected(rows, _) => RowsIn(rows, |w.unstaged|)
    case StagedSelected(rows, _) => RowsIn(rows, |w.staged|)
    case _ => true
  }

  function Apply(w: Window, e: Event): (r: Step)
    requires Valid(w) && Admissible(w, e)
    ensures Valid(r.window)
  {
    match e
    case CommitSelected(rows, files) => HistorySelectionChanged(w, rows, files)
    case HistoryFilesSelected(rows, added, reply) => HistoryFileSelectionChanged(w.(historyFileSel := rows), added, reply)
    case UnstagedSelected(rows, reply) => WorkingFileSelectionChanged(w.(unstagedSel := rows), reply)
    case StagedSelected(rows, reply) => StagedFileSelectionChanged(w.(stagedSel := rows), reply)
    case Refreshed(status) => Step(UpdateStatus(w, status), NoRequest)
    case StageAllClicked(ok, status) => StageAll(w, ok, status)
    case StageSelectedClicked(ok, status) => StageSelected(w, ok, status)
    case UnstageAllClicked(ok, status) => UnstageAll(w, ok, status)
    case UnstageSelectedClicked(ok, status) => UnstageSelected(w, ok, status)
    case HistoryLoaded(items) => Step(LoadHistory(w, items), NoRequest)
    case Cleaning => Step(CleaningRepo(w), NoRequest)
  }

  /** A selection event keeps the window coherent: newly selected rows take
      the code; otherwise the list's selection is empty or was already the
      one the code names. */
  lemma SelectKeepsCoherent(w: Window, e: Event)
    requires Valid(w) && Coherent(w) && Admissible(w, e)
    requires e.HistoryFilesSelected? || e.UnstagedSelected? || e.StagedSelected?
    ensures Coherent(Apply(w, e).window)
  {
    var r := Apply(w, e).window;
    if Added(e) != [] {
      var s := if e.HistoryFilesSelected? then HistoryFiles else if e.UnstagedSelected? then Unstaged else Staged;
      SelectingIsExclusive(w, e, s);
    } else {
      forall s | Selection(r, s) != []
        ensures r.code == SelectedBy(s)
      {
        assert Selection(w, s) != [];
      }
    }
  }

  /** Every other event never adds to a selection nor changes the code. */
  lemma OtherEventKeepsCoherent(w: Window, e: Event)
    requires Valid(w) && Coherent(w) && Admissible(w, e)
    requires !(e.HistoryFilesSelected? || e.UnstagedSelected? || e.StagedSelected?)
    ensures Coherent(Apply(w, e).window)
  {
    var r := Apply(w, e).window;
    forall s | Selection(r, s) != []
      ensures r.code == SelectedBy(s)
    {
      assert Selection(w, s) != [];
    }
  }

  /** After any event a list with a selection is the one the code names. */
  lemma ApplyKeepsCoherent(w: Window, e: Event)
    requires Valid(w) && Coherent(w) && Admissible(w, e)
    ensures Coherent(Apply(w, e).window)
  {
    if e.HistoryFilesSelected? || e.UnstagedSelected? || e.StagedSelected? {
      SelectKeepsCoherent(w, e);
    } else {
      OtherEventKeepsCoherent(w, e);
    }
  }

  /** Newly selected rows in any list leave exactly that list selected. */
  lemma SelectingIsExclusive(w: Window, e: Event, s: Source)
    requires Valid(w) && Admissible(w, e)
    requires e.HistoryFilesSelected? || e.UnstagedSelected? || e.StagedSelected?
    requires s == (if e.HistoryFilesSelected? then HistoryFiles else if e.UnstagedSelected? then Unstaged else Staged)
    requires Added(e) != []
    ensures Apply(w, e).window.code == SelectedBy(s)
    ensures Selection(Apply(w, e).window, s) == e.rows
    ensures forall t :: t != s ==> Selection(Apply(w, e).window, t) == []
  {
  }

  /** Clearing a selection is the handler of that list run with nothing
      selected, so `ClearSelection` stands for the re-entrant call. */
  lemma ClearSelectionIsHandler(w: Window, s: Source, reply: DiffReply)
    requires Valid(w) && Selection(w, s) != []
    ensures s == HistoryFiles ==>
      ClearSelection(w, s) == HistoryFileSelectionChanged(WithSelection(w, s, []), [], reply).window
    ensures s != HistoryFiles ==>
      ClearSelection(w, s) == FileListSelectionChanged(WithSelection(w, s, []), s, reply).window
  {
  }

  /** Runs a sequence of events; `None` if some event is one no view could
      produce in the window it meets. */
  function Run(w: Window, es: seq<Event>): (r: Option<Window>)
    requires Valid(w)
    ensures r.Some? ==> Valid(r.value)
    decreases |es|
  {
    if |es| == 0 then Some(w)
    else if !Admissible(w, es[0]) then None
    else Run(Apply(w, es[0]).window, es[1..])
  }

  /** Every run from a coherent window, such as `Initial`, keeps the lists
      coherent: never two lists with a selection at once. */
  lemma {:induction false} RunKeepsCoherent(w: Window, es: seq<Event>)
    requires Valid(w) && Coherent(w)
    ensures Run(w, es).Some? ==> Coherent(Run(w, es).value)
    decreases |es|
  {
    if |es| > 0 && Admissible(w, es[0]) {
      ApplyKeepsCoherent(w, es[0]);
      RunKeepsCoherent(Apply(w, es[0]).window, es[1..]);
    }
  }

  /** Once a history is loaded, picking its i-th commit shows that commit
      and its files. */
  lemma PickAfterLoad(items: seq<HistoryItem>, i: nat, files: Option<seq<FileItem>>)
    requires i < |items|
    ensures Run(Initial, [HistoryLoaded(items), CommitSelected([i], files)]).Some?
    ensures Run(Initial, [HistoryLoaded(items), CommitSelected([i], files)]).value.commit == Some(items[i])
    ensures Run(Initial, [HistoryLoaded(items), CommitSelected([i], files)]).value.historyFiles == files.GetOr([])
  {
    var es := [HistoryLoaded(items), CommitSelected([i], files)];
    var loaded := Apply(Initial, es[0]).window;
    assert loaded.history == items;
    var picked := Apply(loaded, es[1]).window;
    assert picked.commit == Some(items[i]) && picked.historyFiles == files.GetOr([]);
    assert es[1..][1..] == [];
    assert Run(picked, []) == Some(picked);
    assert Run(loaded, es[1..]) == Run(picked, []);
  }

  lemma InitialIsCoherent()
    ensures Valid(Initial) && Coherent(Initial)
    ensures CodeText(Initial.code) == ""
  {
  }
}
