/** Values shared by every part of the main-window model: the entries of the
    file and history lists, diff lines, and the optional value that stands for
    an item lookup that may come back null. */
module Types {

  /** A value that may be absent, as when a lookup comes back null. */
  datatype Option<T> = None | Some(value: T) {
    function GetOr(default: T): T {
      match this
      case Some(v) => v
      case None => default
    }
  }

  /** One entry of a status listing or of a commit's file list. `subDir` is
      "." for a file at the repository root; an empty `fileName` stands for a
      whole directory (an untracked directory, say). The status flag the
      listing also carries is never read by the code modelled here. */
  datatype FileItem = FileItem(subDir: string, fileName: string)

  /** One commit of the history list; only its object id is used here. */
  datatype HistoryItem = HistoryItem(oid: string)

  /** One line of diff output, as the repository emits it. */
  datatype LineItem = LineItem(origin: char, content: string)

  /** A snapshot of the repository status: both lists come from one scan. */
  datatype Status = Status(staged: seq<FileItem>, unstaged: seq<FileItem>)

  /** Every selected row addresses an element of a list of length `n`. */
  predicate RowsIn(rows: seq<nat>, n: nat) {
    forall i :: 0 <= i < |rows| ==> rows[i] < n
  }
}
