/** The strings that name a file item when it is staged, unstaged or diffed.
    Two spellings exist in the main window: the one built for the staging and
    working-tree lists, which marks a whole-directory entry with a wildcard,
    and the one built for a commit's file list, which does not. */
module PathKeys {
  import opened Types

  /** The `subDir` of an item at the repository root. */
  const RootDir := "."

  /** What the staging key shows in place of an empty file name. */
  const Wildcard := "*"

  /** Position of the last '/' in `s`, if there is one. */
  function LastSlash(s: string): (r: Option<nat>)
    ensures r.None? <==> '/' !in s
    ensures r.Some? ==> r.value < |s| && s[r.value] == '/' && '/' !in s[r.value + 1..]
  {
    if |s| == 0 then None
    else if s[|s| - 1] == '/' then Some(|s| - 1)
    else
      assert s == s[..|s| - 1] + [s[|s| - 1]];
      var r := LastSlash(s[..|s| - 1]);
      assert r.Some? ==> s[r.value + 1..] == s[..|s| - 1][r.value + 1..] + [s[|s| - 1]];
      r
  }

  /** The key the unstaged and staged lists hand to the stage, unstage and
      diff calls: the directory and a '/' unless the item sits at the root,
      a wildcard when the item is a whole directory, then the file name. */
  function StageKey(item: FileItem): (key: string)
    ensures item.subDir == RootDir ==> key == item.fileName
    ensures item.subDir != RootDir && item.fileName == "" ==> key == item.subDir + "/" + Wildcard
    ensures item.subDir != RootDir && item.fileName != "" ==> key == item.subDir + "/" + item.fileName
  {
    var prefix :=
      if item.subDir != RootDir
      then item.subDir + "/" + (if item.fileName == "" then Wildcard else "")
      else "";
    prefix + item.fileName
  }

  /** The path the commit file list hands to the commit-to-parent diff: the
      same directory prefix, but never a wildcard. */
  function HistoryPath(item: FileItem): (path: string)
    ensures item.subDir == RootDir ==> path == item.fileName
    ensures item.subDir != RootDir ==> path == item.subDir + "/" + item.fileName
  {
    var sub := if item.subDir != RootDir then item.subDir + "/" else "";
    sub + item.fileName
  }

  /** Reads a staging key back into the item it names: a key without '/'
      is a root file, otherwise the last '/' separates directory and name. */
  function ParseStageKey(key: string): FileItem {
    match LastSlash(key)
    case None => FileItem(RootDir, key)
    case Some(i) => FileItem(key[..i], if key[i + 1..] == Wildcard then "" else key[i + 1..])
  }

  /** Reads a commit-file path back into the item it names. */
  function ParseHistoryPath(path: string): FileItem {
    match LastSlash(path)
    case None => FileItem(RootDir, path)
    case Some(i) => FileItem(path[..i], path[i + 1..])
  }

  /** File names as a status scan reports them: no '/' inside, and outside
      the root a name is never the wildcard itself. */
  predicate PlainItem(item: FileItem) {
    && '/' !in item.fileName
    && (item.subDir != RootDir ==> item.fileName != Wildcard)
  }

  /** In `prefix + "/" + tail` with no '/' in `tail`, the last '/' is the one after `prefix`. */
  lemma LastSlashAfterPrefix(prefix: string, tail: string)
    requires '/' !in tail
    ensures LastSlash(prefix + "/" + tail) == Some(|prefix|)
  {
    var s := prefix + "/" + tail;
    assert s[|prefix|] == '/';
    var r := LastSlash(s);
    if r.value < |prefix| {
      assert false;
    } else if r.value > |prefix| {
      assert false;
    }
  }

  /** The staging key loses nothing: parsing it gives back the item. */
  lemma StageKeyRoundTrip(item: FileItem)
    requires PlainItem(item)
    ensures ParseStageKey(StageKey(item)) == item
  {
    var key := StageKey(item);
    if item.subDir == RootDir {
      assert LastSlash(key).None?;
    } else {
      var tail := if item.fileName == "" then Wildcard else item.fileName;
      assert key == item.subDir + "/" + tail;
      LastSlashAfterPrefix(item.subDir, tail);
      assert key[..|item.subDir|] == item.subDir;
      assert key[|item.subDir| + 1..] == tail;
    }
  }

  /** Two different plain items never share a staging key, so staging by key
      stages exactly the item that was chosen. */
  lemma StageKeyInjective(a: FileItem, b: FileItem)
    requires PlainItem(a) && PlainItem(b)
    requires StageKey(a) == StageKey(b)
    ensures a == b
  {
    StageKeyRoundTrip(a);
    StageKeyRoundTrip(b);
  }

  /** The wildcard is why `PlainItem` rules out a file literally named "*":
      such a file and its whole directory get the same key. */
  lemma WildcardCollides(dir: string)
    requires dir != RootDir
    ensures StageKey(FileItem(dir, "")) == StageKey(FileItem(dir, Wildcard))
    ensures FileItem(dir, "") != FileItem(dir, Wildcard)
  {
  }

  /** The commit-file path loses nothing either. */
  lemma HistoryPathRoundTrip(item: FileItem)
    requires '/' !in item.fileName
    ensures ParseHistoryPath(HistoryPath(item)) == item
  {
    var path := HistoryPath(item);
    if item.subDir == RootDir {
      assert LastSlash(path).None?;
    } else {
      LastSlashAfterPrefix(item.subDir, item.fileName);
      assert path[..|item.subDir|] == item.subDir;
      assert path[|item.subDir| + 1..] == item.fileName;
    }
  }

  /** The two spellings agree except on a whole-directory entry outside the
      root, where only the staging key carries the wildcard. */
  lemma StageKeyVersusHistoryPath(item: FileItem)
    ensures StageKey(item) == HistoryPath(item) <==> (item.subDir == RootDir || item.fileName != "")
    ensures StageKey(item) != HistoryPath(item) ==> StageKey(item) == HistoryPath(item) + Wildcard
  {
    if item.subDir != RootDir && item.fileName == "" {
      assert |StageKey(item)| == |HistoryPath(item)| + 1;
    }
  }
}
