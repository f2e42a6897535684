/** The recent-repository list: the persisted array of paths, how opening a
    repository promotes its path to the front, and how the "Recent" menu
    shows the first few entries. The stored list itself is never cut short;
    only the menu is bounded. */
module RecentRepos {
  import opened Types
  import PathKeys

  /** Number of actions in the "Recent" menu (declared in mainwindow.h,
      which is not part of this model; the application shows five). */
  const MaxRecentRepos: nat := 5

  /** The persisted "RecentRepoList" array: its recorded size and the "file"
      value stored at each index. Entries past the size may linger from a
      longer list written earlier. */
  datatype SettingsArray = SettingsArray(size: nat, entries: map<nat, string>)

  /** readRecentRepos: the first `size` entries; a missing value reads as "". */
  function ReadRecentRepos(s: SettingsArray): (r: seq<string>)
    ensures |r| == s.size
  {
    seq(s.size, i => if i in s.entries then s.entries[i] else "")
  }

  /** writeRecentRepos: stores every path at its index and records the size;
      entries past the new size are left where they were. */
  function WriteRecentRepos(files: seq<string>, s: SettingsArray): (r: SettingsArray)
    ensures r.size == |files|
    ensures forall i :: i in s.entries && i >= |files| ==> i in r.entries && r.entries[i] == s.entries[i]
  {
    SettingsArray(|files|, s.entries + map i: nat | i < |files| :: files[i])
  }

  /** hasRecentRepos: the stored list is not empty. */
  function HasRecentRepos(s: SettingsArray): (r: bool)
    ensures r <==> ReadRecentRepos(s) != []
  {
    s.size > 0
  }

  /** Entries past the recorded size never show: two arrays that agree on
      their first `size` entries read the same. */
  lemma ReadIgnoresStale(s: SettingsArray, t: SettingsArray)
    requires s.size == t.size
    requires forall i :: i < s.size ==> (i in s.entries <==> i in t.entries)
    requires forall i :: i < s.size && i in s.entries ==> s.entries[i] == t.entries[i]
    ensures ReadRecentRepos(s) == ReadRecentRepos(t)
  {
    var a, b := ReadRecentRepos(s), ReadRecentRepos(t);
    forall i | 0 <= i < s.size
      ensures a[i] == b[i]
    {
    }
  }

  /** Writing a list and reading it back gives the same list. */
  lemma ReadAfterWrite(files: seq<string>, s: SettingsArray)
    ensures ReadRecentRepos(WriteRecentRepos(files, s)) == files
  {
    var back := ReadRecentRepos(WriteRecentRepos(files, s));
    assert |back| == |files|;
    forall i | 0 <= i < |files|
      ensures back[i] == files[i]
    {
    }
  }

  /** `list` without any occurrence of `x`, the rest in its order. */
  function RemoveAll(list: seq<string>, x: string): (r: seq<string>)
    ensures x !in r
    ensures multiset(r) == multiset(list)[x := 0]
  {
    if |list| == 0 then []
    else
      assert list == [list[0]] + list[1..];
      (if list[0] == x then [] else [list[0]]) + RemoveAll(list[1..], x)
  }

  /** Removing distributes over concatenation: the kept elements of each part
      stay together and in order. */
  lemma {:induction false} RemoveAllAppend(a: seq<string>, b: seq<string>, x: string)
    ensures RemoveAll(a + b, x) == RemoveAll(a, x) + RemoveAll(b, x)
  {
    if |a| > 0 {
      assert (a + b)[0] == a[0];
      assert (a + b)[1..] == a[1..] + b;
      RemoveAllAppend(a[1..], b, x);
      var head := if a[0] == x then [] else [a[0]];
      assert RemoveAll(a + b, x) == head + (RemoveAll(a[1..], x) + RemoveAll(b, x));
      assert head + (RemoveAll(a[1..], x) + RemoveAll(b, x)) == (head + RemoveAll(a[1..], x)) + RemoveAll(b, x);
    } else {
      assert a + b == b;
    }
  }

  /** Nothing to remove leaves the list as it is. */
  lemma {:induction false} RemoveAllAbsent(list: seq<string>, x: string)
    requires x !in list
    ensures RemoveAll(list, x) == list
  {
    if |list| > 0 {
      RemoveAllAbsent(list[1..], x);
    }
  }

  /** The list after `removeAll(dirName)` and `prepend(dirName)`. */
  function Promote(list: seq<string>, dir: string): (r: seq<string>)
    ensures |r| > 0 && r[0] == dir
    ensures dir !in r[1..]
    ensures multiset(r) == multiset(list)[dir := 1]
    ensures |r| == |list| - multiset(list)[dir] + 1
  {
    var rest := RemoveAll(list, dir);
    assert multiset([dir] + rest) == multiset([dir]) + multiset(rest);
    assert |multiset(list)[dir := 0]| == |multiset(list)| - multiset(list)[dir];
    [dir] + rest
  }

  /** After the path, the old list follows with every copy of the path taken out. */
  lemma PromoteKeepsOrder(list: seq<string>, dir: string)
    ensures Promote(list, dir)[1..] == RemoveAll(list, dir)
  {
  }

  /** A path that was not listed makes the list one longer: nothing is dropped. */
  lemma PromoteNewPathGrows(list: seq<string>, dir: string)
    requires dir !in list
    ensures Promote(list, dir) == [dir] + list
    ensures |Promote(list, dir)| == |list| + 1
  {
    RemoveAllAbsent(list, dir);
  }

  /** Promoting the same path twice is promoting it once. */
  lemma PromoteIdempotent(list: seq<string>, dir: string)
    ensures Promote(Promote(list, dir), dir) == Promote(list, dir)
  {
    PromoteUnchangedIff(Promote(list, dir), dir);
  }

  /** Promoting changes the list exactly when the path is not already its
      only copy at the front. */
  lemma PromoteUnchangedIff(list: seq<string>, dir: string)
    ensures Promote(list, dir) == list <==> (|list| > 0 && list[0] == dir && dir !in list[1..])
  {
    if |list| > 0 && list[0] == dir && dir !in list[1..] {
      assert list == [dir] + list[1..];
      RemoveAllAppend([dir], list[1..], dir);
      RemoveAllAbsent(list[1..], dir);
    }
  }

  /** The outcome of prependToRecentRepos: the settings afterwards, whether
      the array was rewritten, and the visibility of the "Recent" menu. */
  datatype RecentUpdate = RecentUpdate(settings: SettingsArray, written: bool, menuVisible: bool)

  /** prependToRecentRepos: promote `dir` in the stored list and write the
      list back only when that changed it. */
  function PrependToRecentRepos(s: SettingsArray, dir: string): (r: RecentUpdate)
    ensures ReadRecentRepos(r.settings) == Promote(ReadRecentRepos(s), dir)
    ensures r.written <==> !(|ReadRecentRepos(s)| > 0 && ReadRecentRepos(s)[0] == dir && dir !in ReadRecentRepos(s)[1..])
    ensures !r.written ==> r.settings == s
    ensures r.menuVisible && HasRecentRepos(r.settings)
  {
    var stored := ReadRecentRepos(s);
    var recent := Promote(stored, dir);
    PromoteUnchangedIff(stored, dir);
    ReadAfterWrite(recent, s);
    var written := stored != recent;
    var s' := if written then WriteRecentRepos(recent, s) else s;
    RecentUpdate(s', written, |recent| > 0)
  }

  /** Opening the same repository twice in a row rewrites the list at most once. */
  lemma PrependTwiceWritesOnce(s: SettingsArray, dir: string)
    ensures !PrependToRecentRepos(PrependToRecentRepos(s, dir).settings, dir).written
  {
    var first := PrependToRecentRepos(s, dir);
    assert ReadRecentRepos(first.settings) == Promote(ReadRecentRepos(s), dir);
  }

  /** One entry of the "Recent" menu. */
  datatype RecentAction = RecentAction(text: string, data: string, visible: bool)

  /** Decimal digits of `n`, most significant first. */
  function Decimal(n: nat): (r: string)
    ensures |r| > 0
    ensures forall k :: 0 <= k < |r| ==> '0' <= r[k] <= '9'
  {
    if n < 10 then ['0' + n as char]
    else Decimal(n / 10) + ['0' + (n % 10) as char]
  }

  /** The number a string of decimal digits denotes, most significant first. */
  function DigitsValue(s: string): nat
    requires forall k :: 0 <= k < |s| ==> '0' <= s[k] <= '9'
  {
    if |s| == 0 then 0
    else DigitsValue(s[..|s| - 1]) * 10 + (s[|s| - 1] as int - '0' as int)
  }

  /** Reading the digits back gives the number: the label's number is `n`. */
  lemma {:induction false} DecimalRoundTrip(n: nat)
    ensures DigitsValue(Decimal(n)) == n
  {
    if n >= 10 {
      var r := Decimal(n);
      assert r[..|r| - 1] == Decimal(n / 10);
      DecimalRoundTrip(n / 10);
    }
  }

  /** QFileInfo::fileName: the part of `path` after its last '/'. */
  function BaseName(path: string): string {
    match PathKeys.LastSlash(path)
    case None => path
    case Some(i) => path[i + 1..]
  }

  /** The file name is the longest suffix of the path without '/'. */
  lemma BaseNameIsLastSegment(path: string)
    ensures '/' !in BaseName(path)
    ensures |BaseName(path)| <= |path| && BaseName(path) == path[|path| - |BaseName(path)|..]
    ensures '/' !in path ==> BaseName(path) == path
    ensures '/' in path ==> path[|path| - |BaseName(path)| - 1] == '/'
  {
  }

  /** The text "&<i+1> <file name>" of the menu action at index `i`. */
  function Label(i: nat, path: string): string {
    "&" + Decimal(i + 1) + " " + BaseName(path)
  }

  /** For the menu's single-digit indexes the label is '&', the digit i+1, a
      space and the file name. */
  lemma LabelShape(i: nat, path: string)
    requires i < 9
    ensures |Label(i, path)| >= 3 && Label(i, path)[0] == '&'
    ensures Label(i, path)[1] == ('1' as int + i) as char && Label(i, path)[2] == ' '
    ensures Label(i, path)[3..] == BaseName(path)
  {
    var r := Label(i, path);
    assert Decimal(i + 1) == [('1' as int + i) as char];
    assert r == ['&', ('1' as int + i) as char, ' '] + BaseName(path);
  }

  /** updateRecentRepoActions: the first min(MaxRecentRepos, size) actions
      show the stored paths in order and become visible; the rest are hidden
      and otherwise left as they were. */
  method UpdateRecentRepoActions(acts: seq<RecentAction>, s: SettingsArray) returns (r: seq<RecentAction>)
    requires |acts| == MaxRecentRepos
    ensures |r| == MaxRecentRepos
    ensures forall i :: 0 <= i < |r| ==> (r[i].visible <==> i < |ReadRecentRepos(s)|)
    ensures forall i :: 0 <= i < |r| && i < |ReadRecentRepos(s)| ==>
      r[i] == RecentAction(Label(i, ReadRecentRepos(s)[i]), ReadRecentRepos(s)[i], true)
    ensures forall i :: 0 <= i < |r| && |ReadRecentRepos(s)| <= i ==> r[i] == acts[i].(visible := false)
  {
    var recent := ReadRecentRepos(s);
    var count := if MaxRecentRepos < |recent| then MaxRecentRepos else |recent|;
    r := acts;
    var i := 0;
    while i < count
      invariant 0 <= i <= count
      invariant |r| == MaxRecentRepos
      invariant forall k :: 0 <= k < i ==> r[k] == RecentAction(Label(k, recent[k]), recent[k], true)
      invariant forall k :: i <= k < |r| ==> r[k] == acts[k]
    {
      r := r[i := RecentAction(Label(i, recent[i]), recent[i], true)];
      i := i + 1;
    }
    while i < MaxRecentRepos
      invariant count <= i <= MaxRecentRepos
      invariant |r| == MaxRecentRepos
      invariant forall k :: 0 <= k < count ==> r[k] == RecentAction(Label(k, recent[k]), recent[k], true)
      invariant forall k :: count <= k < i ==> r[k] == acts[k].(visible := false)
      invariant forall k :: i <= k < |r| ==> r[k] == acts[k]
    {
      r := r[i := r[i].(visible := false)];
      i := i + 1;
    }
  }
}
