/** How the unstaged and staged selection handlers turn the selected rows of
    a file list into the path list of one diff request, and which file item
    (if any) the resulting diff is attributed to. */
module RowSelection {
  import opened Types
  import opened PathKeys

  /** The selected rows with repeats dropped, each kept where it first occurs. */
  function Distinct(rows: seq<nat>): (d: seq<nat>)
    ensures |d| <= |rows|
    ensures forall n: nat :: RowsIn(rows, n) ==> RowsIn(d, n)
  {
    if |rows| == 0 then []
    else
      var prefix := rows[..|rows| - 1];
      var d := Distinct(prefix);
      assert forall n: nat :: RowsIn(rows, n) ==> RowsIn(prefix, n) && rows[|rows| - 1] < n;
      if rows[|rows| - 1] in d then d else d + [rows[|rows| - 1]]
  }

  /** `Distinct` keeps exactly the selected rows, each once. */
  lemma {:induction false} DistinctElements(rows: seq<nat>)
    ensures forall x :: x in Distinct(rows) <==> x in rows
    ensures NoRepeats(Distinct(rows))
  {
    if |rows| > 0 {
      var prefix := rows[..|rows| - 1];
      assert rows == prefix + [rows[|rows| - 1]];
      DistinctElements(prefix);
    }
  }

  predicate NoRepeats<T(==)>(s: seq<T>) {
    forall i, j :: 0 <= i < j < |s| ==> s[i] != s[j]
  }

  /** Every occurrence of `b` in `rows` comes after some occurrence of `a`. */
  predicate OccursBefore(rows: seq<nat>, a: nat, b: nat) {
    forall q :: 0 <= q < |rows| && rows[q] == b ==> a in rows[..q]
  }

  /** `Distinct` lists rows in the order of their first occurrence. */
  lemma {:induction false} DistinctKeepsFirstOccurrenceOrder(rows: seq<nat>)
    ensures forall i, j :: 0 <= i < j < |Distinct(rows)| ==>
      OccursBefore(rows, Distinct(rows)[i], Distinct(rows)[j])
  {
    if |rows| > 0 {
      var n := |rows| - 1;
      var prefix := rows[..n];
      var x := rows[n];
      DistinctKeepsFirstOccurrenceOrder(prefix);
      DistinctElements(prefix);
      var d := Distinct(prefix);
      var d' := Distinct(rows);
      forall i, j | 0 <= i < j < |d'|
        ensures OccursBefore(rows, d'[i], d'[j])
      {
        assert d'[i] in prefix;
        forall q | 0 <= q < |rows| && rows[q] == d'[j]
          ensures d'[i] in rows[..q]
        {
          if q < n {
            assert rows[..q] == prefix[..q];
            assert j < |d|;
            assert OccursBefore(prefix, d[i], d[j]);
          } else {
            assert rows[..q] == prefix;
          }
        }
      }
    }
  }

  /** The keys of the rows `rows` of `files`, in the order of `rows`. */
  function KeysAt(files: seq<FileItem>, rows: seq<nat>): seq<string>
    requires RowsIn(rows, |files|)
  {
    seq(|rows|, k requires 0 <= k < |rows| => StageKey(files[rows[k]]))
  }

  /** Every row of a list of length `n`, top to bottom. */
  function AllRows(n: nat): (rows: seq<nat>)
    ensures |rows| == n && RowsIn(rows, n)
    ensures forall k :: 0 <= k < n ==> rows[k] == k
  {
    seq(n, k => k)
  }

  /** The item the collection loop looked at last: the last distinct row's
      item, and none exactly when nothing was selected. */
  function LastVisited(rows: seq<nat>, files: seq<FileItem>): (r: Option<FileItem>)
    requires RowsIn(rows, |files|)
    ensures r.None? <==> |rows| == 0
  {
    var d := Distinct(rows);
    DistinctElements(rows);
    assert |rows| > 0 ==> rows[0] in d;
    if |d| == 0 then None else Some(files[d[|d| - 1]])
  }

  /** The file item a successful diff is attributed to: the selected item when
      exactly one index was selected, none otherwise (repeated indexes of the
      same row included). */
  function DiffOrigin(rows: seq<nat>, files: seq<FileItem>): (r: Option<FileItem>)
    requires RowsIn(rows, |files|)
    ensures |rows| == 1 ==> r == Some(files[rows[0]])
    ensures |rows| != 1 ==> r == None
  {
    if |rows| > 1 then None
    else
      assert |rows| == 1 ==> rows == [] + [rows[0]];
      LastVisited(rows, files)
  }

  /** One more row either repeats an earlier one or is appended. */
  lemma DistinctSnoc(rows: seq<nat>, x: nat)
    ensures Distinct(rows + [x]) == if x in rows then Distinct(rows) else Distinct(rows) + [x]
  {
    assert (rows + [x])[..|rows|] == rows;
    DistinctElements(rows);
  }

  /** The item fetched last changes exactly when a row not seen before comes:
      it becomes that row's item. */
  lemma LastVisitedSnoc(rows: seq<nat>, x: nat, files: seq<FileItem>)
    requires RowsIn(rows, |files|) && x < |files|
    ensures RowsIn(rows + [x], |files|)
    ensures LastVisited(rows + [x], files) == if x in rows then LastVisited(rows, files) else Some(files[x])
  {
    DistinctSnoc(rows, x);
  }

  /** Every key of the request reads back as the item of its row, when the
      items are plain. */
  lemma KeysAtRoundTrip(files: seq<FileItem>, rows: seq<nat>)
    requires RowsIn(rows, |files|)
    requires forall i :: 0 <= i < |files| ==> PlainItem(files[i])
    ensures |KeysAt(files, rows)| == |rows|
    ensures forall k :: 0 <= k < |rows| ==> ParseStageKey(KeysAt(files, rows)[k]) == files[rows[k]]
  {
    forall k | 0 <= k < |rows|
      ensures ParseStageKey(KeysAt(files, rows)[k]) == files[rows[k]]
    {
      StageKeyRoundTrip(files[rows[k]]);
    }
  }

  /** No two rows of the list hold the same item, as in a status listing. */
  predicate ItemsDistinct(files: seq<FileItem>) {
    forall i, j :: 0 <= i < j < |files| ==> files[i] != files[j]
  }

  /** The request built from a selection names each file once: distinct rows
      of a list of distinct plain items get distinct keys. */
  lemma {:induction false} SelectedKeysNoRepeats(files: seq<FileItem>, rows: seq<nat>)
    requires RowsIn(rows, |files|)
    requires ItemsDistinct(files)
    requires forall i :: 0 <= i < |files| ==> PlainItem(files[i])
    ensures NoRepeats(KeysAt(files, Distinct(rows)))
  {
    var d := Distinct(rows);
    DistinctElements(rows);
    var keys := KeysAt(files, d);
    forall i, j | 0 <= i < j < |keys|
      ensures keys[i] != keys[j]
    {
      if keys[i] == keys[j] {
        StageKeyInjective(files[d[i]], files[d[j]]);
        assert false;
      }
    }
  }

  /** `rowMap` holds exactly the rows seen so far. */
  ghost predicate SeenRows(seen: seq<nat>, rowMap: set<nat>) {
    forall x :: x in rowMap <==> x in seen
  }

  /** `paths` holds the staging key of each kept row, in order, and `last`
      the item of the last kept row. */
  ghost predicate KeptKeys(files: seq<FileItem>, kept: seq<nat>, paths: seq<string>, last: Option<FileItem>)
  {
    && RowsIn(kept, |files|)
    && |paths| == |kept|
    && (forall k :: 0 <= k < |kept| ==> paths[k] == StageKey(files[kept[k]]))
    && last == (if |kept| == 0 then None else Some(files[kept[|kept| - 1]]))
  }

  /** What the collection loop knows once it has walked the rows `seen`;
      `kept` (ghost) lists the distinct ones. */
  ghost predicate CollectInv(seen: seq<nat>, files: seq<FileItem>, rowMap: set<nat>,
                             kept: seq<nat>, paths: seq<string>, last: Option<FileItem>)
  {
    && SeenRows(seen, rowMap)
    && kept == Distinct(seen)
    && KeptKeys(files, kept, paths, last)
  }

  /** Recording a new row in `rowMap` keeps it equal to the rows seen. */
  lemma SeenRowsSnoc(seen: seq<nat>, rowMap: set<nat>, x: nat)
    requires SeenRows(seen, rowMap)
    ensures SeenRows(seen + [x], rowMap + {x})
  {
    forall y
      ensures y in rowMap + {x} <==> y in seen + [x]
    {
      assert y in seen + [x] <==> y in seen || y == x;
    }
  }

  /** Appending a kept row's key and fetching its item keeps `KeptKeys`. */
  lemma KeptKeysSnoc(files: seq<FileItem>, kept: seq<nat>, paths: seq<string>, last: Option<FileItem>, x: nat)
    requires KeptKeys(files, kept, paths, last) && x < |files|
    ensures KeptKeys(files, kept + [x], paths + [StageKey(files[x])], Some(files[x]))
  {
    var kept', paths' := kept + [x], paths + [StageKey(files[x])];
    forall k | 0 <= k < |kept'|
      ensures kept'[k] < |files| && paths'[k] == StageKey(files[kept'[k]])
    {
      if k < |kept| {
        assert kept'[k] == kept[k] && paths'[k] == paths[k];
      }
    }
  }

  /** A row seen before leaves everything as it was. */
  lemma CollectSeenRow(seen: seq<nat>, x: nat, files: seq<FileItem>, rowMap: set<nat>,
                       kept: seq<nat>, paths: seq<string>, last: Option<FileItem>)
    requires x in rowMap
    requires CollectInv(seen, files, rowMap, kept, paths, last)
    ensures CollectInv(seen + [x], files, rowMap, kept, paths, last)
  {
    DistinctSnoc(seen, x);
  }

  /** A new row is recorded, kept, and its key appended; it is the item last fetched. */
  lemma CollectNewRow(seen: seq<nat>, x: nat, files: seq<FileItem>, rowMap: set<nat>,
                      kept: seq<nat>, paths: seq<string>, last: Option<FileItem>)
    requires x < |files| && x !in rowMap
    requires CollectInv(seen, files, rowMap, kept, paths, last)
    ensures CollectInv(seen + [x], files, rowMap + {x}, kept + [x],
                       paths + [StageKey(files[x])], Some(files[x]))
  {
    assert x !in seen;
    DistinctSnoc(seen, x);
    SeenRowsSnoc(seen, rowMap, x);
    KeptKeysSnoc(files, kept, paths, last, x);
  }

  /** After the last row, `CollectInv` is the contract of the loop. */
  lemma CollectDone(rows: seq<nat>, files: seq<FileItem>, rowMap: set<nat>,
                    kept: seq<nat>, paths: seq<string>, last: Option<FileItem>)
    requires RowsIn(rows, |files|)
    requires CollectInv(rows, files, rowMap, kept, paths, last)
    ensures paths == KeysAt(files, Distinct(rows))
    ensures last == LastVisited(rows, files)
  {
    var keys := KeysAt(files, kept);
    assert |paths| == |keys|;
    forall k | 0 <= k < |keys|
      ensures paths[k] == keys[k]
    {
    }
  }

  /** The loop of the selection handlers: walk the selected rows, skip a row
      already recorded in `rowMap`, and append the staging key of each new
      row's item; `last` is the item the loop fetched last. */
  method CollectSelectedPaths(rows: seq<nat>, files: seq<FileItem>)
    returns (paths: seq<string>, last: Option<FileItem>)
    requires RowsIn(rows, |files|)
    ensures paths == KeysAt(files, Distinct(rows))
    ensures last == LastVisited(rows, files)
  {
    var rowMap: set<nat> := {};
    ghost var kept: seq<nat> := [];
    paths := [];
    last := None;
    var i := 0;
    while i < |rows|
      invariant i <= |rows|
      invariant CollectInv(rows[..i], files, rowMap, kept, paths, last)
    {
      var row := rows[i];
      assert rows[..i + 1] == rows[..i] + [row];
      if row in rowMap {
        CollectSeenRow(rows[..i], row, files, rowMap, kept, paths, last);
      } else {
        CollectNewRow(rows[..i], row, files, rowMap, kept, paths, last);
        rowMap := rowMap + {row};
        var item := files[row];
        kept := kept + [row];
        paths := paths + [StageKey(item)];
        last := Some(item);
      }
      i := i + 1;
    }
    assert rows[..|rows|] == rows;
    CollectDone(rows, files, rowMap, kept, paths, last);
  }
}
