/**
 * The application's state: the table of rows and the dictionary from row id
 * to source path, kept in lockstep. A scan request clears both; processing
 * the walked folder appends one row and one dictionary entry per decoded
 * file; activating a row yields the path to open.
 */
module Inspector {
  import opened Text
  import opened Paths
  import opened Selection
  import opened Rows

  /** The table's row handle. Each insertion takes the next value of a counter
      that is never reset, so a handle is never reused. */
  type RowId = nat

  datatype TreeItem = TreeItem(id: RowId, values: Row)

  /** The handles of the rows, as a set. */
  function Ids(items: seq<TreeItem>): (ids: set<RowId>)
  {
    if items == [] then {} else Ids(items[..|items| - 1]) + {items[|items| - 1].id}
  }

  /** A handle is among the rows' handles exactly when some row carries it. */
  lemma {:induction false} IdsMember(items: seq<TreeItem>, id: RowId)
    ensures id in Ids(items) <==> exists k :: 0 <= k < |items| && items[k].id == id
  {
    if items != [] {
      var init := items[..|items| - 1];
      IdsMember(init, id);
      if exists k :: 0 <= k < |init| && init[k].id == id {
        var k :| 0 <= k < |init| && init[k].id == id;
        assert items[k] == init[k];
      }
      if exists k :: 0 <= k < |items| && items[k].id == id {
        var k :| 0 <= k < |items| && items[k].id == id;
        if k < |init| {
          assert init[k] == items[k];
        }
      }
    }
  }

  /** Handles strictly increase down the table, so no two rows share one. */
  predicate Increasing(items: seq<TreeItem>)
  {
    forall k, l :: 0 <= k < l < |items| ==> items[k].id < items[l].id
  }

  /** `tree.delete(id)` on a flat table: the row with that handle goes. */
  function RemoveId(items: seq<TreeItem>, id: RowId): (r: seq<TreeItem>)
    ensures |r| <= |items|
  {
    if items == [] then []
    else (if items[0].id == id then [] else [items[0]]) + RemoveId(items[1..], id)
  }

  /** The rows that processing appends: the decoded files in order, under handles
      `start`, `start + 1`, and so on. */
  function Items(d: seq<Inserted>, start: RowId): (items: seq<TreeItem>)
    ensures |items| == |d|
  {
    if d == [] then []
    else Items(d[..|d| - 1], start) + [TreeItem(start + |d| - 1, d[|d| - 1].row)]
  }

  /** The dictionary entries that processing adds: each new handle to its file's path. */
  function PathMap(d: seq<Inserted>, start: RowId): (m: map<RowId, string>)
  {
    if d == [] then map[]
    else PathMap(d[..|d| - 1], start)[start + |d| - 1 := d[|d| - 1].path]
  }

  lemma {:induction false} RemoveAbsent(items: seq<TreeItem>, id: RowId)
    requires forall k :: 0 <= k < |items| ==> items[k].id != id
    ensures RemoveId(items, id) == items
  {
    if items != [] {
      RemoveAbsent(items[1..], id);
    }
  }

  /** Deleting the first row's handle removes exactly the first row. */
  lemma RemoveHead(items: seq<TreeItem>)
    requires items != [] && Increasing(items)
    ensures RemoveId(items, items[0].id) == items[1..]
  {
    RemoveAbsent(items[1..], items[0].id);
  }

  /** Updating a union at one key is the union with the second map updated there. */
  lemma UnionUpdate(a: map<RowId, string>, b: map<RowId, string>, k: RowId, v: string)
    ensures (a + b)[k := v] == a + b[k := v]
  {
    var l, r := (a + b)[k := v], a + b[k := v];
    assert l.Keys == r.Keys;
    forall x | x in l.Keys ensures l[x] == r[x] {
    }
  }

  /** Each row's Filename cell names the file its dictionary entry points to. */
  ghost predicate NamesMatch(items: seq<TreeItem>, paths: map<RowId, string>)
  {
    forall k :: 0 <= k < |items| && items[k].id in paths ==> NamedBy(items[k].values, paths[items[k].id])
  }

  /** The row shows the file at `path` under its own name. */
  predicate NamedBy(row: Row, path: string)
  {
    row.filename == Basename(path)
  }

  /** A row appended under a handle no row has, recorded with the path it was
      built from, keeps every row named by its file. */
  lemma AppendNamed(items: seq<TreeItem>, paths: map<RowId, string>, id: RowId, values: Row, path: string)
    requires NamesMatch(items, paths) && NamedBy(values, path)
    requires forall k :: 0 <= k < |items| ==> items[k].id < id
    ensures NamesMatch(items + [TreeItem(id, values)], paths[id := path])
  {
    var items', paths' := items + [TreeItem(id, values)], paths[id := path];
    forall k | 0 <= k < |items'| && items'[k].id in paths'
      ensures NamedBy(items'[k].values, paths'[items'[k].id])
    {
      if k < |items| {
        assert items'[k] == items[k];
      }
    }
  }

  /** The handles of the rows processing adds are exactly the keys it adds. */
  lemma {:induction false} PathMapKeys(d: seq<Inserted>, start: RowId)
    ensures PathMap(d, start).Keys == Ids(Items(d, start))
  {
    if d != [] {
      var init := d[..|d| - 1];
      PathMapKeys(init, start);
      var items := Items(d, start);
      assert items[..|items| - 1] == Items(init, start);
    }
  }

  /** Row `k` of what processing adds has handle `start + k` and the cells of the
      `k`-th decoded file, and that handle leads to the file's path. */
  lemma {:induction false} ItemsAt(d: seq<Inserted>, start: RowId, k: nat)
    requires k < |d|
    ensures Items(d, start)[k] == TreeItem(start + k, d[k].row)
    ensures start + k in PathMap(d, start) && PathMap(d, start)[start + k] == d[k].path
  {
    var init := d[..|d| - 1];
    if k < |init| {
      ItemsAt(init, start, k);
      assert Items(d, start)[k] == Items(init, start)[k];
      assert init[k] == d[k];
    }
  }

  /** A one-file outcome adds one row and one dictionary entry. */
  lemma SingleOutcome(e: Inserted, id: RowId, items: seq<TreeItem>, paths: map<RowId, string>)
    ensures items + Items([e], id) == items + [TreeItem(id, e.row)]
    ensures paths + PathMap([e], id) == paths[id := e.path]
  {
    assert [e][..0] == [];
  }

  /** Appending the rows and entries of one more file's outcome to what the loop
      has done so far gives what the loop has done after that file. */
  lemma StepState(rows0: seq<TreeItem>, paths0: map<RowId, string>, done: seq<Inserted>,
                  outcome: seq<Inserted>, start: RowId, next: RowId,
                  rowsBefore: seq<TreeItem>, pathsBefore: map<RowId, string>,
                  rowsAfter: seq<TreeItem>, pathsAfter: map<RowId, string>)
    requires rowsBefore == rows0 + Items(done, start)
    requires pathsBefore == paths0 + PathMap(done, start)
    requires next == start + |done|
    requires rowsAfter == rowsBefore + Items(outcome, next)
    requires pathsAfter == pathsBefore + PathMap(outcome, next)
    ensures rowsAfter == rows0 + Items(done + outcome, start)
    ensures pathsAfter == paths0 + PathMap(done + outcome, start)
  {
    ItemsAppend(done, outcome, start);
  }

  /** Items and PathMap of two runs are those of the first run followed by those of
      the second under the handles that come next. */
  lemma {:induction false} ItemsAppend(d: seq<Inserted>, e: seq<Inserted>, start: RowId)
    ensures Items(d + e, start) == Items(d, start) + Items(e, start + |d|)
    ensures PathMap(d + e, start) == PathMap(d, start) + PathMap(e, start + |d|)
  {
    if e == [] {
      assert d + e == d;
    } else {
      var init, last := e[..|e| - 1], e[|e| - 1];
      ItemsAppend(d, init, start);
      assert (d + e)[..|d + e| - 1] == d + init;
      assert (d + e)[|d + e| - 1] == last;
      var k := start + |d| + |init|;
      assert PathMap(d + e, start) == PathMap(d + init, start)[k := last.path];
      assert PathMap(e, start + |d|) == PathMap(init, start + |d|)[k := last.path];
      UnionUpdate(PathMap(d, start), PathMap(init, start + |d|), k, last.path);
    }
  }

  /** Every row has exactly one dictionary entry and the dictionary has no other;
      handles are increasing and all below the counter, so a new one is fresh; and
      a row's Filename cell is the basename of the path its handle opens. */
  ghost predicate Consistent(items: seq<TreeItem>, paths: map<RowId, string>, next: RowId)
  {
    Increasing(items) &&
    (forall k :: 0 <= k < |items| ==> items[k].id < next) &&
    paths.Keys == Ids(items) &&
    NamesMatch(items, paths)
  }

  /** Inserting a row under the counter's handle, recording the path it was built
      from under that handle, and advancing the counter keeps the state consistent. */
  lemma AppendConsistent(items: seq<TreeItem>, paths: map<RowId, string>, next: RowId, values: Row, path: string)
    requires Consistent(items, paths, next) && NamedBy(values, path)
    ensures Consistent(items + [TreeItem(next, values)], paths[next := path], next + 1)
  {
    var items' := items + [TreeItem(next, values)];
    assert items'[..|items|] == items;
    assert Ids(items') == Ids(items) + {next};
    AppendNamed(items, paths, next, values, path);
  }

  class ImageInspector {
    /** The table's rows, top to bottom. */
    var rows: seq<TreeItem>
    /** Row handle to the path of the file the row shows. */
    var filePaths: map<RowId, string>
    /** The handle the next inserted row receives. */
    var nextId: RowId

    ghost predicate Valid()
      reads this
    {
      Consistent(rows, filePaths, nextId)
    }

    constructor ()
      ensures Valid()
      ensures rows == [] && filePaths == map[]
    {
      rows := [];
      filePaths := map[];
      nextId := 0;
    }

    /** `tree.insert('', 'end', values=...)`: appends a row under a fresh handle. */
    method Insert(values: Row) returns (id: RowId)
      modifies this`rows, this`nextId
      ensures id == old(nextId) && nextId == old(nextId) + 1
      ensures rows == old(rows) + [TreeItem(id, values)]
    {
      id := nextId;
      rows := rows + [TreeItem(id, values)];
      nextId := nextId + 1;
    }

    /** `tree.delete(id)`. */
    method Delete(id: RowId)
      modifies this`rows
      ensures rows == RemoveId(old(rows), id)
    {
      rows := RemoveId(rows, id);
    }

    /** The scan button. An empty folder field changes nothing (the user is warned);
        otherwise every row is deleted, one at a time, and then the dictionary is cleared,
        before processing is handed off. */
    method ScanImages(folder: string) returns (started: bool)
      requires Valid()
      modifies this
      ensures Valid()
      ensures started <==> folder != ""
      ensures !started ==> rows == old(rows) && filePaths == old(filePaths) && nextId == old(nextId)
      ensures started ==> rows == [] && filePaths == map[] && nextId == old(nextId)
    {
      if folder == "" {
        return false;
      }
      var children := seq(|rows|, k requires 0 <= k < |rows| reads this => rows[k].id);
      var i := 0;
      while i < |children|
        invariant 0 <= i <= |children|
        invariant rows == old(rows)[i..]
        invariant nextId == old(nextId) && filePaths == old(filePaths)
      {
        assert Increasing(rows);
        RemoveHead(rows);
        Delete(children[i]);
        i := i + 1;
      }
      filePaths := map[];
      started := true;
    }

    /** The worker's body: select the image files of the walked folder, and for each
        one that decodes insert its row and record its handle's path. A file that
        fails adds nothing and the loop goes on. Returns false, changing nothing,
        when no file was selected (the "no images found" message). */
    method ProcessImages(walk: seq<WalkStep>, images: map<string, Image>) returns (found: bool)
      requires Valid()
      modifies this
      ensures Valid()
      ensures found <==> SelectImages(walk) != []
      ensures rows == old(rows) + Items(Decoded(SelectImages(walk), images), old(nextId))
      ensures filePaths == old(filePaths) + PathMap(Decoded(SelectImages(walk), images), old(nextId))
      ensures nextId == old(nextId) + |Decoded(SelectImages(walk), images)|
    {
      var imageFiles := SelectImages(walk);
      if imageFiles == [] {
        return false;
      }
      ProcessFiles(imageFiles, images);
      found := true;
    }

    /** The loop over the selected files: each file's outcome is appended in turn. */
    method ProcessFiles(files: seq<string>, images: map<string, Image>)
      requires Valid()
      modifies this
      ensures Valid()
      ensures rows == old(rows) + Items(Decoded(files, images), old(nextId))
      ensures filePaths == old(filePaths) + PathMap(Decoded(files, images), old(nextId))
      ensures nextId == old(nextId) + |Decoded(files, images)|
    {
      ghost var done: seq<Inserted> := [];
      for i := 0 to |files|
        invariant Valid()
        invariant done == Decoded(files[..i], images)
        invariant nextId == old(nextId) + |done|
        invariant rows == old(rows) + Items(done, old(nextId))
        invariant filePaths == old(filePaths) + PathMap(done, old(nextId))
      {
        DecodedStep(files, i, images);
        ghost var rows0, paths0, next := rows, filePaths, nextId;
        ghost var outcome := ProcessFile(files[i], images);
        StepState(old(rows), old(filePaths), done, outcome, old(nextId), next, rows0, paths0, rows, filePaths);
        done := done + outcome;
      }
      assert files[..|files|] == files;
    }

    /** The loop body for one file (the `try` block): open it, build its row, and
        record the row; a file that does not open or whose row cannot be built
        leaves the state as it was. */
    method ProcessFile(path: string, images: map<string, Image>) returns (ghost outcome: seq<Inserted>)
      requires Valid()
      modifies this
      ensures Valid()
      ensures outcome == Emit(path, RowFor(path, images))
      ensures |outcome| <= 1
      ensures rows == old(rows) + Items(outcome, old(nextId))
      ensures filePaths == old(filePaths) + PathMap(outcome, old(nextId))
      ensures nextId == old(nextId) + |outcome|
    {
      outcome := [];
      if path in images {
        var row := MakeRow(path, images[path]);
        if row.Some? {
          MakeRowShape(path, images[path], row.value);
          Record(path, row.value);
          outcome := [Inserted(path, row.value)];
          SingleOutcome(outcome[0], old(nextId), old(rows), old(filePaths));
        }
      }
    }

    /** One decoded file: its row goes at the end of the table and its path under
        the new row's handle. */
    method Record(path: string, values: Row)
      requires Valid()
      requires NamedBy(values, path)
      modifies this
      ensures Valid()
      ensures rows == old(rows) + [TreeItem(old(nextId), values)]
      ensures filePaths == old(filePaths)[old(nextId) := path]
      ensures nextId == old(nextId) + 1
    {
      AppendConsistent(rows, filePaths, nextId, values, path);
      var id := Insert(values);
      filePaths := filePaths[id := path];
    }

    /** A double click: the focused handle, if any, is looked up; an open request for
        its path comes back only when the handle is in the dictionary with a non-empty
        path, and then it opens the file the focused row shows. */
    method Activate(focus: Option<RowId>) returns (request: Option<string>)
      requires Valid()
      ensures request.Some? <==> focus.Some? && focus.value in filePaths && filePaths[focus.value] != ""
      ensures request.Some? ==> request.value == filePaths[focus.value]
      ensures request.Some? ==>
        exists k :: 0 <= k < |rows| && rows[k].id == focus.value && NamedBy(rows[k].values, request.value)
    {
      request := None;
      if focus.Some? {
        if focus.value in filePaths {
          var path := filePaths[focus.value];
          if path != "" {
            IdsMember(rows, focus.value);
            request := Some(path);
          }
        }
      }
    }
  }
}
