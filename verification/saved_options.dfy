/**
 * Options to preserve. The option store of a site is its `options` table
 * (rows with an `option_name` and an `option_value` column). Before the
 * copy the destination's values of the declared options are read from
 * that table; after the copy, and again after the rewrite pass, they are
 * written back into the table the copy put in its place.
 */
module SavedOptions {
  import opened Results
  import opened TableUpdate
  import opened CloneTables

  const NameColumn := "option_name"
  const ValueColumn := "option_value"

  /** The short name of the option table: `$wpdb->options` is the site prefix followed by it. */
  const OptionsTable := "options"

  /** The row stores option `n`. */
  predicate Names(row: Row, n: string)
  {
    NameColumn in row && row[NameColumn] == n
  }

  /** The stored text of an option row (SQL NULL reads as the empty text). */
  function ValueOf(row: Row): string
  {
    if ValueColumn in row then row[ValueColumn] else ""
  }

  /** The rows of table `n`, none when the table does not exist. */
  function RowsOf(db: Db, n: string): seq<Row>
  {
    if n in db then db[n].rows else []
  }

  /**
   * `get_blog_option`: the text of the first row storing `n`, or `false`
   * (here `None`) when no row does.
   */
  function ReadOption(rows: seq<Row>, n: string): (r: Option<string>)
    ensures r.None? <==> forall i :: 0 <= i < |rows| ==> !Names(rows[i], n)
    ensures r.Some? ==> exists i :: 0 <= i < |rows| && Names(rows[i], n) && r.value == ValueOf(rows[i])
    decreases |rows|
  {
    if rows == [] then None
    else if Names(rows[0], n) then Some(ValueOf(rows[0]))
    else
      var r := ReadOption(rows[1..], n);
      assert forall i :: 1 <= i < |rows| ==> rows[i] == rows[1..][i - 1];
      r
  }

  /**
   * Two tables read option `m` alike when they agree, position by
   * position, on which rows store `m` and on the text of those rows, and
   * the longer one stores no `m` beyond the shorter one.
   */
  lemma {:induction false} ReadFrame(a: seq<Row>, b: seq<Row>, m: string)
    requires |b| >= |a|
    requires forall i :: 0 <= i < |a| ==> (Names(a[i], m) <==> Names(b[i], m))
    requires forall i :: 0 <= i < |a| && Names(a[i], m) ==> ValueOf(a[i]) == ValueOf(b[i])
    requires forall i :: |a| <= i < |b| ==> !Names(b[i], m)
    ensures ReadOption(b, m) == ReadOption(a, m)
    decreases |b|
  {
    if b != [] {
      if a == [] {
        ReadFrame(a, b[1..], m);
      } else if !Names(a[0], m) {
        ReadFrame(a[1..], b[1..], m);
      }
    }
  }

  /** Every row storing `n` with its text set to `v`. */
  function SetValue(rows: seq<Row>, n: string, v: string): (r: seq<Row>)
    ensures |r| == |rows|
  {
    seq(|rows|, i requires 0 <= i < |rows| => if Names(rows[i], n) then rows[i][ValueColumn := v] else rows[i])
  }

  lemma SetValueRead(rows: seq<Row>, n: string, v: string)
    requires ReadOption(rows, n).Some?
    ensures ReadOption(SetValue(rows, n, v), n) == Some(v)
  {
    var r := SetValue(rows, n, v);
    assert forall i :: 0 <= i < |rows| ==> (Names(r[i], n) <==> Names(rows[i], n));
    var w :| 0 <= w < |rows| && Names(rows[w], n);
    assert Names(r[w], n);
  }

  lemma SetValueOther(rows: seq<Row>, n: string, v: string, m: string)
    requires m != n
    ensures ReadOption(SetValue(rows, n, v), m) == ReadOption(rows, m)
  {
    ReadFrame(rows, SetValue(rows, n, v), m);
  }

  lemma AppendOther(rows: seq<Row>, n: string, v: string, m: string)
    requires m != n
    ensures ReadOption(rows + [map[NameColumn := n, ValueColumn := v]], m) == ReadOption(rows, m)
  {
    ReadFrame(rows, rows + [map[NameColumn := n, ValueColumn := v]], m);
  }

  /**
   * `update_option($n, $v)` with a text: every row storing `n` takes the
   * text; when there is none, a row for `n` is added.
   */
  function WriteOption(rows: seq<Row>, n: string, v: string): (r: seq<Row>)
    ensures ReadOption(r, n) == Some(v)
    ensures forall m :: m != n ==> ReadOption(r, m) == ReadOption(rows, m)
    ensures |rows| <= |r| <= |rows| + 1
  {
    if ReadOption(rows, n).Some? then
      SetValueRead(rows, n, v);
      assert forall m :: m != n ==> ReadOption(SetValue(rows, n, v), m) == ReadOption(rows, m) by {
        forall m | m != n
          ensures ReadOption(SetValue(rows, n, v), m) == ReadOption(rows, m)
        {
          SetValueOther(rows, n, v, m);
        }
      }
      SetValue(rows, n, v)
    else
      var r := rows + [map[NameColumn := n, ValueColumn := v]];
      assert Names(r[|rows|], n);
      assert forall m :: m != n ==> ReadOption(r, m) == ReadOption(rows, m) by {
        forall m | m != n
          ensures ReadOption(r, m) == ReadOption(rows, m)
        {
          AppendOther(rows, n, v, m);
        }
      }
      r
  }

  /**
   * One saved option written back by `db_restore_data`: a saved text is
   * written; a saved `false` (the option did not exist) empties an option
   * that exists now and adds none.
   */
  function RestoreOne(rows: seq<Row>, n: string, saved: Option<string>): seq<Row>
  {
    match saved
    case Some(v) => WriteOption(rows, n, v)
    case None => if ReadOption(rows, n).Some? then WriteOption(rows, n, "") else rows
  }

  /** What option `n` reads after restoring `saved` over a table where it read `now`. */
  function Restored(saved: Option<string>, now: Option<string>): Option<string>
  {
    if saved.Some? then saved else if now.Some? then Some("") else None
  }

  lemma RestoreOneRead(rows: seq<Row>, n: string, saved: Option<string>, m: string)
    ensures ReadOption(RestoreOne(rows, n, saved), m)
         == if m == n then Restored(saved, ReadOption(rows, n)) else ReadOption(rows, m)
  {
  }

  /** The saved options, as the PHP array `name => value` in declaration order. */
  type Saved = seq<(string, Option<string>)>

  function SavedNames(saved: Saved): (ns: seq<string>)
    ensures |ns| == |saved| && forall k :: 0 <= k < |saved| ==> ns[k] == saved[k].0
  {
    seq(|saved|, k requires 0 <= k < |saved| => saved[k].0)
  }

  /**
   * The snapshot taken in `db_copy_tables`: with saving switched on, every
   * declared option with its text in the destination's option table as it
   * is before the copy; otherwise nothing.
   */
  function Snapshot(modSaveOptions: bool, declared: seq<string>, rows: seq<Row>): (r: Saved)
    ensures !modSaveOptions ==> r == []
    ensures modSaveOptions ==> SavedNames(r) == declared
    ensures modSaveOptions ==> forall k :: 0 <= k < |declared| ==> r[k].1 == ReadOption(rows, declared[k])
  {
    if modSaveOptions then seq(|declared|, k requires 0 <= k < |declared| => (declared[k], ReadOption(rows, declared[k])))
    else []
  }

  /** `db_restore_data` on the option table: the saved options written back in order. */
  function RestoreRows(rows: seq<Row>, saved: Saved): seq<Row>
    decreases |saved|
  {
    if saved == [] then rows else RestoreRows(RestoreOne(rows, saved[0].0, saved[0].1), saved[1..])
  }

  /** An option that is not saved reads after the restore as before it. */
  lemma {:induction false} RestoreRowsOther(rows: seq<Row>, saved: Saved, m: string)
    requires m !in SavedNames(saved)
    ensures ReadOption(RestoreRows(rows, saved), m) == ReadOption(rows, m)
    decreases |saved|
  {
    if saved != [] {
      assert SavedNames(saved[1..]) == SavedNames(saved)[1..];
      assert m != saved[0].0 by {
        assert SavedNames(saved)[0] == saved[0].0;
      }
      RestoreOneRead(rows, saved[0].0, saved[0].1, m);
      RestoreRowsOther(RestoreOne(rows, saved[0].0, saved[0].1), saved[1..], m);
    }
  }

  /**
   * With distinct names, each saved option reads after the restore as its
   * saved text, or (saved as absent) as absent or empty.
   */
  lemma {:induction false} RestoreRowsRead(rows: seq<Row>, saved: Saved, k: nat)
    requires Distinct(SavedNames(saved)) && k < |saved|
    ensures ReadOption(RestoreRows(rows, saved), saved[k].0) == Restored(saved[k].1, ReadOption(rows, saved[k].0))
    decreases |saved|
  {
    var n0 := saved[0].0;
    var rows1 := RestoreOne(rows, n0, saved[0].1);
    var rest := saved[1..];
    assert SavedNames(rest) == SavedNames(saved)[1..];
    assert Distinct(SavedNames(rest));
    if k == 0 {
      assert n0 !in SavedNames(rest) by {
        forall j | 0 <= j < |rest|
          ensures SavedNames(rest)[j] != n0
        {
          assert SavedNames(saved)[j + 1] != SavedNames(saved)[0];
        }
      }
      RestoreOneRead(rows, n0, saved[0].1, n0);
      RestoreRowsOther(rows1, rest, n0);
    } else {
      assert saved[k] == rest[k - 1];
      assert saved[k].0 != n0 by {
        assert SavedNames(saved)[k] != SavedNames(saved)[0];
      }
      RestoreOneRead(rows, n0, saved[0].1, saved[k].0);
      RestoreRowsRead(rows1, rest, k - 1);
    }
  }

  /** With saving off nothing is restored. */
  lemma RestoreRowsEmpty(rows: seq<Row>)
    ensures RestoreRows(rows, []) == rows
  {
  }

  /**
   * Restoring the same snapshot a second time reads the same: the second
   * `db_restore_data` only matters for what ran in between.
   */
  lemma RestoreRowsTwice(rows: seq<Row>, saved: Saved, m: string)
    requires Distinct(SavedNames(saved))
    ensures ReadOption(RestoreRows(RestoreRows(rows, saved), saved), m) == ReadOption(RestoreRows(rows, saved), m)
  {
    var once := RestoreRows(rows, saved);
    if m in SavedNames(saved) {
      var k :| 0 <= k < |saved| && SavedNames(saved)[k] == m;
      RestoreRowsRead(rows, saved, k);
      RestoreRowsRead(once, saved, k);
    } else {
      RestoreRowsOther(once, saved, m);
    }
  }

  /**
   * After restoring a snapshot taken with saving on over whatever table
   * the clone produced, each declared option reads its text from before
   * the clone, or, when it did not exist then, is absent or empty; every
   * other option reads as the clone left it. With saving off the table is
   * left as it is.
   */
  lemma SavedOptionsSurvive(modSaveOptions: bool, declared: seq<string>, before: seq<Row>, after: seq<Row>)
    requires Distinct(declared)
    ensures var r := RestoreRows(after, Snapshot(modSaveOptions, declared, before));
      modSaveOptions ==> forall k :: 0 <= k < |declared| ==>
        ReadOption(r, declared[k]) == Restored(ReadOption(before, declared[k]), ReadOption(after, declared[k]))
    ensures var r := RestoreRows(after, Snapshot(modSaveOptions, declared, before));
      modSaveOptions ==> forall m :: m !in declared ==> ReadOption(r, m) == ReadOption(after, m)
    ensures !modSaveOptions ==> RestoreRows(after, Snapshot(modSaveOptions, declared, before)) == after
  {
    var saved := Snapshot(modSaveOptions, declared, before);
    if modSaveOptions {
      forall k | 0 <= k < |declared|
        ensures ReadOption(RestoreRows(after, saved), declared[k])
             == Restored(ReadOption(before, declared[k]), ReadOption(after, declared[k]))
      {
        RestoreRowsRead(after, saved, k);
      }
      forall m | m !in declared
        ensures ReadOption(RestoreRows(after, saved), m) == ReadOption(after, m)
      {
        RestoreRowsOther(after, saved, m);
      }
    }
  }

  /** The table `n` after a restore of the option table `opt`. */
  function RestoredRows(n: string, opt: string, rows: seq<Row>, saved: Saved): seq<Row>
  {
    if n == opt then RestoreRows(rows, saved) else rows
  }

  /**
   * `db_restore_data` on the database: the option table `opt`, if it
   * exists, has the saved options written back; every other table, and
   * every table's columns, stay as they are. (With no option table the
   * writes fail silently.)
   */
  function RestoreDb(db: Db, opt: string, saved: Saved): (r: Db)
    ensures r.Keys == db.Keys
    ensures forall n :: n in db ==> r[n] == Table(db[n].columns, RestoredRows(n, opt, db[n].rows, saved))
  {
    if opt in db then db[opt := Table(db[opt].columns, RestoreRows(db[opt].rows, saved))] else db
  }
}
