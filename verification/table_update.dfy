/**
 * MUCD `update`: for each column, SELECT the values that contain the
 * search string, then for each selected value issue
 * `UPDATE t SET f = <rewritten> WHERE f = <selected>`. Rows are matched by
 * their old value, not by a key, so every row holding that value is
 * rewritten, and later statements see the effect of earlier ones.
 */
module TableUpdate {
  import opened Results
  import opened Strings
  import opened PhpValue
  import opened Serial
  import opened Rewrite

  /** A row: column name to stored text; a missing column is SQL NULL. */
  type Row = map<string, string>

  /** The value `try_replace` computes for one selected field. */
  function RewriteField(s: string, from: string, to: string): (r: string)
    ensures !LooksSerialized(s) ==> Str(r) == Replace(Str(s), from, to)
    ensures LooksSerialized(s) && !IsSerialized(s) ==> r == s
    ensures Inert(s, from, to) ==> r == s
  {
    InertField(s, from, to);
    TryReplace(Str(s), from, to).s
  }

  lemma InertField(s: string, from: string, to: string)
    ensures Inert(s, from, to) ==> TryReplace(Str(s), from, to) == Str(s)
  {
    if Inert(s, from, to) {
      TryReplaceStrInert(s, from, to);
    }
  }

  /** `SELECT f FROM t WHERE f LIKE '%from%'`: the matching values, in row order. */
  function SelectLike(rows: seq<Row>, f: string, from: string): (r: seq<string>)
    ensures |r| <= |rows|
    ensures forall x :: x in r ==> Contains(x, from)
    ensures forall x :: x in r ==> exists i :: 0 <= i < |rows| && f in rows[i] && rows[i][f] == x
    ensures forall i :: 0 <= i < |rows| && f in rows[i] && Contains(rows[i][f], from) ==> rows[i][f] in r
  {
    if rows == [] then []
    else
      var rest := SelectLike(rows[1..], f, from);
      assert forall x :: x in rest ==> exists i :: 0 <= i < |rows| && f in rows[i] && rows[i][f] == x by {
        forall x | x in rest
          ensures exists i :: 0 <= i < |rows| && f in rows[i] && rows[i][f] == x
        {
          var j :| 0 <= j < |rows[1..]| && f in rows[1..][j] && rows[1..][j][f] == x;
          assert rows[j + 1] == rows[1..][j];
        }
      }
      assert forall i :: 1 <= i < |rows| ==> rows[i] == rows[1..][i - 1];
      if f in rows[0] && StrPos(rows[0][f], from).Some? then [rows[0][f]] + rest else rest
  }

  /** `UPDATE t SET f = newValue WHERE f = oldValue`. */
  function UpdateWhere(rows: seq<Row>, f: string, oldValue: string, newValue: string): (r: seq<Row>)
    ensures |r| == |rows|
    ensures forall i :: 0 <= i < |rows| ==> r[i].Keys == rows[i].Keys
    ensures forall i, g :: 0 <= i < |rows| && g in rows[i] && g != f ==> r[i][g] == rows[i][g]
    ensures forall i :: 0 <= i < |rows| && f in rows[i] && rows[i][f] == oldValue ==> r[i][f] == newValue
    ensures forall i :: 0 <= i < |rows| && !(f in rows[i] && rows[i][f] == oldValue) ==> r[i] == rows[i]
  {
    seq(|rows|, i requires 0 <= i < |rows| =>
      if f in rows[i] && rows[i][f] == oldValue then rows[i][f := newValue] else rows[i])
  }

  /**
   * The value one cell holds after the statements for `olds` have run in
   * order: each statement whose old value equals the cell's current value
   * rewrites it.
   */
  function Chase(v: string, olds: seq<string>, from: string, to: string): string
    decreases |olds|
  {
    if olds == [] then v
    else Chase(if v == olds[0] then RewriteField(olds[0], from, to) else v, olds[1..], from, to)
  }

  /**
   * The UPDATE statements for the selected values `olds`, in order. Each
   * row evolves on its own: its column `f` ends as `Chase` of its old
   * value, and nothing else in the table changes.
   */
  function ApplyUpdates(rows: seq<Row>, f: string, olds: seq<string>, from: string, to: string): (r: seq<Row>)
    ensures |r| == |rows|
    ensures forall i :: 0 <= i < |rows| ==> r[i].Keys == rows[i].Keys
    ensures forall i, g :: 0 <= i < |rows| && g in rows[i] && g != f ==> r[i][g] == rows[i][g]
    ensures forall i :: 0 <= i < |rows| && f in rows[i] ==> r[i][f] == Chase(rows[i][f], olds, from, to)
    decreases |olds|
  {
    if olds == [] then rows
    else
      var next := UpdateWhere(rows, f, olds[0], RewriteField(olds[0], from, to));
      ApplyUpdates(next, f, olds[1..], from, to)
  }

  /** A value no statement selects is never rewritten. */
  lemma {:induction false} ChaseUnselected(v: string, olds: seq<string>, from: string, to: string)
    requires v !in olds
    ensures Chase(v, olds, from, to) == v
    decreases |olds|
  {
    if olds != [] {
      ChaseUnselected(v, olds[1..], from, to);
    }
  }

  /** No rewritten value is another value that is also selected. */
  ghost predicate NoChaining(olds: seq<string>, from: string, to: string)
  {
    forall a, b :: a in olds && b in olds && RewriteField(a, from, to) == b ==> a == b
  }

  lemma {:induction false} ChaseWithin(v: string, olds: seq<string>, all: seq<string>, from: string, to: string)
    requires forall o :: o in olds ==> o in all
    requires NoChaining(all, from, to)
    ensures Chase(v, olds, from, to) == if v in olds then RewriteField(v, from, to) else v
    decreases |olds|
  {
    if olds != [] {
      var o := olds[0];
      var rest := olds[1..];
      assert forall x :: x in olds <==> x == o || x in rest;
      if v == o {
        var w := RewriteField(v, from, to);
        ChaseWithin(w, rest, all, from, to);
        if w in rest {
          assert w == v;
        }
      } else {
        ChaseWithin(v, rest, all, from, to);
      }
    }
  }

  /**
   * Without chaining, every selected value is rewritten exactly once,
   * whatever the order of the statements and however often it was selected.
   */
  lemma ChaseNoChaining(v: string, olds: seq<string>, from: string, to: string)
    requires NoChaining(olds, from, to)
    ensures Chase(v, olds, from, to) == if v in olds then RewriteField(v, from, to) else v
  {
    ChaseWithin(v, olds, olds, from, to);
  }

  /** One column of the `foreach ($fields as $field)` loop. */
  function UpdateColumn(rows: seq<Row>, f: string, from: string, to: string): (r: seq<Row>)
    ensures |r| == |rows|
    ensures forall i :: 0 <= i < |rows| ==> r[i].Keys == rows[i].Keys
    ensures forall i, g :: 0 <= i < |rows| && g in rows[i] && g != f ==> r[i][g] == rows[i][g]
  {
    ApplyUpdates(rows, f, SelectLike(rows, f, from), from, to)
  }

  /**
   * What one column pass does to each row: a row whose field does not
   * contain `from` is untouched; without chaining, every other row holds
   * `try_replace` of its old value, exactly as if the rewrite had been
   * applied row by row.
   */
  lemma UpdateColumnRows(rows: seq<Row>, f: string, from: string, to: string)
    ensures var r := UpdateColumn(rows, f, from, to);
      forall i :: 0 <= i < |rows| && !(f in rows[i] && Contains(rows[i][f], from)) ==> r[i] == rows[i]
    ensures var r := UpdateColumn(rows, f, from, to);
      NoChaining(SelectLike(rows, f, from), from, to) ==>
        forall i :: 0 <= i < |rows| && f in rows[i] ==> r[i][f] == RewriteField(rows[i][f], from, to)
  {
    var olds := SelectLike(rows, f, from);
    var r := UpdateColumn(rows, f, from, to);
    forall i | 0 <= i < |rows| && !(f in rows[i] && Contains(rows[i][f], from))
      ensures r[i] == rows[i]
    {
      if f in rows[i] {
        assert rows[i][f] !in olds;
        ChaseUnselected(rows[i][f], olds, from, to);
      }
    }
    if NoChaining(olds, from, to) {
      forall i | 0 <= i < |rows| && f in rows[i]
        ensures r[i][f] == RewriteField(rows[i][f], from, to)
      {
        ChaseNoChaining(rows[i][f], olds, from, to);
        if rows[i][f] !in olds {
          assert !Contains(rows[i][f], from);
        }
      }
    }
  }

  /**
   * MUCD `update`: one column pass per field, in order. Rows are never
   * inserted or removed, no column is added or dropped, and columns outside
   * `fields` keep their values.
   */
  function Update(rows: seq<Row>, fields: seq<string>, from: string, to: string): (r: seq<Row>)
    ensures |r| == |rows|
    ensures forall i :: 0 <= i < |rows| ==> r[i].Keys == rows[i].Keys
    ensures forall i, g :: 0 <= i < |rows| && g in rows[i] && g !in fields ==> r[i][g] == rows[i][g]
    decreases |fields|
  {
    if fields == [] then rows
    else
      assert forall g :: g !in fields ==> g != fields[0] && g !in fields[1..];
      Update(UpdateColumn(rows, fields[0], from, to), fields[1..], from, to)
  }

  /** No listed field of the row contains `from`. */
  ghost predicate Unmatched(row: Row, fields: seq<string>, from: string)
  {
    forall g :: g in fields && g in row ==> !Contains(row[g], from)
  }

  /** A row in which no listed field contains `from` comes out of `update` untouched. */
  lemma {:induction false} UpdateUnmatchedRows(rows: seq<Row>, fields: seq<string>, from: string, to: string)
    ensures forall i :: 0 <= i < |rows| && Unmatched(rows[i], fields, from) ==>
              Update(rows, fields, from, to)[i] == rows[i]
    decreases |fields|
  {
    if fields != [] {
      var next := UpdateColumn(rows, fields[0], from, to);
      UpdateColumnRows(rows, fields[0], from, to);
      UpdateUnmatchedRows(next, fields[1..], from, to);
      forall i | 0 <= i < |rows| && Unmatched(rows[i], fields, from)
        ensures Update(rows, fields, from, to)[i] == rows[i]
      {
        assert next[i] == rows[i];
        assert Unmatched(next[i], fields[1..], from);
      }
    }
  }

  /** One column pass with a pair whose two strings are equal changes nothing. */
  lemma UpdateColumnSamePair(rows: seq<Row>, f: string, s: string)
    ensures UpdateColumn(rows, f, s, s) == rows
  {
    var olds := SelectLike(rows, f, s);
    var next := UpdateColumn(rows, f, s, s);
    assert NoChaining(olds, s, s) by {
      forall a | a in olds
        ensures RewriteField(a, s, s) == a
      {
      }
    }
    forall i | 0 <= i < |rows|
      ensures next[i] == rows[i]
    {
      if f in rows[i] {
        ChaseNoChaining(rows[i][f], olds, s, s);
      }
    }
  }

  /** A pair whose search string equals its replacement leaves the table as it is. */
  lemma {:induction false} UpdateSamePair(rows: seq<Row>, fields: seq<string>, s: string)
    ensures Update(rows, fields, s, s) == rows
    decreases |fields|
  {
    if fields != [] {
      UpdateColumnSamePair(rows, fields[0], s);
      UpdateSamePair(rows, fields[1..], s);
    }
  }

  /** Column names as SHOW COLUMNS lists them: no name twice. */
  predicate DistinctFields(fields: seq<string>)
  {
    forall i, j :: 0 <= i < j < |fields| ==> fields[i] != fields[j]
  }

  /** Two tables of the same length that hold the same values in column `f`. */
  ghost predicate AgreeOn(a: seq<Row>, b: seq<Row>, f: string)
  {
    && |a| == |b|
    && (forall i :: 0 <= i < |a| ==> (f in a[i] <==> f in b[i]))
    && (forall i :: 0 <= i < |a| && f in a[i] ==> a[i][f] == b[i][f])
  }

  /** The SELECT of a column reads only that column. */
  lemma {:induction false} SelectLikeAgree(a: seq<Row>, b: seq<Row>, f: string, from: string)
    requires AgreeOn(a, b, f)
    ensures SelectLike(a, f, from) == SelectLike(b, f, from)
    decreases |a|
  {
    if a != [] {
      assert AgreeOn(a[1..], b[1..], f) by {
        assert forall i :: 0 <= i < |a| - 1 ==> a[1..][i] == a[i + 1] && b[1..][i] == b[i + 1];
      }
      SelectLikeAgree(a[1..], b[1..], f, from);
    }
  }

  /** A column pass on `f` computes column `f` from column `f` alone. */
  lemma UpdateColumnAgree(a: seq<Row>, b: seq<Row>, f: string, from: string, to: string)
    requires AgreeOn(a, b, f)
    ensures AgreeOn(UpdateColumn(a, f, from, to), UpdateColumn(b, f, from, to), f)
  {
    SelectLikeAgree(a, b, f, from);
  }

  /** A column pass on another column leaves column `f` as it is. */
  lemma UpdateColumnOther(rows: seq<Row>, g: string, f: string, from: string, to: string)
    requires g != f
    ensures AgreeOn(UpdateColumn(rows, g, from, to), rows, f)
  {
  }

  /** `update` over fields that do not include `f` leaves column `f` as it is. */
  lemma {:induction false} UpdateAgreeAbsent(rows: seq<Row>, fields: seq<string>, f: string, from: string, to: string)
    requires f !in fields
    ensures AgreeOn(Update(rows, fields, from, to), rows, f)
    decreases |fields|
  {
    if fields != [] {
      var next := UpdateColumn(rows, fields[0], from, to);
      UpdateColumnOther(rows, fields[0], f, from, to);
      UpdateAgreeAbsent(next, fields[1..], f, from, to);
    }
  }

  /** `update` over distinct fields that include `f` does to column `f` what its own pass does. */
  lemma {:induction false} UpdateAgreeOnce(rows: seq<Row>, fields: seq<string>, f: string, from: string, to: string)
    requires f in fields && DistinctFields(fields)
    ensures AgreeOn(Update(rows, fields, from, to), UpdateColumn(rows, f, from, to), f)
    decreases |fields|
  {
    var g := fields[0];
    var rest := fields[1..];
    var next := UpdateColumn(rows, g, from, to);
    assert DistinctFields(rest) by {
      assert forall i :: 0 <= i < |rest| ==> rest[i] == fields[i + 1];
    }
    if g == f {
      assert f !in rest by {
        assert forall i :: 0 <= i < |rest| ==> rest[i] == fields[i + 1];
      }
      UpdateAgreeAbsent(next, rest, f, from, to);
    } else {
      assert f in rest;
      UpdateAgreeOnce(next, rest, f, from, to);
      UpdateColumnOther(rows, g, f, from, to);
      UpdateColumnAgree(next, rows, f, from, to);
    }
  }

  /**
   * What `update` does to each listed column of each row: a field holding
   * no `from` keeps its value; without chaining in that column, the field
   * ends as `try_replace` of its old value, as if the table had been
   * rewritten row by row.
   */
  lemma UpdateRewritesField(rows: seq<Row>, fields: seq<string>, from: string, to: string, i: int, f: string)
    requires DistinctFields(fields) && 0 <= i < |rows| && f in fields && f in rows[i]
    ensures !Contains(rows[i][f], from) ==> Update(rows, fields, from, to)[i][f] == rows[i][f]
    ensures NoChaining(SelectLike(rows, f, from), from, to) ==>
              Update(rows, fields, from, to)[i][f] == RewriteField(rows[i][f], from, to)
  {
    var c := UpdateColumn(rows, f, from, to);
    UpdateAgreeOnce(rows, fields, f, from, to);
    assert Update(rows, fields, from, to)[i][f] == c[i][f];
    UpdateColumnRows(rows, f, from, to);
  }

  /** An occurrence ends with the last character of the needle. */
  lemma OccursLast(s: string, f: string, i: int)
    requires f != [] && OccursAt(s, f, i)
    ensures s[i + |f| - 1] == f[|f| - 1]
  {
    assert s[i..i + |f|][|f| - 1] == s[i + |f| - 1];
  }

  /** The rewrite of one URL-bearing field of the example below. */
  lemma ExampleField()
    ensures RewriteField("http://a/x", "http://a", "http://b") == "http://b/x"
  {
    assert !IsSerialized("http://a/x") by {
      assert Parse("http://a/x").None?;
    }
    assert !Contains("http://a/x", "http://b") by {
      forall i | OccursAt("http://a/x", "http://b", i)
        ensures false
      {
        OccursLast("http://a/x", "http://b", i);
      }
    }
    assert StrReplace("http://a/x", "http://a", "http://b") == "http://b/x" by {
      assert "http://a/x"[..8] == "http://a";
      assert "http://a/x"[8..] == "/x";
      assert StrReplace("/x", "http://a", "http://b") == "/x";
    }
  }

  /**
   * A one-row table whose `guid` carries the source URL: `update` gives
   * it the destination URL.
   */
  lemma UpdateExample()
    ensures Update([map["guid" := "http://a/x"]], ["guid"], "http://a", "http://b") == [map["guid" := "http://b/x"]]
  {
    var rows := [map["guid" := "http://a/x"]];
    ExampleField();
    var olds := SelectLike(rows, "guid", "http://a");
    assert NoChaining(olds, "http://a", "http://b") by {
      forall a, b | a in olds && b in olds
        ensures a == b
      {
        assert a == "http://a/x" && b == "http://a/x";
      }
    }
    UpdateRewritesField(rows, ["guid"], "http://a", "http://b", 0, "guid");
    OneRow(Update(rows, ["guid"], "http://a", "http://b"), rows, "guid", "http://b/x");
  }

  /** A one-row table with a single column is determined by that column's value. */
  lemma OneRow(r: seq<Row>, rows: seq<Row>, f: string, v: string)
    requires |rows| == 1 && rows[0].Keys == {f}
    requires |r| == 1 && r[0].Keys == rows[0].Keys && r[0][f] == v
    ensures r == [map[f := v]]
  {
    assert r[0] == map[f := v];
  }

  /** Why `update` stops on PHP 8: `try_replace` is an instance method called as `self::try_replace`. */
  datatype UpdateFailure = NonStaticCall

  /**
   * `update` as written, run by PHP 8: the first selected value reaches
   * `self::try_replace`, a non-static method called statically, which
   * throws; no UPDATE has run by then. Only a table in which no listed
   * field matches comes through.
   */
  function UpdateOnPhp8(rows: seq<Row>, fields: seq<string>, from: string, to: string): (r: Result<seq<Row>, UpdateFailure>)
    ensures r.Ok? ==> r.value == rows
    ensures r.Err? <==> exists i, f :: 0 <= i < |rows| && f in fields && f in rows[i] && Contains(rows[i][f], from)
    decreases |fields|
  {
    if fields == [] then Ok(rows)
    else if SelectLike(rows, fields[0], from) != [] then
      var x := SelectLike(rows, fields[0], from)[0];
      assert x in SelectLike(rows, fields[0], from);
      var i :| 0 <= i < |rows| && fields[0] in rows[i] && rows[i][fields[0]] == x;
      assert fields[0] in fields && Contains(rows[i][fields[0]], from);
      Err(NonStaticCall)
    else
      assert forall f :: f in fields <==> f == fields[0] || f in fields[1..];
      assert forall i :: 0 <= i < |rows| && fields[0] in rows[i] ==> !Contains(rows[i][fields[0]], from);
      UpdateOnPhp8(rows, fields[1..], from, to)
  }

  /**
   * The discrepancy on the one-row table of `UpdateExample`: PHP 8 stops
   * where the intended `update` rewrites the URL.
   */
  lemma UpdateOnPhp8Example()
    ensures UpdateOnPhp8([map["guid" := "http://a/x"]], ["guid"], "http://a", "http://b").Err?
    ensures Update([map["guid" := "http://a/x"]], ["guid"], "http://a", "http://b") != [map["guid" := "http://a/x"]]
  {
    assert OccursAt("http://a/x", "http://a", 0);
    UpdateExample();
  }
}
