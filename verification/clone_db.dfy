/**
 * The sequencing of `copy_data`: snapshot the preserved options, copy the
 * tables, restore the options, build the replacement pairs, run `update`
 * over every copied table and pair in order, and restore the options again.
 */
module CloneDb {
  import opened Results
  import opened PhpValue
  import opened TableUpdate
  import opened CloneTables
  import opened SavedOptions

  /** The replacement pairs as an ordered PHP array: search string to replacement. */
  type Pairs = seq<(string, string)>

  function PairKeys(ps: Pairs): (ks: seq<string>)
    ensures |ks| == |ps| && forall i :: 0 <= i < |ps| ==> ks[i] == ps[i].0
  {
    seq(|ps|, i requires 0 <= i < |ps| => ps[i].0)
  }

  predicate DistinctKeys(ps: Pairs)
  {
    forall i, j :: 0 <= i < j < |ps| ==> ps[i].0 != ps[j].0
  }

  /**
   * `$pairs[$k] = $v`: an existing key keeps its position and takes the
   * new value; a new key is appended.
   */
  function Put(ps: Pairs, k: string, v: string): (r: Pairs)
    ensures k in PairKeys(ps) ==> |r| == |ps|
    ensures k !in PairKeys(ps) ==> r == ps + [(k, v)]
    ensures forall i :: 0 <= i < |ps| ==> r[i].0 == ps[i].0 && (ps[i].0 != k ==> r[i] == ps[i])
    ensures forall i :: 0 <= i < |r| && r[i].0 == k ==> r[i].1 == v
    ensures DistinctKeys(ps) ==> DistinctKeys(r)
  {
    if k in PairKeys(ps) then
      seq(|ps|, i requires 0 <= i < |ps| => if ps[i].0 == k then (k, v) else ps[i])
    else ps + [(k, v)]
  }

  /** `$pairs[$k]`: the value of the first pair with key `k`, or nothing. */
  function Lookup(ps: Pairs, k: string): (r: Option<string>)
    ensures r.None? <==> k !in PairKeys(ps)
    ensures r.Some? ==> exists i :: 0 <= i < |ps| && ps[i] == (k, r.value)
    decreases |ps|
  {
    if ps == [] then None
    else if ps[0].0 == k then Some(ps[0].1)
    else
      assert forall x :: x in PairKeys(ps) <==> x == ps[0].0 || x in PairKeys(ps[1..]);
      var r := Lookup(ps[1..], k);
      assert r.Some? ==> exists i :: 1 <= i < |ps| && ps[i] == (k, r.value) by {
        if r.Some? {
          var i :| 0 <= i < |ps[1..]| && ps[1..][i] == (k, r.value);
          assert ps[i + 1] == ps[1..][i];
        }
      }
      r
  }

  /** After `$pairs[$k] = $v`, key `k` reads `v` and every other key reads as before. */
  lemma LookupPut(ps: Pairs, k: string, v: string, m: string)
    ensures Lookup(Put(ps, k, v), m) == if m == k then Some(v) else Lookup(ps, m)
  {
    var r := Put(ps, k, v);
    if m == k {
      if k in PairKeys(ps) {
        var i :| 0 <= i < |ps| && PairKeys(ps)[i] == k;
        assert r[i].0 == k;
      } else {
        assert r[|ps|].0 == k;
      }
      assert k in PairKeys(r);
      LookupFirst(r, k);
    } else {
      LookupFrame(ps, r, m);
    }
  }

  /** The lookup finds a pair carrying the key whose value it returns, at the first such index. */
  lemma {:induction false} LookupFirst(ps: Pairs, k: string)
    requires k in PairKeys(ps)
    ensures exists i :: 0 <= i < |ps| && ps[i].0 == k && Lookup(ps, k) == Some(ps[i].1)
                        && forall j :: 0 <= j < i ==> ps[j].0 != k
    decreases |ps|
  {
    if ps[0].0 != k {
      assert forall x :: x in PairKeys(ps) <==> x == ps[0].0 || x in PairKeys(ps[1..]);
      LookupFirst(ps[1..], k);
      var i :| 0 <= i < |ps[1..]| && ps[1..][i].0 == k && Lookup(ps[1..], k) == Some(ps[1..][i].1)
               && forall j :: 0 <= j < i ==> ps[1..][j].0 != k;
      assert ps[i + 1] == ps[1..][i];
      forall j | 0 <= j < i + 1
        ensures ps[j].0 != k
      {
        if j > 0 {
          assert ps[j] == ps[1..][j - 1];
        }
      }
    }
  }

  /** Two pair lists that agree on every pair with key `m` at the same positions look `m` up alike. */
  lemma {:induction false} LookupFrame(ps: Pairs, qs: Pairs, m: string)
    requires |qs| >= |ps|
    requires forall i :: 0 <= i < |ps| ==> qs[i].0 == ps[i].0 && (ps[i].0 == m ==> qs[i] == ps[i])
    requires forall i :: |ps| <= i < |qs| ==> qs[i].0 != m
    ensures Lookup(qs, m) == Lookup(ps, m)
    decreases |qs|
  {
    if qs != [] {
      if ps == [] {
        assert qs[0].0 != m;
        LookupFrame(ps, qs[1..], m);
      } else if ps[0].0 != m {
        LookupFrame(ps[1..], qs[1..], m);
      }
    }
  }

  lemma PairKeysCons(ps: Pairs)
    requires ps != []
    ensures PairKeys(ps) == [ps[0].0] + PairKeys(ps[1..])
  {
  }

  /** The position of the last pair with key `k`. */
  function LastIndex(extra: Pairs, k: string): (i: nat)
    requires k in PairKeys(extra)
    ensures i < |extra| && extra[i].0 == k
    ensures forall j :: i < j < |extra| ==> extra[j].0 != k
    decreases |extra|
  {
    var rest := extra[1..];
    PairKeysCons(extra);
    if k in PairKeys(rest) then
      var i := LastIndex(rest, k);
      forall j | i + 1 < j < |extra|
        ensures extra[j].0 != k
      {
        assert extra[j] == rest[j - 1];
      }
      1 + i
    else
      forall j | 0 < j < |extra|
        ensures extra[j].0 != k
      {
        assert extra[j].0 == PairKeys(rest)[j - 1];
      }
      0
  }

  /** The value of the last pair with key `k`: the one a run of assignments leaves behind. */
  function LastAssigned(extra: Pairs, k: string): (v: string)
    requires k in PairKeys(extra)
    ensures exists i :: 0 <= i < |extra| && extra[i] == (k, v) && forall j :: i < j < |extra| ==> extra[j].0 != k
  {
    var i := LastIndex(extra, k);
    assert extra[i] == (k, extra[i].1);
    extra[i].1
  }

  /** The keys of `ks` not yet in `seen`, each once, in the order of first appearance. */
  function FreshKeys(ks: seq<string>, seen: seq<string>): seq<string>
    decreases |ks|
  {
    if ks == [] then []
    else if ks[0] in seen then FreshKeys(ks[1..], seen)
    else [ks[0]] + FreshKeys(ks[1..], seen + [ks[0]])
  }

  /**
   * The pairs a hook adds, assigned one after the other: each key of
   * `extra` ends with the value of its last assignment, every other key
   * keeps its value, the existing keys keep their places, and the new keys
   * follow in the order they were first assigned.
   */
  function PutAll(ps: Pairs, extra: Pairs): (r: Pairs)
    ensures |r| >= |ps|
    ensures forall i :: 0 <= i < |ps| ==> r[i].0 == ps[i].0
    ensures forall i :: 0 <= i < |ps| && ps[i].0 !in PairKeys(extra) ==> r[i] == ps[i]
    ensures forall k :: k in PairKeys(extra) ==> Lookup(r, k) == Some(LastAssigned(extra, k))
    ensures forall k :: k !in PairKeys(extra) ==> Lookup(r, k) == Lookup(ps, k)
    ensures PairKeys(r) == PairKeys(ps) + FreshKeys(PairKeys(extra), PairKeys(ps))
    ensures DistinctKeys(ps) ==> DistinctKeys(r)
    decreases |extra|
  {
    if extra == [] then ps
    else
      var k := extra[0].0;
      var next := Put(ps, k, extra[0].1);
      var rest := extra[1..];
      PairKeysCons(extra);
      var r := PutAll(next, rest);
      PutAllStep(ps, extra, r);
      PutAllKeysStep(ps, extra, r);
      r
  }

  /** The lookups through the step of `PutAll`, given those of the rest. */
  lemma PutAllStep(ps: Pairs, extra: Pairs, r: Pairs)
    requires extra != []
    requires forall k :: k in PairKeys(extra[1..]) ==> Lookup(r, k) == Some(LastAssigned(extra[1..], k))
    requires forall k :: k !in PairKeys(extra[1..]) ==> Lookup(r, k) == Lookup(Put(ps, extra[0].0, extra[0].1), k)
    ensures forall k :: k in PairKeys(extra) ==> Lookup(r, k) == Some(LastAssigned(extra, k))
    ensures forall k :: k !in PairKeys(extra) ==> Lookup(r, k) == Lookup(ps, k)
  {
    var k := extra[0].0;
    var v := extra[0].1;
    var rest := extra[1..];
    forall m
      ensures m in PairKeys(extra) ==> Lookup(r, m) == Some(LastAssigned(extra, m))
      ensures m !in PairKeys(extra) ==> Lookup(r, m) == Lookup(ps, m)
    {
      PutAllLookupAt(ps, extra, r, m);
    }
  }

  /** The key order through the step of `PutAll`. */
  lemma PutAllKeysStep(ps: Pairs, extra: Pairs, r: Pairs)
    requires extra != []
    requires PairKeys(r) == PairKeys(Put(ps, extra[0].0, extra[0].1))
                            + FreshKeys(PairKeys(extra[1..]), PairKeys(Put(ps, extra[0].0, extra[0].1)))
    ensures PairKeys(r) == PairKeys(ps) + FreshKeys(PairKeys(extra), PairKeys(ps))
  {
    var k := extra[0].0;
    var seen := PairKeys(Put(ps, k, extra[0].1));
    var tail := FreshKeys(PairKeys(extra[1..]), seen);
    PutKeys(ps, k, extra[0].1, tail);
    FreshKeysStep(ps, extra);
  }

  /** One key's value through the step of `PutAll`. */
  lemma PutAllLookupAt(ps: Pairs, extra: Pairs, r: Pairs, m: string)
    requires extra != []
    requires m in PairKeys(extra[1..]) ==> Lookup(r, m) == Some(LastAssigned(extra[1..], m))
    requires m !in PairKeys(extra[1..]) ==> Lookup(r, m) == Lookup(Put(ps, extra[0].0, extra[0].1), m)
    ensures m in PairKeys(extra) ==> Lookup(r, m) == Some(LastAssigned(extra, m))
    ensures m !in PairKeys(extra) ==> Lookup(r, m) == Lookup(ps, m)
  {
    var rest := extra[1..];
    PairKeysCons(extra);
    if m in PairKeys(rest) {
      assert extra[1 + LastIndex(rest, m)] == rest[LastIndex(rest, m)];
    }
    LookupPut(ps, extra[0].0, extra[0].1, m);
  }

  /** Unfolding the new keys of an assignment run at its first assignment. */
  lemma FreshKeysStep(ps: Pairs, extra: Pairs)
    requires extra != []
    ensures var k := extra[0].0;
      FreshKeys(PairKeys(extra), PairKeys(ps))
      == if k in PairKeys(ps) then FreshKeys(PairKeys(extra[1..]), PairKeys(ps))
         else [k] + FreshKeys(PairKeys(extra[1..]), PairKeys(ps) + [k])
  {
    assert PairKeys(extra)[1..] == PairKeys(extra[1..]);
  }

  /** How one assignment extends the key order, followed by any further keys. */
  lemma PutKeys(ps: Pairs, k: string, v: string, tail: seq<string>)
    ensures k in PairKeys(ps) ==> PairKeys(Put(ps, k, v)) == PairKeys(ps)
    ensures k !in PairKeys(ps) ==> PairKeys(Put(ps, k, v)) == PairKeys(ps) + [k]
    ensures k in PairKeys(ps) ==> PairKeys(Put(ps, k, v)) + tail == PairKeys(ps) + tail
    ensures k !in PairKeys(ps) ==> PairKeys(Put(ps, k, v)) + tail == PairKeys(ps) + ([k] + tail)
  {
    var next := Put(ps, k, v);
    if k in PairKeys(ps) {
      assert PairKeys(next) == PairKeys(ps);
    } else {
      assert PairKeys(next) == PairKeys(ps) + [k];
    }
  }

  /**
   * The `$string_to_replace` array of `db_update_data`: upload URL, then
   * blog URL, then table prefix, then whatever the `mucd_string_to_replace`
   * hook assigns.
   */
  function BuildPairs(fromUpload: string, toUpload: string, fromBlog: string, toBlog: string,
                      fromPrefix: string, toPrefix: string, extra: Pairs): Pairs
  {
    PutAll(Put(Put(Put([], fromUpload, toUpload), fromBlog, toBlog), fromPrefix, toPrefix), extra)
  }

  /**
   * The pairs have distinct search strings; with three distinct built-in
   * search strings, the first three pairs are the upload URL, the blog URL
   * and the prefix, in that order, with their own replacements unless the
   * hook reassigned them.
   */
  lemma BuildPairsOrder(fromUpload: string, toUpload: string, fromBlog: string, toBlog: string,
                        fromPrefix: string, toPrefix: string, extra: Pairs)
    ensures DistinctKeys(BuildPairs(fromUpload, toUpload, fromBlog, toBlog, fromPrefix, toPrefix, extra))
    ensures var r := BuildPairs(fromUpload, toUpload, fromBlog, toBlog, fromPrefix, toPrefix, extra);
      fromUpload != fromBlog && fromUpload != fromPrefix && fromBlog != fromPrefix ==>
        && |r| >= 3
        && r[0].0 == fromUpload && r[1].0 == fromBlog && r[2].0 == fromPrefix
        && (fromUpload !in PairKeys(extra) ==> r[0].1 == toUpload)
        && (fromBlog !in PairKeys(extra) ==> r[1].1 == toBlog)
        && (fromPrefix !in PairKeys(extra) ==> r[2].1 == toPrefix)
  {
    var p1 := Put([], fromUpload, toUpload);
    var p2 := Put(p1, fromBlog, toBlog);
    var p3 := Put(p2, fromPrefix, toPrefix);
    if fromUpload != fromBlog && fromUpload != fromPrefix && fromBlog != fromPrefix {
      assert p1 == [(fromUpload, toUpload)];
      assert p2 == [(fromUpload, toUpload), (fromBlog, toBlog)];
      assert p3 == [(fromUpload, toUpload), (fromBlog, toBlog), (fromPrefix, toPrefix)];
    }
  }

  /**
   * SHOW COLUMNS for every recorded table (lines 141-148): each short name
   * with the column list of its destination table; a missing destination
   * table is an SQL error.
   */
  function ColumnLists(db: Db, toPrefix: string, shorts: seq<string>): (r: Result<seq<(string, seq<string>)>, CloneError>)
    ensures r.Ok? <==> forall s :: s in shorts ==> toPrefix + s in db
    ensures r.Ok? ==> |r.value| == |shorts|
    ensures r.Ok? ==> forall k :: 0 <= k < |shorts| ==> r.value[k] == (shorts[k], db[toPrefix + shorts[k]].columns)
    decreases |shorts|
  {
    if shorts == [] then Ok([])
    else
      var name := toPrefix + shorts[0];
      assert forall s :: s in shorts <==> s == shorts[0] || s in shorts[1..];
      if name !in db then Err(MissingTable(name))
      else
        match ColumnLists(db, toPrefix, shorts[1..])
        case Err(e) => Err(e)
        case Ok(rest) => Ok([(shorts[0], db[name].columns)] + rest)
  }

  /** One call `update(table, fields, from, to)`. */
  datatype UpdateCall = UpdateCall(table: string, fields: seq<string>, from: string, to: string)

  function CallsFor(name: string, fields: seq<string>, pairs: Pairs): (r: seq<UpdateCall>)
    ensures |r| == |pairs|
    ensures forall j :: 0 <= j < |pairs| ==> r[j] == UpdateCall(name, fields, pairs[j].0, pairs[j].1)
  {
    seq(|pairs|, j requires 0 <= j < |pairs| => UpdateCall(name, fields, pairs[j].0, pairs[j].1))
  }

  /** The calls of the nested loops of `db_update_data`, in the order they are made. */
  function Schedule(toPrefix: string, tables: seq<(string, seq<string>)>, pairs: Pairs): seq<UpdateCall>
    decreases |tables|
  {
    if tables == [] then []
    else CallsFor(toPrefix + tables[0].0, tables[0].1, pairs) + Schedule(toPrefix, tables[1..], pairs)
  }

  /** Every scheduled call targets a recorded table under the destination prefix, with its columns. */
  lemma {:induction false} ScheduleTargets(toPrefix: string, tables: seq<(string, seq<string>)>, pairs: Pairs)
    ensures forall c :: c in Schedule(toPrefix, tables, pairs) ==>
              exists i :: 0 <= i < |tables| && c.table == toPrefix + tables[i].0 && c.fields == tables[i].1
    decreases |tables|
  {
    if tables != [] {
      var head := CallsFor(toPrefix + tables[0].0, tables[0].1, pairs);
      var rest := Schedule(toPrefix, tables[1..], pairs);
      ScheduleTargets(toPrefix, tables[1..], pairs);
      forall c | c in Schedule(toPrefix, tables, pairs)
        ensures exists i :: 0 <= i < |tables| && c.table == toPrefix + tables[i].0 && c.fields == tables[i].1
      {
        if c in head {
          var j :| 0 <= j < |head| && head[j] == c;
          assert c.table == toPrefix + tables[0].0 && c.fields == tables[0].1;
        } else {
          assert c in rest;
          var i :| 0 <= i < |tables[1..]| && c.table == toPrefix + tables[1..][i].0 && c.fields == tables[1..][i].1;
          assert tables[1..][i] == tables[i + 1];
        }
      }
    }
  }

  lemma MulSucc(a: int, n: int)
    ensures (a + 1) * n == a * n + n
  {
  }

  lemma MulMono(a: int, b: int, n: int)
    requires 0 <= a <= b && 0 <= n
    ensures 0 <= a * n <= b * n
  {
  }

  /** Index arithmetic for a row-major walk of `m` rows of `n` entries. */
  lemma RowMajorStep(i: int, j: int, n: int, m: int)
    requires 0 < i < m && 0 <= j < n
    ensures i * n + j == n + ((i - 1) * n + j)
    ensures 0 <= (i - 1) * n + j < (m - 1) * n
  {
    MulSucc(i - 1, n);
    MulMono(i - 1, m - 2, n);
    MulSucc(m - 2, n);
  }

  /** One call per table and pair. */
  lemma {:induction false} ScheduleLength(toPrefix: string, tables: seq<(string, seq<string>)>, pairs: Pairs)
    ensures |Schedule(toPrefix, tables, pairs)| == |tables| * |pairs|
    decreases |tables|
  {
    if tables != [] {
      ScheduleLength(toPrefix, tables[1..], pairs);
      MulSucc(|tables| - 1, |pairs|);
    }
  }

  /**
   * Tables in order, and within each table the pairs in order: call number
   * `i * |pairs| + j` is table `i` with pair `j`.
   */
  lemma {:induction false} ScheduleAt(toPrefix: string, tables: seq<(string, seq<string>)>, pairs: Pairs, i: nat, j: nat)
    requires i < |tables| && j < |pairs|
    ensures i * |pairs| + j < |Schedule(toPrefix, tables, pairs)|
    ensures Schedule(toPrefix, tables, pairs)[i * |pairs| + j]
        == UpdateCall(toPrefix + tables[i].0, tables[i].1, pairs[j].0, pairs[j].1)
    decreases i
  {
    ScheduleLength(toPrefix, tables, pairs);
    var n := |pairs|;
    var s := Schedule(toPrefix, tables, pairs);
    var rest := Schedule(toPrefix, tables[1..], pairs);
    assert s == CallsFor(toPrefix + tables[0].0, tables[0].1, pairs) + rest;
    if i == 0 {
      MulMono(0, |tables| - 1, n);
      assert s[j] == CallsFor(toPrefix + tables[0].0, tables[0].1, pairs)[j];
    } else {
      RowMajorStep(i, j, n, |tables|);
      ScheduleAt(toPrefix, tables[1..], pairs, i - 1, j);
      assert s[i * n + j] == rest[(i - 1) * n + j];
      assert tables[1..][i - 1] == tables[i];
    }
  }

  /** The rows of table `n` once the calls that name it have run, in order. */
  function UpdatesOn(rows: seq<Row>, calls: seq<UpdateCall>, n: string): seq<Row>
    decreases |calls|
  {
    if calls == [] then rows
    else
      var c := calls[0];
      UpdatesOn(if c.table == n then Update(rows, c.fields, c.from, c.to) else rows, calls[1..], n)
  }

  /**
   * Runs the calls one after the other. A call on a missing table is an
   * SQL error that stops the run. Each table ends as the calls that name
   * it leave it, in order, with its columns and row count kept; a table no
   * call names is untouched.
   */
  function RunCalls(db: Db, calls: seq<UpdateCall>): (r: Result<Db, CloneError>)
    ensures (forall c :: c in calls ==> c.table in db) ==> r.Ok?
    ensures r.Ok? ==> r.value.Keys == db.Keys
    ensures r.Ok? ==> forall n :: n in db ==>
              r.value[n].columns == db[n].columns && r.value[n].rows == UpdatesOn(db[n].rows, calls, n)
    ensures r.Ok? ==> forall n :: n in db ==> |r.value[n].rows| == |db[n].rows|
    ensures r.Ok? ==> forall n :: n in db && (forall c :: c in calls ==> c.table != n) ==> r.value[n] == db[n]
    decreases |calls|
  {
    if calls == [] then Ok(db)
    else
      var c := calls[0];
      assert forall x :: x in calls <==> x == c || x in calls[1..];
      if c.table !in db then Err(MissingTable(c.table))
      else
        var t := db[c.table];
        RunCalls(db[c.table := Table(t.columns, Update(t.rows, c.fields, c.from, c.to))], calls[1..])
  }

  /** The inner loop of `db_update_data` on one table: `update` with every pair, in order. */
  function PassPairs(rows: seq<Row>, fields: seq<string>, pairs: Pairs): (r: seq<Row>)
    ensures |r| == |rows|
    ensures forall i :: 0 <= i < |rows| ==> r[i].Keys == rows[i].Keys
    decreases |pairs|
  {
    if pairs == [] then rows else PassPairs(Update(rows, fields, pairs[0].0, pairs[0].1), fields, pairs[1..])
  }

  /**
   * A row in which no listed field contains the `from` of any pair comes
   * out of the whole pass as it went in.
   */
  lemma {:induction false} PassPairsUnmatched(rows: seq<Row>, fields: seq<string>, pairs: Pairs, i: int)
    requires 0 <= i < |rows|
    requires forall k :: 0 <= k < |pairs| ==> Unmatched(rows[i], fields, pairs[k].0)
    ensures PassPairs(rows, fields, pairs)[i] == rows[i]
    decreases |pairs|
  {
    if pairs != [] {
      var next := Update(rows, fields, pairs[0].0, pairs[0].1);
      UpdateUnmatchedRows(rows, fields, pairs[0].0, pairs[0].1);
      assert next[i] == rows[i];
      assert forall k :: 0 <= k < |pairs[1..]| ==> pairs[1..][k] == pairs[k + 1];
      PassPairsUnmatched(next, fields, pairs[1..], i);
    }
  }

  lemma {:induction false} UpdatesOnAppend(rows: seq<Row>, a: seq<UpdateCall>, b: seq<UpdateCall>, n: string)
    ensures UpdatesOn(rows, a + b, n) == UpdatesOn(UpdatesOn(rows, a, n), b, n)
    decreases |a|
  {
    if a == [] {
      assert a + b == b;
    } else {
      var c := a[0];
      assert (a + b)[0] == c;
      assert (a + b)[1..] == a[1..] + b;
      UpdatesOnAppend(if c.table == n then Update(rows, c.fields, c.from, c.to) else rows, a[1..], b, n);
    }
  }

  /** The calls for one table run every pair on it and leave the other tables alone. */
  lemma {:induction false} UpdatesOnCallsFor(rows: seq<Row>, name: string, fields: seq<string>, pairs: Pairs, n: string)
    ensures UpdatesOn(rows, CallsFor(name, fields, pairs), n) == if n == name then PassPairs(rows, fields, pairs) else rows
    decreases |pairs|
  {
    if pairs != [] {
      var cs := CallsFor(name, fields, pairs);
      assert cs[1..] == CallsFor(name, fields, pairs[1..]);
      UpdatesOnCallsFor(if n == name then Update(rows, fields, pairs[0].0, pairs[0].1) else rows,
                        name, fields, pairs[1..], n);
    }
  }

  /** A table the schedule never names keeps its rows. */
  lemma {:induction false} UpdatesOnScheduleUnnamed(rows: seq<Row>, toPrefix: string, tables: seq<(string, seq<string>)>,
                                                    pairs: Pairs, n: string)
    requires forall i :: 0 <= i < |tables| ==> toPrefix + tables[i].0 != n
    ensures UpdatesOn(rows, Schedule(toPrefix, tables, pairs), n) == rows
    decreases |tables|
  {
    if tables != [] {
      var head := CallsFor(toPrefix + tables[0].0, tables[0].1, pairs);
      UpdatesOnAppend(rows, head, Schedule(toPrefix, tables[1..], pairs), n);
      UpdatesOnCallsFor(rows, toPrefix + tables[0].0, tables[0].1, pairs, n);
      assert forall i :: 0 <= i < |tables| - 1 ==> tables[1..][i] == tables[i + 1];
      UpdatesOnScheduleUnnamed(rows, toPrefix, tables[1..], pairs, n);
    }
  }

  /** The table of entry `k`, named by no other entry, receives every pair in order, and nothing else. */
  lemma {:induction false} UpdatesOnScheduleNamed(rows: seq<Row>, toPrefix: string, tables: seq<(string, seq<string>)>,
                                                  pairs: Pairs, k: nat)
    requires k < |tables|
    requires forall i :: 0 <= i < |tables| && i != k ==> toPrefix + tables[i].0 != toPrefix + tables[k].0
    ensures UpdatesOn(rows, Schedule(toPrefix, tables, pairs), toPrefix + tables[k].0)
         == PassPairs(rows, tables[k].1, pairs)
    decreases |tables|
  {
    var n := toPrefix + tables[k].0;
    var head := CallsFor(toPrefix + tables[0].0, tables[0].1, pairs);
    var rest := tables[1..];
    UpdatesOnAppend(rows, head, Schedule(toPrefix, rest, pairs), n);
    UpdatesOnCallsFor(rows, toPrefix + tables[0].0, tables[0].1, pairs, n);
    assert forall i :: 0 <= i < |rest| ==> rest[i] == tables[i + 1];
    if k == 0 {
      UpdatesOnScheduleUnnamed(PassPairs(rows, tables[0].1, pairs), toPrefix, rest, pairs, n);
    } else {
      assert rest[k - 1] == tables[k];
      UpdatesOnScheduleNamed(rows, toPrefix, rest, pairs, k - 1);
    }
  }

  /** The pass of `db_update_data` over the recorded tables. */
  function UpdateData(db: Db, toPrefix: string, newTables: seq<string>, pairs: Pairs): Result<Db, CloneError>
  {
    match ColumnLists(db, toPrefix, newTables)
    case Err(e) => Err(e)
    case Ok(tables) => RunCalls(db, Schedule(toPrefix, tables, pairs))
  }

  /**
   * When every recorded table exists under the destination prefix, the
   * pass succeeds, keeps every table's columns and row count, and touches
   * no table outside the recorded ones.
   */
  lemma UpdateDataSpec(db: Db, toPrefix: string, newTables: seq<string>, pairs: Pairs, touched: set<string>)
    requires forall s :: s in newTables ==> toPrefix + s in db && toPrefix + s in touched
    ensures var r := UpdateData(db, toPrefix, newTables, pairs);
      && r.Ok?
      && r.value.Keys == db.Keys
      && (forall n :: n in db ==> r.value[n].columns == db[n].columns && |r.value[n].rows| == |db[n].rows|)
      && (forall n :: n in db && n !in touched ==> r.value[n] == db[n])
  {
    var cols := ColumnLists(db, toPrefix, newTables);
    var calls := Schedule(toPrefix, cols.value, pairs);
    ScheduleTargets(toPrefix, cols.value, pairs);
    forall c | c in calls
      ensures c.table in db && c.table in touched
    {
      var i :| 0 <= i < |cols.value| && c.table == toPrefix + cols.value[i].0 && c.fields == cols.value[i].1;
      assert cols.value[i].0 == newTables[i];
    }
  }

  /** Distinct short names give distinct table names under one prefix. */
  lemma PrefixedDistinct(p: string, a: string, b: string)
    requires a != b
    ensures p + a != p + b
  {
    assert (p + a)[|p|..] == a && (p + b)[|p|..] == b;
  }

  /**
   * The data the pass leaves in a recorded table: its rows with every
   * replacement pair applied by `update` over all of its columns, pair
   * after pair.
   */
  lemma UpdateDataRows(db: Db, toPrefix: string, newTables: seq<string>, pairs: Pairs, k: nat)
    requires forall s :: s in newTables ==> toPrefix + s in db
    requires Distinct(newTables) && k < |newTables|
    ensures var r := UpdateData(db, toPrefix, newTables, pairs);
      var name := toPrefix + newTables[k];
      r.Ok? && r.value[name] == Table(db[name].columns, PassPairs(db[name].rows, db[name].columns, pairs))
  {
    UpdateDataSpec(db, toPrefix, newTables, pairs, db.Keys);
    var cols := ColumnLists(db, toPrefix, newTables).value;
    var name := toPrefix + newTables[k];
    forall i | 0 <= i < |cols| && i != k
      ensures toPrefix + cols[i].0 != toPrefix + cols[k].0
    {
      PrefixedDistinct(toPrefix, newTables[i], newTables[k]);
    }
    UpdatesOnScheduleNamed(db[name].rows, toPrefix, cols, pairs, k);
  }

  /** What `copy_data` needs to know about one site. */
  datatype Site = Site(prefix: string, isPrimary: bool, uploadUrl: string, blogUrl: string)

  /** The destination's option table, `$wpdb->options` while switched to it. */
  function OptionTable(to: Site): string
  {
    to.prefix + OptionsTable
  }

  /** The replacement pairs of a clone from `from` to `to`, with the hook's additions. */
  function ClonePairs(from: Site, to: Site, extra: Pairs): Pairs
  {
    BuildPairs(from.uploadUrl, to.uploadUrl, from.blogUrl, to.blogUrl, from.prefix, to.prefix, extra)
  }

  /**
   * The outcome of `db_copy_tables`: the database after the copy and the
   * restore, the recorded short names, and the snapshot of preserved
   * options it returns.
   */
  datatype Copied = Copied(db: Db, newTables: seq<string>, saved: Saved)

  /** `db_copy_tables`: snapshot, copy every source table, restore the snapshot. */
  function DbCopyTables(db: Db, from: Site, to: Site, primaryDefaults: seq<string>, schemaTables: seq<string>,
                        modSaveOptions: bool, declared: seq<string>): Result<Copied, CloneError>
  {
    var opt := OptionTable(to);
    var saved := Snapshot(modSaveOptions, declared, RowsOf(db, opt));
    match CopyTables(db, SourceTables(from.isPrimary, from.prefix, primaryDefaults, schemaTables),
                     from.prefix, to.prefix, [])
    case Err(e) => Err(e)
    case Ok((db1, newTables)) => Ok(Copied(RestoreDb(db1, opt, saved), newTables, saved))
  }

  /** `db_update_data`: build the pairs, run the update pass, restore the saved options again. */
  function DbUpdateData(c: Copied, from: Site, to: Site, extra: Pairs): Result<Db, CloneError>
  {
    match UpdateData(c.db, to.prefix, c.newTables, ClonePairs(from, to, extra))
    case Err(e) => Err(e)
    case Ok(db2) => Ok(RestoreDb(db2, OptionTable(to), c.saved))
  }

  /** `copy_data`: the copy, then the update. */
  function CopyData(db: Db, from: Site, to: Site, primaryDefaults: seq<string>, schemaTables: seq<string>,
                    modSaveOptions: bool, declared: seq<string>, extra: Pairs): Result<Db, CloneError>
  {
    match DbCopyTables(db, from, to, primaryDefaults, schemaTables, modSaveOptions, declared)
    case Err(e) => Err(e)
    case Ok(c) => DbUpdateData(c, from, to, extra)
  }

  /**
   * `db_copy_tables` succeeds exactly when every source table exists. It
   * then adds one destination table per source, equal to it, leaves every
   * other table as it was, except that the snapshot of preserved options,
   * read from the destination's option table before the copy, is written
   * back into the option table; and it records the short names in order.
   */
  lemma DbCopyTablesSpec(db: Db, from: Site, to: Site, primaryDefaults: seq<string>, schemaTables: seq<string>,
                         modSaveOptions: bool, declared: seq<string>)
    requires WellFormedSources(SourceTables(from.isPrimary, from.prefix, primaryDefaults, schemaTables),
                               from.prefix, to.prefix)
    ensures var sources := SourceTables(from.isPrimary, from.prefix, primaryDefaults, schemaTables);
      var r := DbCopyTables(db, from, to, primaryDefaults, schemaTables, modSaveOptions, declared);
      r.Ok? <==> forall t :: t in sources ==> t in db
    ensures var sources := SourceTables(from.isPrimary, from.prefix, primaryDefaults, schemaTables);
      var r := DbCopyTables(db, from, to, primaryDefaults, schemaTables, modSaveOptions, declared);
      var opt := OptionTable(to);
      r.Ok? ==>
        && r.value.saved == Snapshot(modSaveOptions, declared, RowsOf(db, opt))
        && r.value.db.Keys == db.Keys + Dests(sources, from.prefix, to.prefix)
        && (forall t :: t in sources ==>
              var d := DestName(t, from.prefix, to.prefix);
              r.value.db[d] == Table(db[t].columns, RestoredRows(d, opt, db[t].rows, r.value.saved)))
        && (forall n :: n in db && n !in Dests(sources, from.prefix, to.prefix) ==>
              r.value.db[n] == Table(db[n].columns, RestoredRows(n, opt, db[n].rows, r.value.saved)))
        && r.value.newTables == Shorts(sources, from.prefix)
  {
    var sources := SourceTables(from.isPrimary, from.prefix, primaryDefaults, schemaTables);
    CopyTablesSpec(db, sources, from.prefix, to.prefix);
    var r := DbCopyTables(db, from, to, primaryDefaults, schemaTables, modSaveOptions, declared);
    if r.Ok? {
      var d1 := CopyTables(db, sources, from.prefix, to.prefix, []).value.0;
      forall t | t in sources
        ensures DestName(t, from.prefix, to.prefix) in d1
      {
        assert DestName(t, from.prefix, to.prefix) in Dests(sources, from.prefix, to.prefix);
      }
    }
  }

  /**
   * When every recorded table exists under the destination prefix,
   * `db_update_data` succeeds, keeps every table's columns, keeps the row
   * count of every table but the option table, and leaves every table
   * outside the recorded ones as it was, except for the second restore of
   * the option table.
   */
  lemma DbUpdateDataSpec(c: Copied, from: Site, to: Site, extra: Pairs, touched: set<string>)
    requires forall s :: s in c.newTables ==> to.prefix + s in c.db && to.prefix + s in touched
    ensures var r := DbUpdateData(c, from, to, extra);
      && r.Ok?
      && r.value.Keys == c.db.Keys
      && (forall n :: n in c.db ==> r.value[n].columns == c.db[n].columns)
      && (forall n :: n in c.db && n != OptionTable(to) ==> |r.value[n].rows| == |c.db[n].rows|)
      && (forall n :: n in c.db && n !in touched ==>
            r.value[n] == Table(c.db[n].columns, RestoredRows(n, OptionTable(to), c.db[n].rows, c.saved)))
  {
    UpdateDataSpec(c.db, to.prefix, c.newTables, ClonePairs(from, to, extra), touched);
  }

  /**
   * The data `db_update_data` leaves in recorded table `k`: its rows
   * through every replacement pair, then, for the option table, the
   * preserved options written back.
   */
  lemma DbUpdateDataRows(c: Copied, from: Site, to: Site, extra: Pairs, k: nat)
    requires forall s :: s in c.newTables ==> to.prefix + s in c.db
    requires Distinct(c.newTables) && k < |c.newTables|
    ensures var r := DbUpdateData(c, from, to, extra);
      var name := to.prefix + c.newTables[k];
      && r.Ok?
      && r.value[name] == Table(c.db[name].columns,
                                RestoredRows(name, OptionTable(to),
                                             PassPairs(c.db[name].rows, c.db[name].columns, ClonePairs(from, to, extra)),
                                             c.saved))
  {
    UpdateDataRows(c.db, to.prefix, c.newTables, ClonePairs(from, to, extra), k);
  }

  /** The recorded short names name exactly destination tables that the copy created. */
  lemma RecordedDests(db1: Db, sources: seq<string>, fromPrefix: string, toPrefix: string)
    requires forall t :: t in sources ==> DestName(t, fromPrefix, toPrefix) in db1
    ensures forall s :: s in Shorts(sources, fromPrefix) ==>
              toPrefix + s in db1 && toPrefix + s in Dests(sources, fromPrefix, toPrefix)
  {
    forall s | s in Shorts(sources, fromPrefix)
      ensures toPrefix + s in db1 && toPrefix + s in Dests(sources, fromPrefix, toPrefix)
    {
      var k :| 0 <= k < |sources| && Shorts(sources, fromPrefix)[k] == s;
      assert toPrefix + s == DestName(sources[k], fromPrefix, toPrefix);
    }
  }

  /** Well-formed sources have distinct short names. */
  lemma ShortsDistinct(sources: seq<string>, fromPrefix: string, toPrefix: string)
    requires WellFormedSources(sources, fromPrefix, toPrefix)
    ensures Distinct(Shorts(sources, fromPrefix))
  {
    var ss := Shorts(sources, fromPrefix);
    forall i, j | 0 <= i < j < |ss|
      ensures ss[i] != ss[j]
    {
      if ss[i] == ss[j] {
        assert DestName(sources[i], fromPrefix, toPrefix) == DestName(sources[j], fromPrefix, toPrefix);
        DestNameInjective(sources[i], sources[j], fromPrefix, toPrefix);
      }
    }
  }

  /** The facts about a successful copy that the end-to-end lemmas use. */
  lemma CopyStage(db: Db, from: Site, to: Site, primaryDefaults: seq<string>, schemaTables: seq<string>,
                  modSaveOptions: bool, declared: seq<string>)
    requires WellFormedSources(SourceTables(from.isPrimary, from.prefix, primaryDefaults, schemaTables),
                               from.prefix, to.prefix)
    requires DbCopyTables(db, from, to, primaryDefaults, schemaTables, modSaveOptions, declared).Ok?
    ensures var sources := SourceTables(from.isPrimary, from.prefix, primaryDefaults, schemaTables);
      var c := DbCopyTables(db, from, to, primaryDefaults, schemaTables, modSaveOptions, declared).value;
      && (forall s :: s in c.newTables ==>
            to.prefix + s in c.db && to.prefix + s in Dests(sources, from.prefix, to.prefix))
      && Distinct(c.newTables)
      && |c.newTables| == |sources|
      && (forall k :: 0 <= k < |sources| ==> to.prefix + c.newTables[k] == DestName(sources[k], from.prefix, to.prefix))
  {
    var sources := SourceTables(from.isPrimary, from.prefix, primaryDefaults, schemaTables);
    var c := DbCopyTables(db, from, to, primaryDefaults, schemaTables, modSaveOptions, declared).value;
    DbCopyTablesSpec(db, from, to, primaryDefaults, schemaTables, modSaveOptions, declared);
    forall t | t in sources
      ensures DestName(t, from.prefix, to.prefix) in c.db
    {
      assert DestName(t, from.prefix, to.prefix) in Dests(sources, from.prefix, to.prefix);
    }
    RecordedDests(c.db, sources, from.prefix, to.prefix);
    ShortsDistinct(sources, from.prefix, to.prefix);
  }

  /**
   * A clone succeeds exactly when every source table exists. It then
   * yields one destination table per source table, with the source's
   * columns and the source's rows put through every replacement pair in
   * order (the option table also has the preserved options written back
   * before and after that pass), and leaves every other table as it was
   * (the source site's included), apart from the two restores of the
   * option table.
   */
  lemma CopyDataTables(db: Db, from: Site, to: Site, primaryDefaults: seq<string>, schemaTables: seq<string>,
                       modSaveOptions: bool, declared: seq<string>, extra: Pairs)
    requires WellFormedSources(SourceTables(from.isPrimary, from.prefix, primaryDefaults, schemaTables),
                               from.prefix, to.prefix)
    ensures var sources := SourceTables(from.isPrimary, from.prefix, primaryDefaults, schemaTables);
      var r := CopyData(db, from, to, primaryDefaults, schemaTables, modSaveOptions, declared, extra);
      r.Ok? <==> forall t :: t in sources ==> t in db
    ensures var sources := SourceTables(from.isPrimary, from.prefix, primaryDefaults, schemaTables);
      var r := CopyData(db, from, to, primaryDefaults, schemaTables, modSaveOptions, declared, extra);
      var opt := OptionTable(to);
      var saved := Snapshot(modSaveOptions, declared, RowsOf(db, opt));
      r.Ok? ==>
        && r.value.Keys == db.Keys + Dests(sources, from.prefix, to.prefix)
        && (forall t :: t in sources ==>
              var d := DestName(t, from.prefix, to.prefix);
              r.value[d] == Table(db[t].columns,
                                  RestoredRows(d, opt,
                                               PassPairs(RestoredRows(d, opt, db[t].rows, saved), db[t].columns,
                                                         ClonePairs(from, to, extra)),
                                               saved)))
        && (forall n :: n in db && n !in Dests(sources, from.prefix, to.prefix) ==>
              r.value[n] == Table(db[n].columns, RestoredRows(n, opt, RestoredRows(n, opt, db[n].rows, saved), saved)))
  {
    var sources := SourceTables(from.isPrimary, from.prefix, primaryDefaults, schemaTables);
    DbCopyTablesSpec(db, from, to, primaryDefaults, schemaTables, modSaveOptions, declared);
    var r := CopyData(db, from, to, primaryDefaults, schemaTables, modSaveOptions, declared, extra);
    CopyDataKeys(db, from, to, primaryDefaults, schemaTables, modSaveOptions, declared, extra);
    if r.Ok? {
      forall t | t in sources
        ensures var d := DestName(t, from.prefix, to.prefix);
          r.value[d] == Table(db[t].columns,
                              RestoredRows(d, OptionTable(to),
                                           PassPairs(RestoredRows(d, OptionTable(to), db[t].rows,
                                                                  Snapshot(modSaveOptions, declared, RowsOf(db, OptionTable(to)))),
                                                     db[t].columns, ClonePairs(from, to, extra)),
                                           Snapshot(modSaveOptions, declared, RowsOf(db, OptionTable(to)))))
      {
        CopyDataDest(db, from, to, primaryDefaults, schemaTables, modSaveOptions, declared, extra, t);
      }
      forall n | n in db && n !in Dests(sources, from.prefix, to.prefix)
        ensures r.value[n] == Table(db[n].columns,
                                    RestoredRows(n, OptionTable(to),
                                                 RestoredRows(n, OptionTable(to), db[n].rows,
                                                              Snapshot(modSaveOptions, declared, RowsOf(db, OptionTable(to)))),
                                                 Snapshot(modSaveOptions, declared, RowsOf(db, OptionTable(to)))))
      {
        CopyDataOther(db, from, to, primaryDefaults, schemaTables, modSaveOptions, declared, extra, n);
      }
    }
  }

  /** A clone whose copy succeeds succeeds, and holds the old tables and the destination tables. */
  lemma CopyDataKeys(db: Db, from: Site, to: Site, primaryDefaults: seq<string>, schemaTables: seq<string>,
                     modSaveOptions: bool, declared: seq<string>, extra: Pairs)
    requires WellFormedSources(SourceTables(from.isPrimary, from.prefix, primaryDefaults, schemaTables),
                               from.prefix, to.prefix)
    ensures var sources := SourceTables(from.isPrimary, from.prefix, primaryDefaults, schemaTables);
      var r := CopyData(db, from, to, primaryDefaults, schemaTables, modSaveOptions, declared, extra);
      r.Ok? ==> r.value.Keys == db.Keys + Dests(sources, from.prefix, to.prefix)
    ensures DbCopyTables(db, from, to, primaryDefaults, schemaTables, modSaveOptions, declared).Ok?
        ==> CopyData(db, from, to, primaryDefaults, schemaTables, modSaveOptions, declared, extra).Ok?
  {
    var copy := DbCopyTables(db, from, to, primaryDefaults, schemaTables, modSaveOptions, declared);
    DbCopyTablesSpec(db, from, to, primaryDefaults, schemaTables, modSaveOptions, declared);
    if copy.Ok? {
      var sources := SourceTables(from.isPrimary, from.prefix, primaryDefaults, schemaTables);
      CopyStage(db, from, to, primaryDefaults, schemaTables, modSaveOptions, declared);
      DbUpdateDataSpec(copy.value, from, to, extra, Dests(sources, from.prefix, to.prefix));
    }
  }

  /** The destination table of source `t` after a successful clone. */
  lemma CopyDataDest(db: Db, from: Site, to: Site, primaryDefaults: seq<string>, schemaTables: seq<string>,
                     modSaveOptions: bool, declared: seq<string>, extra: Pairs, t: string)
    requires WellFormedSources(SourceTables(from.isPrimary, from.prefix, primaryDefaults, schemaTables),
                               from.prefix, to.prefix)
    requires t in SourceTables(from.isPrimary, from.prefix, primaryDefaults, schemaTables)
    requires CopyData(db, from, to, primaryDefaults, schemaTables, modSaveOptions, declared, extra).Ok?
    ensures var r := CopyData(db, from, to, primaryDefaults, schemaTables, modSaveOptions, declared, extra).value;
      var d := DestName(t, from.prefix, to.prefix);
      var opt := OptionTable(to);
      var saved := Snapshot(modSaveOptions, declared, RowsOf(db, opt));
      && t in db && d in r
      && r[d] == Table(db[t].columns,
                       RestoredRows(d, opt, PassPairs(RestoredRows(d, opt, db[t].rows, saved), db[t].columns,
                                                      ClonePairs(from, to, extra)), saved))
  {
    var sources := SourceTables(from.isPrimary, from.prefix, primaryDefaults, schemaTables);
    DbCopyTablesSpec(db, from, to, primaryDefaults, schemaTables, modSaveOptions, declared);
    var c := DbCopyTables(db, from, to, primaryDefaults, schemaTables, modSaveOptions, declared).value;
    CopyStage(db, from, to, primaryDefaults, schemaTables, modSaveOptions, declared);
    var k :| 0 <= k < |sources| && sources[k] == t;
    DbUpdateDataRows(c, from, to, extra, k);
  }

  /** A table that is not a destination after a successful clone. */
  lemma CopyDataOther(db: Db, from: Site, to: Site, primaryDefaults: seq<string>, schemaTables: seq<string>,
                      modSaveOptions: bool, declared: seq<string>, extra: Pairs, n: string)
    requires WellFormedSources(SourceTables(from.isPrimary, from.prefix, primaryDefaults, schemaTables),
                               from.prefix, to.prefix)
    requires n in db && n !in Dests(SourceTables(from.isPrimary, from.prefix, primaryDefaults, schemaTables),
                                    from.prefix, to.prefix)
    requires CopyData(db, from, to, primaryDefaults, schemaTables, modSaveOptions, declared, extra).Ok?
    ensures var r := CopyData(db, from, to, primaryDefaults, schemaTables, modSaveOptions, declared, extra).value;
      var opt := OptionTable(to);
      var saved := Snapshot(modSaveOptions, declared, RowsOf(db, opt));
      n in r && r[n] == Table(db[n].columns, RestoredRows(n, opt, RestoredRows(n, opt, db[n].rows, saved), saved))
  {
    var sources := SourceTables(from.isPrimary, from.prefix, primaryDefaults, schemaTables);
    DbCopyTablesSpec(db, from, to, primaryDefaults, schemaTables, modSaveOptions, declared);
    var c := DbCopyTables(db, from, to, primaryDefaults, schemaTables, modSaveOptions, declared).value;
    CopyStage(db, from, to, primaryDefaults, schemaTables, modSaveOptions, declared);
    DbUpdateDataSpec(c, from, to, extra, Dests(sources, from.prefix, to.prefix));
  }

  /**
   * After a successful clone each preserved option that existed before
   * the clone reads its text from before the clone, and one that did not
   * exist is absent or empty, whatever the copy and the rewrite pass did
   * to the option table in between.
   */
  lemma CopyDataOptions(db: Db, from: Site, to: Site, primaryDefaults: seq<string>, schemaTables: seq<string>,
                        modSaveOptions: bool, declared: seq<string>, extra: Pairs)
    requires Distinct(declared)
    ensures var r := CopyData(db, from, to, primaryDefaults, schemaTables, modSaveOptions, declared, extra);
      var opt := OptionTable(to);
      r.Ok? && modSaveOptions ==> forall k :: 0 <= k < |declared| && ReadOption(RowsOf(db, opt), declared[k]).Some? ==>
        ReadOption(RowsOf(r.value, opt), declared[k]) == ReadOption(RowsOf(db, opt), declared[k])
    ensures var r := CopyData(db, from, to, primaryDefaults, schemaTables, modSaveOptions, declared, extra);
      var opt := OptionTable(to);
      r.Ok? && modSaveOptions ==> forall k :: 0 <= k < |declared| && ReadOption(RowsOf(db, opt), declared[k]).None? ==>
        ReadOption(RowsOf(r.value, opt), declared[k]) == None || ReadOption(RowsOf(r.value, opt), declared[k]) == Some("")
  {
    var opt := OptionTable(to);
    var r := CopyData(db, from, to, primaryDefaults, schemaTables, modSaveOptions, declared, extra);
    if r.Ok? && modSaveOptions {
      var sources := SourceTables(from.isPrimary, from.prefix, primaryDefaults, schemaTables);
      var c := DbCopyTables(db, from, to, primaryDefaults, schemaTables, modSaveOptions, declared).value;
      var db1 := CopyTables(db, sources, from.prefix, to.prefix, []).value.0;
      var db2 := UpdateData(c.db, to.prefix, c.newTables, ClonePairs(from, to, extra)).value;
      CopyTablesGrows(db, sources, from.prefix, to.prefix, []);
      UpdateDataKeys(c.db, to.prefix, c.newTables, ClonePairs(from, to, extra));
      assert r.value == RestoreDb(db2, opt, c.saved);
      forall k | 0 <= k < |declared|
        ensures var before := ReadOption(RowsOf(db, opt), declared[k]);
          var after := ReadOption(RowsOf(r.value, opt), declared[k]);
          (before.Some? ==> after == before) && (before.None? ==> after == None || after == Some(""))
      {
        if opt in db2 {
          RestoreRowsRead(db2[opt].rows, c.saved, k);
        }
      }
    }
  }

  /** The copy loop never removes a table. */
  lemma {:induction false} CopyTablesGrows(db: Db, sources: seq<string>, fromPrefix: string, toPrefix: string,
                                           acc: seq<string>)
    ensures var r := CopyTables(db, sources, fromPrefix, toPrefix, acc);
      r.Ok? ==> db.Keys <= r.value.0.Keys
    decreases |sources|
  {
    if sources != [] {
      var t := sources[0];
      var d := toPrefix + ShortName(t, |fromPrefix|);
      var one := CopyOne(db, t, d);
      if one.Ok? {
        CopyTablesGrows(one.value, sources[1..], fromPrefix, toPrefix, AddKey(acc, ShortName(t, |fromPrefix|)));
      }
    }
  }

  /** A successful pass keeps the set of tables. */
  lemma UpdateDataKeys(db: Db, toPrefix: string, newTables: seq<string>, pairs: Pairs)
    ensures var r := UpdateData(db, toPrefix, newTables, pairs);
      r.Ok? ==> r.value.Keys == db.Keys
  {
  }

  /**
   * With preservation off a clone is a copy followed by the rewrite:
   * every destination table, the option table included, holds its
   * source's rows put through every pair, and every other table is as it
   * was.
   */
  lemma CopyDataUnpreserved(db: Db, from: Site, to: Site, primaryDefaults: seq<string>, schemaTables: seq<string>,
                            declared: seq<string>, extra: Pairs)
    requires WellFormedSources(SourceTables(from.isPrimary, from.prefix, primaryDefaults, schemaTables),
                               from.prefix, to.prefix)
    ensures var sources := SourceTables(from.isPrimary, from.prefix, primaryDefaults, schemaTables);
      var r := CopyData(db, from, to, primaryDefaults, schemaTables, false, declared, extra);
      r.Ok? <==> forall t :: t in sources ==> t in db
    ensures var sources := SourceTables(from.isPrimary, from.prefix, primaryDefaults, schemaTables);
      var r := CopyData(db, from, to, primaryDefaults, schemaTables, false, declared, extra);
      r.Ok? ==>
        && r.value.Keys == db.Keys + Dests(sources, from.prefix, to.prefix)
        && (forall t :: t in sources ==>
              r.value[DestName(t, from.prefix, to.prefix)]
              == Table(db[t].columns, PassPairs(db[t].rows, db[t].columns, ClonePairs(from, to, extra))))
        && (forall n :: n in db && n !in Dests(sources, from.prefix, to.prefix) ==> r.value[n] == db[n])
  {
    var sources := SourceTables(from.isPrimary, from.prefix, primaryDefaults, schemaTables);
    DbCopyTablesSpec(db, from, to, primaryDefaults, schemaTables, false, declared);
    var r := CopyData(db, from, to, primaryDefaults, schemaTables, false, declared, extra);
    CopyDataKeys(db, from, to, primaryDefaults, schemaTables, false, declared, extra);
    if r.Ok? {
      forall t | t in sources
        ensures r.value[DestName(t, from.prefix, to.prefix)]
             == Table(db[t].columns, PassPairs(db[t].rows, db[t].columns, ClonePairs(from, to, extra)))
      {
        UnpreservedDest(db, from, to, primaryDefaults, schemaTables, declared, extra, t);
      }
      forall n | n in db && n !in Dests(sources, from.prefix, to.prefix)
        ensures r.value[n] == db[n]
      {
        UnpreservedOther(db, from, to, primaryDefaults, schemaTables, declared, extra, n);
      }
    }
  }

  lemma UnpreservedDest(db: Db, from: Site, to: Site, primaryDefaults: seq<string>, schemaTables: seq<string>,
                        declared: seq<string>, extra: Pairs, t: string)
    requires WellFormedSources(SourceTables(from.isPrimary, from.prefix, primaryDefaults, schemaTables),
                               from.prefix, to.prefix)
    requires t in SourceTables(from.isPrimary, from.prefix, primaryDefaults, schemaTables)
    requires CopyData(db, from, to, primaryDefaults, schemaTables, false, declared, extra).Ok?
    ensures var r := CopyData(db, from, to, primaryDefaults, schemaTables, false, declared, extra).value;
      t in db && DestName(t, from.prefix, to.prefix) in r
      && r[DestName(t, from.prefix, to.prefix)]
         == Table(db[t].columns, PassPairs(db[t].rows, db[t].columns, ClonePairs(from, to, extra)))
  {
    var opt := OptionTable(to);
    var saved := Snapshot(false, declared, RowsOf(db, opt));
    assert saved == [];
    CopyDataDest(db, from, to, primaryDefaults, schemaTables, false, declared, extra, t);
    var pairs := ClonePairs(from, to, extra);
    RestoreRowsEmpty(db[t].rows);
    RestoreRowsEmpty(PassPairs(db[t].rows, db[t].columns, pairs));
  }

  lemma UnpreservedOther(db: Db, from: Site, to: Site, primaryDefaults: seq<string>, schemaTables: seq<string>,
                         declared: seq<string>, extra: Pairs, n: string)
    requires WellFormedSources(SourceTables(from.isPrimary, from.prefix, primaryDefaults, schemaTables),
                               from.prefix, to.prefix)
    requires n in db && n !in Dests(SourceTables(from.isPrimary, from.prefix, primaryDefaults, schemaTables),
                                    from.prefix, to.prefix)
    requires CopyData(db, from, to, primaryDefaults, schemaTables, false, declared, extra).Ok?
    ensures var r := CopyData(db, from, to, primaryDefaults, schemaTables, false, declared, extra).value;
      n in r && r[n] == db[n]
  {
    var opt := OptionTable(to);
    var saved := Snapshot(false, declared, RowsOf(db, opt));
    assert saved == [];
    CopyDataOther(db, from, to, primaryDefaults, schemaTables, false, declared, extra, n);
    RestoreRowsEmpty(db[n].rows);
  }
}
