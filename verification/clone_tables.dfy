/**
 * The table copy of `db_copy_tables`: which source tables are copied,
 * what each destination table is called, the drop/create/insert sequence
 * as its effect on the database, and the `new_tables` list it records.
 */
module CloneTables {
  import opened Results
  import opened TableUpdate

  /** A table: its column names (as SHOW COLUMNS lists them) and its rows. */
  datatype Table = Table(columns: seq<string>, rows: seq<Row>)

  /** The database schema: table name to table. */
  type Db = map<string, Table>

  /** A statement failed; the source then logs it, removes the new site and stops. */
  datatype CloneError = MissingTable(name: string)

  predicate StartsWith(s: string, p: string)
  {
    |p| <= |s| && s[..|p|] == p
  }

  predicate Distinct(xs: seq<string>)
  {
    forall i, j :: 0 <= i < j < |xs| ==> xs[i] != xs[j]
  }

  /** PHP 8 `substr($table, $n)`: the text after the first `n` characters, "" when there is none. */
  function ShortName(table: string, n: nat): (r: string)
    ensures n <= |table| ==> table == table[..n] + r
    ensures n > |table| ==> r == ""
  {
    if n <= |table| then table[n..] else ""
  }

  /** The destination table of `table`: the destination prefix followed by its short name. */
  function DestName(table: string, fromPrefix: string, toPrefix: string): string
  {
    toPrefix + ShortName(table, |fromPrefix|)
  }

  /** Stripping the destination prefix from a destination name gives back the short name. */
  lemma DestNameShort(table: string, fromPrefix: string, toPrefix: string)
    requires StartsWith(table, fromPrefix)
    ensures StartsWith(DestName(table, fromPrefix, toPrefix), toPrefix)
    ensures ShortName(DestName(table, fromPrefix, toPrefix), |toPrefix|) == ShortName(table, |fromPrefix|)
    ensures table == fromPrefix + ShortName(table, |fromPrefix|)
  {
    var d := DestName(table, fromPrefix, toPrefix);
    assert d[..|toPrefix|] == toPrefix;
  }

  /** Tables sharing a prefix have distinct destinations exactly when they are distinct. */
  lemma DestNameInjective(t: string, u: string, fromPrefix: string, toPrefix: string)
    requires StartsWith(t, fromPrefix) && StartsWith(u, fromPrefix)
    requires DestName(t, fromPrefix, toPrefix) == DestName(u, fromPrefix, toPrefix)
    ensures t == u
  {
    DestNameShort(t, fromPrefix, toPrefix);
    DestNameShort(u, fromPrefix, toPrefix);
  }

  /**
   * `get_primary_tables`: the configured table names, in order, each with
   * the source prefix in front.
   */
  function PrimaryTables(prefix: string, defaults: seq<string>): (r: seq<string>)
    ensures |r| == |defaults|
    ensures forall k :: 0 <= k < |r| ==>
              StartsWith(r[k], prefix) && ShortName(r[k], |prefix|) == defaults[k]
  {
    seq(|defaults|, k requires 0 <= k < |defaults| =>
      assert (prefix + defaults[k])[..|prefix|] == prefix;
      prefix + defaults[k])
  }

  /** The listed tables whose name starts with `prefix` (`LIKE 'prefix%'`), in listing order. */
  function WithPrefix(listing: seq<string>, prefix: string): (r: seq<string>)
    ensures forall t :: t in r <==> t in listing && StartsWith(t, prefix)
    ensures |r| <= |listing|
  {
    if listing == [] then []
    else
      var rest := WithPrefix(listing[1..], prefix);
      assert forall t :: t in listing <==> t == listing[0] || t in listing[1..];
      if StartsWith(listing[0], prefix) then [listing[0]] + rest else rest
  }

  /**
   * The tables to copy: for the primary site the configured list, for any
   * other site every table of the schema listing that carries its prefix.
   */
  function SourceTables(fromIsPrimary: bool, fromPrefix: string, primaryDefaults: seq<string>,
                        schemaTables: seq<string>): (r: seq<string>)
    ensures forall t :: t in r ==> StartsWith(t, fromPrefix)
    ensures fromIsPrimary ==>
              |r| == |primaryDefaults| &&
              forall k :: 0 <= k < |r| ==> ShortName(r[k], |fromPrefix|) == primaryDefaults[k]
    ensures !fromIsPrimary ==> forall t :: t in r <==> t in schemaTables && StartsWith(t, fromPrefix)
  {
    if fromIsPrimary then PrimaryTables(fromPrefix, primaryDefaults)
    else WithPrefix(schemaTables, fromPrefix)
  }

  /**
   * `$new_tables[$short] = array()`: a key already present keeps its place,
   * a new key goes at the end.
   */
  function AddKey(keys: seq<string>, k: string): (r: seq<string>)
    ensures k in r && forall x :: x in keys ==> x in r
    ensures forall x :: x in r ==> x == k || x in keys
    ensures Distinct(keys) ==> Distinct(r)
  {
    if k in keys then keys else keys + [k]
  }

  /**
   * DROP TABLE IF EXISTS dest; CREATE TABLE dest LIKE table;
   * INSERT dest SELECT * FROM table. It fails when the source table does
   * not exist, which includes the case where dropping `dest` removed it.
   */
  function CopyOne(db: Db, table: string, dest: string): (r: Result<Db, CloneError>)
    ensures r.Ok? <==> table in db && table != dest
    ensures r.Ok? ==> r.value == db[dest := db[table]]
  {
    var dropped := db - {dest};
    if table in dropped then Ok(dropped[dest := dropped[table]]) else Err(MissingTable(table))
  }

  /**
   * The loop of `db_copy_tables`: each source table is copied to its
   * destination and its short name recorded in `new_tables`.
   */
  function CopyTables(db: Db, sources: seq<string>, fromPrefix: string, toPrefix: string,
                      newTables: seq<string>): Result<(Db, seq<string>), CloneError>
    decreases |sources|
  {
    if sources == [] then Ok((db, newTables))
    else
      var t := sources[0];
      var short := ShortName(t, |fromPrefix|);
      match CopyOne(db, t, toPrefix + short)
      case Err(e) => Err(e)
      case Ok(db1) => CopyTables(db1, sources[1..], fromPrefix, toPrefix, AddKey(newTables, short))
  }

  /** The short names of `sources`, in order. */
  function Shorts(sources: seq<string>, fromPrefix: string): (r: seq<string>)
    ensures |r| == |sources|
    ensures forall k :: 0 <= k < |r| ==> r[k] == ShortName(sources[k], |fromPrefix|)
  {
    seq(|sources|, k requires 0 <= k < |sources| => ShortName(sources[k], |fromPrefix|))
  }

  /** The destination names of `sources`. */
  function Dests(sources: seq<string>, fromPrefix: string, toPrefix: string): set<string>
  {
    set t | t in sources :: DestName(t, fromPrefix, toPrefix)
  }

  /** The conditions under which one clone's tables do not step on each other. */
  predicate WellFormedSources(sources: seq<string>, fromPrefix: string, toPrefix: string)
  {
    && Distinct(sources)
    && (forall t :: t in sources ==> StartsWith(t, fromPrefix))
    && (forall t, u :: t in sources && u in sources ==> DestName(t, fromPrefix, toPrefix) != u)
  }

  /** What remains to copy after the first table is still well formed, and apart from it. */
  lemma RestWellFormed(sources: seq<string>, fromPrefix: string, toPrefix: string)
    requires sources != [] && WellFormedSources(sources, fromPrefix, toPrefix)
    ensures WellFormedSources(sources[1..], fromPrefix, toPrefix)
    ensures sources[0] !in sources[1..]
    ensures DestName(sources[0], fromPrefix, toPrefix) != sources[0]
    ensures forall u :: u in sources[1..] ==>
              && DestName(u, fromPrefix, toPrefix) != DestName(sources[0], fromPrefix, toPrefix)
              && ShortName(u, |fromPrefix|) != ShortName(sources[0], |fromPrefix|)
              && DestName(sources[0], fromPrefix, toPrefix) != u
  {
    var t := sources[0];
    var rest := sources[1..];
    assert forall x :: x in sources <==> x == t || x in rest;
    assert Distinct(rest) by {
      forall i, j | 0 <= i < j < |rest| ensures rest[i] != rest[j] {
        assert rest[i] == sources[i + 1] && rest[j] == sources[j + 1];
      }
    }
    assert t !in rest by {
      forall j | 0 <= j < |rest| ensures rest[j] != t {
        assert rest[j] == sources[j + 1];
      }
    }
    forall u | u in rest
      ensures DestName(u, fromPrefix, toPrefix) != DestName(t, fromPrefix, toPrefix)
      ensures ShortName(u, |fromPrefix|) != ShortName(t, |fromPrefix|)
    {
      if DestName(u, fromPrefix, toPrefix) == DestName(t, fromPrefix, toPrefix) {
        DestNameInjective(u, t, fromPrefix, toPrefix);
      }
    }
  }

  /** The first copy of a non-empty copy loop, when it succeeds. */
  lemma CopyTablesHead(db: Db, sources: seq<string>, fromPrefix: string, toPrefix: string, acc: seq<string>)
    requires sources != [] && sources[0] in db
    requires DestName(sources[0], fromPrefix, toPrefix) != sources[0]
    ensures CopyTables(db, sources, fromPrefix, toPrefix, acc)
         == CopyTables(db[DestName(sources[0], fromPrefix, toPrefix) := db[sources[0]]], sources[1..],
                       fromPrefix, toPrefix, AddKey(acc, ShortName(sources[0], |fromPrefix|)))
  {
  }

  /** The copy succeeds exactly when every source table exists. */
  lemma {:induction false} CopyTablesOk(db: Db, sources: seq<string>, fromPrefix: string, toPrefix: string,
                                        acc: seq<string>)
    requires WellFormedSources(sources, fromPrefix, toPrefix)
    ensures CopyTables(db, sources, fromPrefix, toPrefix, acc).Ok? <==> forall t :: t in sources ==> t in db
    decreases |sources|
  {
    if sources != [] {
      var t := sources[0];
      var rest := sources[1..];
      assert forall x :: x in sources <==> x == t || x in rest;
      RestWellFormed(sources, fromPrefix, toPrefix);
      if t in db {
        var d := DestName(t, fromPrefix, toPrefix);
        var db1 := db[d := db[t]];
        CopyTablesHead(db, sources, fromPrefix, toPrefix, acc);
        CopyTablesOk(db1, rest, fromPrefix, toPrefix, AddKey(acc, ShortName(t, |fromPrefix|)));
        assert forall u :: u in rest ==> (u in db1 <==> u in db);
      }
    }
  }

  /** After a successful copy, exactly the destination tables have been added. */
  lemma {:induction false} CopyTablesKeys(db: Db, sources: seq<string>, fromPrefix: string, toPrefix: string,
                                          acc: seq<string>)
    requires WellFormedSources(sources, fromPrefix, toPrefix)
    ensures var r := CopyTables(db, sources, fromPrefix, toPrefix, acc);
      r.Ok? ==> r.value.0.Keys == db.Keys + Dests(sources, fromPrefix, toPrefix)
    decreases |sources|
  {
    if sources == [] {
      assert Dests(sources, fromPrefix, toPrefix) == {};
    } else {
      var t := sources[0];
      var rest := sources[1..];
      assert forall x :: x in sources <==> x == t || x in rest;
      RestWellFormed(sources, fromPrefix, toPrefix);
      if t in db {
        var d := DestName(t, fromPrefix, toPrefix);
        CopyTablesHead(db, sources, fromPrefix, toPrefix, acc);
        CopyTablesKeys(db[d := db[t]], rest, fromPrefix, toPrefix, AddKey(acc, ShortName(t, |fromPrefix|)));
        assert Dests(sources, fromPrefix, toPrefix) == {d} + Dests(rest, fromPrefix, toPrefix);
      }
    }
  }

  /** After a successful copy, every table that is not a destination is as it was. */
  lemma {:induction false} CopyTablesOthers(db: Db, sources: seq<string>, fromPrefix: string, toPrefix: string,
                                            acc: seq<string>)
    requires WellFormedSources(sources, fromPrefix, toPrefix)
    ensures var r := CopyTables(db, sources, fromPrefix, toPrefix, acc);
      r.Ok? ==> forall n :: n in db && n !in Dests(sources, fromPrefix, toPrefix) ==>
                             n in r.value.0 && r.value.0[n] == db[n]
    decreases |sources|
  {
    CopyTablesKeys(db, sources, fromPrefix, toPrefix, acc);
    if sources != [] {
      var t := sources[0];
      var rest := sources[1..];
      assert forall x :: x in sources <==> x == t || x in rest;
      RestWellFormed(sources, fromPrefix, toPrefix);
      if t in db {
        var d := DestName(t, fromPrefix, toPrefix);
        CopyTablesHead(db, sources, fromPrefix, toPrefix, acc);
        CopyTablesOthers(db[d := db[t]], rest, fromPrefix, toPrefix, AddKey(acc, ShortName(t, |fromPrefix|)));
        assert Dests(sources, fromPrefix, toPrefix) == {d} + Dests(rest, fromPrefix, toPrefix);
      }
    }
  }

  /** After a successful copy, each destination table equals its source table. */
  lemma {:induction false} CopyTablesDest(db: Db, sources: seq<string>, fromPrefix: string, toPrefix: string,
                                          acc: seq<string>)
    requires WellFormedSources(sources, fromPrefix, toPrefix)
    ensures var r := CopyTables(db, sources, fromPrefix, toPrefix, acc);
      r.Ok? ==> forall t :: t in sources ==>
                  t in db && DestName(t, fromPrefix, toPrefix) in r.value.0 &&
                  r.value.0[DestName(t, fromPrefix, toPrefix)] == db[t]
    decreases |sources|
  {
    CopyTablesOk(db, sources, fromPrefix, toPrefix, acc);
    CopyTablesKeys(db, sources, fromPrefix, toPrefix, acc);
    if sources != [] {
      var t := sources[0];
      var rest := sources[1..];
      assert forall x :: x in sources <==> x == t || x in rest;
      RestWellFormed(sources, fromPrefix, toPrefix);
      if t in db {
        var d := DestName(t, fromPrefix, toPrefix);
        var db1 := db[d := db[t]];
        var acc1 := AddKey(acc, ShortName(t, |fromPrefix|));
        CopyTablesHead(db, sources, fromPrefix, toPrefix, acc);
        CopyTablesDest(db1, rest, fromPrefix, toPrefix, acc1);
        CopyTablesOthers(db1, rest, fromPrefix, toPrefix, acc1);
        CopyTablesOk(db1, rest, fromPrefix, toPrefix, acc1);
        assert d !in Dests(rest, fromPrefix, toPrefix);
      }
    }
  }

  lemma AppendAssoc(a: seq<string>, b: seq<string>, c: seq<string>)
    ensures (a + b) + c == a + (b + c)
  {
  }

  lemma ShortsCons(sources: seq<string>, fromPrefix: string)
    requires sources != []
    ensures Shorts(sources, fromPrefix) == [ShortName(sources[0], |fromPrefix|)] + Shorts(sources[1..], fromPrefix)
  {
  }

  /** Recording the first short name appends it, and the later short names are still new. */
  lemma FreshShorts(sources: seq<string>, fromPrefix: string, toPrefix: string, acc: seq<string>)
    requires sources != [] && WellFormedSources(sources, fromPrefix, toPrefix)
    requires forall t :: t in sources ==> ShortName(t, |fromPrefix|) !in acc
    ensures AddKey(acc, ShortName(sources[0], |fromPrefix|)) == acc + [ShortName(sources[0], |fromPrefix|)]
    ensures forall u :: u in sources[1..] ==>
              ShortName(u, |fromPrefix|) !in acc + [ShortName(sources[0], |fromPrefix|)]
  {
    RestWellFormed(sources, fromPrefix, toPrefix);
    assert sources[0] in sources;
    forall u | u in sources[1..]
      ensures ShortName(u, |fromPrefix|) !in acc + [ShortName(sources[0], |fromPrefix|)]
    {
      assert u in sources;
    }
  }

  /** After a successful copy, `new_tables` lists the short names in source order. */
  lemma {:induction false} CopyTablesNewTables(db: Db, sources: seq<string>, fromPrefix: string, toPrefix: string,
                                               acc: seq<string>)
    requires WellFormedSources(sources, fromPrefix, toPrefix)
    requires forall t :: t in sources ==> ShortName(t, |fromPrefix|) !in acc
    ensures var r := CopyTables(db, sources, fromPrefix, toPrefix, acc);
      r.Ok? ==> r.value.1 == acc + Shorts(sources, fromPrefix)
    decreases |sources|
  {
    if sources == [] {
      assert acc + Shorts(sources, fromPrefix) == acc;
    } else if sources[0] in db {
      var t := sources[0];
      var rest := sources[1..];
      var short := ShortName(t, |fromPrefix|);
      var d := DestName(t, fromPrefix, toPrefix);
      var acc1 := acc + [short];
      RestWellFormed(sources, fromPrefix, toPrefix);
      FreshShorts(sources, fromPrefix, toPrefix, acc);
      CopyTablesHead(db, sources, fromPrefix, toPrefix, acc);
      CopyTablesNewTables(db[d := db[t]], rest, fromPrefix, toPrefix, acc1);
      ShortsCons(sources, fromPrefix);
      AppendAssoc(acc, [short], Shorts(rest, fromPrefix));
    }
  }

  /**
   * The copy of `db_copy_tables`: it succeeds exactly when every source
   * table exists. Then each destination table equals its source table,
   * every other table is as it was, no table disappears, and `new_tables`
   * lists the short names in source order.
   */
  lemma CopyTablesSpec(db: Db, sources: seq<string>, fromPrefix: string, toPrefix: string)
    requires WellFormedSources(sources, fromPrefix, toPrefix)
    ensures var r := CopyTables(db, sources, fromPrefix, toPrefix, []);
      r.Ok? <==> forall t :: t in sources ==> t in db
    ensures var r := CopyTables(db, sources, fromPrefix, toPrefix, []);
      r.Ok? ==>
        && r.value.0.Keys == db.Keys + Dests(sources, fromPrefix, toPrefix)
        && (forall t :: t in sources ==> r.value.0[DestName(t, fromPrefix, toPrefix)] == db[t])
        && (forall n :: n in db && n !in Dests(sources, fromPrefix, toPrefix) ==> r.value.0[n] == db[n])
        && r.value.1 == Shorts(sources, fromPrefix)
  {
    CopyTablesOk(db, sources, fromPrefix, toPrefix, []);
    CopyTablesKeys(db, sources, fromPrefix, toPrefix, []);
    CopyTablesDest(db, sources, fromPrefix, toPrefix, []);
    CopyTablesOthers(db, sources, fromPrefix, toPrefix, []);
    CopyTablesNewTables(db, sources, fromPrefix, toPrefix, []);
    assert [] + Shorts(sources, fromPrefix) == Shorts(sources, fromPrefix);
  }
}
