/**
  Scans that map keys to the records of a table, and a client that chains
  them: each page is read, and the next scan starts from a cursor computed
  from the last record returned.
*/
module Scan {
  import opened Wrappers
  import opened Order
  import opened Pagination

  /** The records stored under a sequence of keys, in that order (`.map(|(_, v)| v)`). */
  ghost function Rows<V>(table: map<string, V>, ks: seq<string>): seq<V>
    requires forall i :: 0 <= i < |ks| ==> ks[i] in table
  {
    seq(|ks|, i requires 0 <= i < |ks| => table[ks[i]])
  }

  lemma RowsAppend<V>(table: map<string, V>, a: seq<string>, b: seq<string>)
    requires forall i :: 0 <= i < |a| ==> a[i] in table
    requires forall i :: 0 <= i < |b| ==> b[i] in table
    ensures forall i :: 0 <= i < |a + b| ==> (a + b)[i] in table
    ensures Rows(table, a + b) == Rows(table, a) + Rows(table, b)
  {
  }

  lemma RowsSplit<V>(table: map<string, V>, s: seq<string>, n: nat)
    requires forall i :: 0 <= i < |s| ==> s[i] in table
    requires n <= |s|
    ensures Rows(table, s) == Rows(table, s[..n]) + Rows(table, s[n..])
  {
    assert s == s[..n] + s[n..];
    RowsAppend(table, s[..n], s[n..]);
  }

  /**
    The cursor a record gives leads back to the record's own key: resuming
    from it is resuming from that key.
  */
  ghost predicate CursorsAreKeys<V>(table: map<string, V>, keys: set<string>, cursorOf: V -> Option<string>)
  {
    && keys <= table.Keys
    && forall k :: k in keys ==> cursorOf(table[k]) == Some(k)
  }

  /** One page of records, seen against the whole scan it starts. */
  lemma ScanStep<V>(table: map<string, V>, keys: set<string>, cursorOf: V -> Option<string>, start: Option<string>, limit: nat)
    requires CursorsAreKeys(table, keys, cursorOf) && limit > 0
    ensures var s := Ascending(Eligible(keys, start));
            var ks := Page(keys, start, limit);
            && (forall i :: 0 <= i < |ks| ==> ks[i] in table)
            && (forall i :: 0 <= i < |s| ==> s[i] in table)
            && |ks| <= |s|
            && Rows(table, ks) == Rows(table, s[..|ks|])
            && (ks == [] <==> s == [])
            && (ks != [] ==> cursorOf(Rows(table, ks)[|ks| - 1]) == Some(s[|ks| - 1]))
  {
    var e := Eligible(keys, start);
    var s := Ascending(e);
    var ks := Page(keys, start, limit);
    TakeIsPrefix(s, limit);
    assert ks == s[..|ks|];
    forall i | 0 <= i < |s| ensures s[i] in keys {
      assert s[i] in e;
    }
    if ks != [] {
      assert ks[|ks| - 1] == s[|ks| - 1];
    }
  }

  /** Each record of a page is stored under the key its cursor names, and that key is in the scanned set. */
  lemma PageRecordsFound<V>(table: map<string, V>, keys: set<string>, cursorOf: V -> Option<string>, start: Option<string>, limit: nat)
    requires CursorsAreKeys(table, keys, cursorOf)
    ensures forall i :: 0 <= i < |Page(keys, start, limit)| ==> Page(keys, start, limit)[i] in table
    ensures var p := Rows(table, Page(keys, start, limit));
      forall i :: 0 <= i < |p| ==>
        && cursorOf(p[i]).Some? && cursorOf(p[i]).value in keys && table[cursorOf(p[i]).value] == p[i]
        && After(start, cursorOf(p[i]).value)
  {
    var ks := Page(keys, start, limit);
    PageProperties(keys, start, limit);
    var p := Rows(table, ks);
    forall i | 0 <= i < |p| ensures cursorOf(p[i]) == Some(ks[i]) {
      assert ks[i] in keys;
    }
  }

  /** The records of a page come in strictly ascending order of their cursors. */
  lemma PageRecordsOrdered<V>(table: map<string, V>, keys: set<string>, cursorOf: V -> Option<string>, start: Option<string>, limit: nat)
    requires CursorsAreKeys(table, keys, cursorOf)
    ensures forall i :: 0 <= i < |Page(keys, start, limit)| ==> Page(keys, start, limit)[i] in table
    ensures var p := Rows(table, Page(keys, start, limit));
      forall i, j :: 0 <= i < j < |p| ==>
        cursorOf(p[i]).Some? && cursorOf(p[j]).Some? && Less(cursorOf(p[i]).value, cursorOf(p[j]).value)
  {
    var ks := Page(keys, start, limit);
    PageProperties(keys, start, limit);
    var p := Rows(table, ks);
    forall i | 0 <= i < |p| ensures cursorOf(p[i]) == Some(ks[i]) {
      assert ks[i] in keys;
    }
  }

  /** A page skips nothing: a reachable record left out of it comes after every record in it. */
  lemma PageRecordsComplete<V>(table: map<string, V>, keys: set<string>, cursorOf: V -> Option<string>, start: Option<string>, limit: nat)
    requires CursorsAreKeys(table, keys, cursorOf)
    ensures forall i :: 0 <= i < |Page(keys, start, limit)| ==> Page(keys, start, limit)[i] in table
    ensures var p := Rows(table, Page(keys, start, limit));
      forall k, i :: k in keys && After(start, k) && table[k] !in p && 0 <= i < |p| ==>
        cursorOf(p[i]).Some? && Less(cursorOf(p[i]).value, k)
  {
    var ks := Page(keys, start, limit);
    PageProperties(keys, start, limit);
    var p := Rows(table, ks);
    forall i | 0 <= i < |p| ensures cursorOf(p[i]) == Some(ks[i]) {
      assert ks[i] in keys;
    }
    forall k | k in keys && table[k] !in p ensures k !in ks {
      forall j | 0 <= j < |ks| ensures ks[j] != k {
        assert p[j] == table[ks[j]];
      }
    }
  }

  /** The records a client collects by chaining pages, resuming each from the cursor of the last record. */
  ghost function ChainRows<V>(table: map<string, V>, keys: set<string>, cursorOf: V -> Option<string>,
                              start: Option<string>, limit: nat): seq<V>
    requires CursorsAreKeys(table, keys, cursorOf) && limit > 0
    decreases |Eligible(keys, start)|
  {
    ScanStep(table, keys, cursorOf, start, limit);
    var p := Rows(table, Page(keys, start, limit));
    if p == [] then []
    else
      ResumeAfter(keys, start, |p| - 1);
      p + ChainRows(table, keys, cursorOf, cursorOf(p[|p| - 1]), limit)
  }

  lemma ChainRowsUnfold<V>(table: map<string, V>, keys: set<string>, cursorOf: V -> Option<string>,
                           start: Option<string>, limit: nat)
    requires CursorsAreKeys(table, keys, cursorOf) && limit > 0
    ensures forall i :: 0 <= i < |Page(keys, start, limit)| ==> Page(keys, start, limit)[i] in table
    ensures var p := Rows(table, Page(keys, start, limit));
      && (p == [] ==> ChainRows(table, keys, cursorOf, start, limit) == [])
      && (p != [] ==> ChainRows(table, keys, cursorOf, start, limit)
                      == p + ChainRows(table, keys, cursorOf, cursorOf(p[|p| - 1]), limit))
  {
    PageBounds(keys, start, limit);
  }

  /** Chained pages return the record of every key the scan reaches, once each, in ascending key order. */
  lemma {:induction false} ChainRowsAll<V>(table: map<string, V>, keys: set<string>, cursorOf: V -> Option<string>,
                                           start: Option<string>, limit: nat)
    requires CursorsAreKeys(table, keys, cursorOf) && limit > 0
    ensures var s := Ascending(Eligible(keys, start));
      && (forall i :: 0 <= i < |s| ==> s[i] in table)
      && ChainRows(table, keys, cursorOf, start, limit) == Rows(table, s)
    decreases |Eligible(keys, start)|
  {
    var s := Ascending(Eligible(keys, start));
    ScanStep(table, keys, cursorOf, start, limit);
    ChainRowsUnfold(table, keys, cursorOf, start, limit);
    var p := Rows(table, Page(keys, start, limit));
    if p != [] {
      var n := |p|;
      ResumeAfter(keys, start, n - 1);
      ChainRowsAll(table, keys, cursorOf, cursorOf(p[n - 1]), limit);
      RowsSplit(table, s, n);
    }
  }

  lemma RowsMembers<V>(table: map<string, V>, s: seq<string>)
    requires forall i :: 0 <= i < |s| ==> s[i] in table
    ensures |Rows(table, s)| == |s|
    ensures forall v :: v in Rows(table, s) <==> exists k :: k in s && table[k] == v
  {
    var r := Rows(table, s);
    forall v ensures v in r <==> exists k :: k in s && table[k] == v {
      if v in r {
        var i :| 0 <= i < |r| && r[i] == v;
        assert s[i] in s;
      }
      if exists k :: k in s && table[k] == v {
        var k :| k in s && table[k] == v;
        var i :| 0 <= i < |s| && s[i] == k;
        assert r[i] == v;
      }
    }
  }

  /** From no cursor, chained pages return exactly the records stored under `keys`. */
  lemma ChainRowsMembers<V>(table: map<string, V>, keys: set<string>, cursorOf: V -> Option<string>, limit: nat)
    requires CursorsAreKeys(table, keys, cursorOf) && limit > 0
    ensures var all := ChainRows(table, keys, cursorOf, None, limit);
      && (forall v :: v in all <==> exists k :: k in keys && table[k] == v)
      && |all| == |keys|
  {
    ChainRowsAll(table, keys, cursorOf, None, limit);
    assert Eligible(keys, None) == keys;
    RowsMembers(table, Ascending(keys));
  }

  /** Every record has a cursor, and the cursors strictly ascend along `rows`. */
  ghost predicate CursorsAscend<V>(rows: seq<V>, cursorOf: V -> Option<string>)
  {
    forall i, j :: 0 <= i < j < |rows| ==>
      && cursorOf(rows[i]).Some? && cursorOf(rows[j]).Some?
      && Less(cursorOf(rows[i]).value, cursorOf(rows[j]).value)
  }

  /** From no cursor, chained pages come in strictly ascending order of the records' cursors. */
  lemma ChainRowsOrdered<V>(table: map<string, V>, keys: set<string>, cursorOf: V -> Option<string>, limit: nat)
    requires CursorsAreKeys(table, keys, cursorOf) && limit > 0
    ensures CursorsAscend(ChainRows(table, keys, cursorOf, None, limit), cursorOf)
  {
    ChainRowsAll(table, keys, cursorOf, None, limit);
    assert Eligible(keys, None) == keys;
    var s := Ascending(keys);
    var all := ChainRows(table, keys, cursorOf, None, limit);
    forall i, j | 0 <= i < j < |all|
      ensures cursorOf(all[i]).Some? && cursorOf(all[j]).Some? && Less(cursorOf(all[i]).value, cursorOf(all[j]).value)
    {
      assert s[i] in s && s[j] in s;
    }
  }
}
