/**
 * The CSV files as mutable objects, and the loops every process runs over
 * them.  A write replaces a file's whole table.  A missing scan-status file
 * reads as an empty table, as app.py and nfc_scanner.py treat it (test.py
 * opens it without a check, which raises; see README).
 */
module Files {
  import opened Tables
  import opened ScanStatus
  import opened Registry

  /** scan_status.csv, in either layout. */
  class TableFile<R> {
    var rows: seq<R>

    constructor (rows: seq<R>)
      ensures this.rows == rows
    {
      this.rows := rows;
    }
  }

  /**
   * chip_data.csv or archived.csv.  Whether the file exists is kept: a
   * missing registry makes get_chip_data answer a bare empty list and makes
   * archive_sample fail.
   */
  class ChipFile {
    var present: bool
    var rows: seq<Chip>

    constructor (present: bool, rows: seq<Chip>)
      ensures this.present == present && this.rows == (if present then rows else [])
    {
      this.present := present;
      this.rows := if present then rows else [];
    }
  }

  /**
   * The `existing_entries` loop of initialize_scan_status: a dictionary
   * from each UID of the table to its last row.
   */
  method ReadEntries<R>(t: seq<R>, key: R -> Uid) returns (m: map<Uid, R>)
    ensures m == Index(t, key)
  {
    m := map[];
    var i := 0;
    while i < |t|
      invariant 0 <= i <= |t|
      invariant m == Index(t[..i], key)
    {
      assert t[..i + 1][..i] == t[..i];
      m := m[key(t[i]) := t[i]];
      i := i + 1;
    }
    assert t[..|t|] == t;
  }

  /**
   * The rewrite of initialize_scan_status: for each known UID in dictionary
   * order, the existing row or a blank one.
   */
  method ReconcileFile<R>(file: TableFile<R>, order: seq<Uid>, key: R -> Uid, blank: Uid -> R)
    requires forall u :: key(blank(u)) == u
    modifies file
    ensures file.rows == Reconcile(order, old(file.rows), key, blank)
  {
    var existing := ReadEntries(file.rows, key);
    var rows: seq<R> := [];
    var i := 0;
    while i < |order|
      invariant 0 <= i <= |order|
      invariant |rows| == i
      invariant forall j :: 0 <= j < i ==> rows[j] == Pick(existing, order[j], blank)
    {
      var u := order[i];
      if u in existing {
        rows := rows + [existing[u]];
      } else {
        rows := rows + [blank(u)];
      }
      i := i + 1;
    }
    assert rows == Reconcile(order, file.rows, key, blank);
    file.rows := rows;
  }

  /**
   * The loop `for row in rows: if row[col] == uid: row[flag] = ...` that
   * every rewrite of the scan-status table runs.
   */
  method EditRows(t: seq<StatusRow>, u: Uid, e: FlagEdit) returns (r: seq<StatusRow>)
    ensures r == Update(t, u, e)
  {
    r := [];
    var i := 0;
    while i < |t|
      invariant 0 <= i <= |t|
      invariant |r| == i
      invariant forall j :: 0 <= j < i ==> r[j] == if t[j].uid == u then Apply(e, t[j]) else t[j]
    {
      var row := t[i];
      if row.uid == u {
        row := Apply(e, row);
      }
      r := r + [row];
      i := i + 1;
    }
  }

  /** Read the table, edit the rows of `u`, write the table back. */
  method RewriteStatus(file: TableFile<StatusRow>, u: Uid, e: FlagEdit)
    modifies file
    ensures file.rows == Update(old(file.rows), u, e)
  {
    var rows := EditRows(file.rows, u, e);
    file.rows := rows;
  }

  /**
   * Phase 1 of update_scan_status: read the table marking the rows of `u`
   * and noting whether any was found, append a row for a new tag that had
   * none, write the table, and hand back the rows kept in memory.
   */
  method MarkDetected(file: TableFile<StatusRow>, u: Uid, isNew: bool) returns (snapshot: seq<StatusRow>)
    modifies file
    ensures snapshot == Detected(old(file.rows), u, isNew)
    ensures file.rows == snapshot
  {
    var t := file.rows;
    var rows: seq<StatusRow> := [];
    var found := false;
    var i := 0;
    while i < |t|
      invariant 0 <= i <= |t|
      invariant |rows| == i
      invariant forall j :: 0 <= j < i ==> rows[j] == if t[j].uid == u then Apply(MarkEdit(isNew), t[j]) else t[j]
      invariant found <==> exists j :: 0 <= j < i && t[j].uid == u
    {
      var row := t[i];
      if row.uid == u {
        row := row.(hostScan := true, isNew := if isNew then true else row.isNew);
        found := true;
      }
      rows := rows + [row];
      i := i + 1;
    }
    assert rows == Update(t, u, MarkEdit(isNew));
    assert found == HasKey(t, Key, u) by {
      assert forall j :: 0 <= j < |t| ==> Key(t[j]) == t[j].uid;
    }
    if !found && isNew {
      rows := rows + [Arrival(u)];
    }
    file.rows := rows;
    snapshot := rows;
  }

  /**
   * The registry loop of load_known_chips, run on the dictionary `k`:
   * assigning an existing key replaces its row in place, a new key goes to
   * the end.
   */
  method ReadKnown(k: KnownChips, rows: seq<Chip>) returns (r: KnownChips)
    ensures r == Load(k, rows)
  {
    r := k;
    var i := 0;
    while i < |rows|
      invariant 0 <= i <= |rows|
      invariant r == Load(k, rows[..i])
    {
      assert rows[..i + 1][..i] == rows[..i];
      var c := rows[i];
      if c.uid in r.chips {
        r := r.(chips := r.chips[c.uid := c]);
      } else {
        r := KnownChips(r.order + [c.uid], r.chips[c.uid := c]);
      }
      i := i + 1;
    }
    assert rows[..|rows|] == rows;
  }

  /**
   * One read of the wait for the acknowledgement: the inner `for ... else`
   * scan, true when some row of `u` has "Web scan" True.
   */
  method ReadAck(t: seq<StatusRow>, u: Uid) returns (seen: bool)
    ensures seen == AckIn(t, u)
  {
    seen := false;
    var i := 0;
    while i < |t| && !seen
      invariant 0 <= i <= |t|
      invariant seen ==> AckIn(t, u)
      invariant !seen ==> forall j :: 0 <= j < i ==> !(t[j].uid == u && t[j].webScan)
    {
      if t[i].uid == u && t[i].webScan {
        seen := true;
      }
      i := i + 1;
    }
  }

  /**
   * The host's busy-wait for the acknowledgement (nfc_scanner.py:92-103,
   * test.py:97-108), over the successive tables it reads, one per second:
   * the index of the first read that shows "Web scan" True on a row of `u`,
   * or None when none of them does and the host is still waiting.
   */
  method AwaitAck(u: Uid, observed: seq<seq<StatusRow>>) returns (seen: Option<nat>)
    ensures seen.Some? ==> seen.value < |observed| && AckIn(observed[seen.value], u)
    ensures seen.Some? ==> forall j :: 0 <= j < seen.value ==> !AckIn(observed[j], u)
    ensures seen.None? ==> forall j :: 0 <= j < |observed| ==> !AckIn(observed[j], u)
  {
    var k := 0;
    while k < |observed|
      invariant 0 <= k <= |observed|
      invariant forall j :: 0 <= j < k ==> !AckIn(observed[j], u)
    {
      var ack := ReadAck(observed[k], u);
      if ack {
        return Some(k);
      }
      k := k + 1;
    }
    return None;
  }
}
