/**
 * app.py: the web side paired with nfc_scanner.py.  Its request handlers
 * read and rewrite the same scan-status table and registry.
 */
module WebApp {
  import opened Tables
  import opened ScanStatus
  import opened Registry
  import opened Files

  /** A registry row as /api/data returns it, with the joined "Host scan" flag. */
  datatype ChipView = ChipView(chip: Chip, hostScan: bool)

  /** The body of /api/data: a bare `[]` when there is no registry. */
  datatype ChipData = Bare | Data(rows: seq<ChipView>, active: Option<Uid>)

  /** The answer of an enrollment POST: the 400 error, or the UID enrolled. */
  datatype AddResult = NoNewScan | Accepted(uid: Uid)

  /** check_new_scan: scan the table for the first row flagged "new". */
  method CheckNewScan(t: seq<StatusRow>) returns (r: Option<Uid>)
    ensures r == FirstNew(t)
  {
    var i := 0;
    while i < |t|
      invariant 0 <= i <= |t|
      invariant forall j :: 0 <= j < i ==> !t[j].isNew
    {
      if t[i].isNew {
        FirstNewAt(t, i);
        return Some(t[i].uid);
      }
      i := i + 1;
    }
    return None;
  }

  /** get_scan_status: whether some row is flagged "new". */
  method GetScanStatus(t: seq<StatusRow>) returns (newScan: bool)
    ensures newScan == HasNew(t)
  {
    newScan := false;
    var i := 0;
    while i < |t|
      invariant 0 <= i <= |t|
      invariant !newScan
      invariant forall j :: 0 <= j < i ==> !t[j].isNew
    {
      if t[i].isNew {
        newScan := true;
        break;
      }
      i := i + 1;
    }
  }

  /**
   * get_chip_data: with a registry, every registry row in order, each with
   * the "Host scan" of the last status row of its UID ("False" when there is
   * none), and the UID of the last status row whose "Host scan" is True.
   */
  method GetChipData(chips: ChipFile, status: TableFile<StatusRow>) returns (d: ChipData)
    ensures !chips.present ==> d == Bare
    ensures chips.present ==> d.Data? && |d.rows| == |chips.rows| && d.active == LastActive(status.rows)
    ensures chips.present ==> forall i :: 0 <= i < |chips.rows| ==>
              d.rows[i] == ChipView(chips.rows[i], HostOf(status.rows, chips.rows[i].uid))
  {
    if !chips.present {
      return Bare;
    }
    var hosts, active := ReadHostFlags(status.rows);
    var data := JoinHostFlags(chips.rows, hosts, status.rows);
    d := Data(data, active);
  }

  /**
   * The status loop of get_chip_data: the `scan_status` dictionary from UID
   * to the "Host scan" of its last row, and `active_uid`.
   */
  method ReadHostFlags(t: seq<StatusRow>) returns (hosts: map<Uid, bool>, active: Option<Uid>)
    ensures forall u :: HostOf(t, u) == (u in hosts && hosts[u])
    ensures active == LastActive(t)
  {
    hosts := map[];
    active := None;
    var i := 0;
    while i < |t|
      invariant 0 <= i <= |t|
      invariant forall u :: HostOf(t[..i], u) == (u in hosts && hosts[u])
      invariant active == LastActive(t[..i])
    {
      assert t[..i + 1] == t[..i] + [t[i]];
      forall u {
        HostOfSnoc(t[..i], t[i], u);
      }
      LastActiveSnoc(t[..i], t[i]);
      hosts := hosts[t[i].uid := t[i].hostScan];
      if t[i].hostScan {
        active := Some(t[i].uid);
      }
      i := i + 1;
    }
    assert t[..|t|] == t;
  }

  /** The registry loop of get_chip_data: each row with its flag, "False" by default. */
  method JoinHostFlags(rows: seq<Chip>, hosts: map<Uid, bool>, ghost t: seq<StatusRow>) returns (data: seq<ChipView>)
    requires forall u :: HostOf(t, u) == (u in hosts && hosts[u])
    ensures |data| == |rows|
    ensures forall j :: 0 <= j < |rows| ==> data[j] == ChipView(rows[j], HostOf(t, rows[j].uid))
  {
    data := [];
    var k := 0;
    while k < |rows|
      invariant 0 <= k <= |rows|
      invariant |data| == k
      invariant forall j :: 0 <= j < k ==> data[j] == ChipView(rows[j], HostOf(t, rows[j].uid))
    {
      var host := if rows[k].uid in hosts then hosts[rows[k].uid] else false;
      data := data + [ChipView(rows[k], host)];
      k := k + 1;
    }
  }

  /**
   * The POST path of add_chip_data.  With no pending UID (or an empty one)
   * the answer is the 400 error and neither file changes.  Otherwise one
   * registry row built from the form and the pending UID is appended
   * (creating the file if needed) and the pending UID's rows are
   * acknowledged.
   */
  method AddChipData(form: Form, dr: string, chips: ChipFile, status: TableFile<StatusRow>) returns (res: AddResult)
    modifies chips, status
    ensures var pending := FirstNew(old(status.rows));
            if pending.None? || pending.value == "" then
              res == NoNewScan && unchanged(chips, status)
            else
              && res == Accepted(pending.value)
              && chips.present
              && chips.rows == (if old(chips.present) then old(chips.rows) else []) + [Enrolled(form, pending.value, dr)]
              && status.rows == Update(old(status.rows), pending.value, AckEdit())
  {
    var pending := CheckNewScan(status.rows);
    if pending.None? || pending.value == "" {
      return NoNewScan;
    }
    var u := pending.value;
    var existing := if chips.present then chips.rows else [];
    chips.rows := existing + [Enrolled(form, u, dr)];
    chips.present := true;
    RewriteStatus(status, u, AckEdit());
    res := Accepted(u);
  }

  /** reset_web_scan: re-read the table and set "Web scan" False on the UID's rows. */
  method ResetWebScan(u: Uid, status: TableFile<StatusRow>)
    modifies status
    ensures status.rows == Update(old(status.rows), u, WebResetEdit())
  {
    RewriteStatus(status, u, WebResetEdit());
  }

  /**
   * archive_sample.  The registry is read without an existence check, so a
   * missing registry is an error (`ok` false) and nothing changes.  Otherwise
   * the last row of the UID is appended to the archive (created if needed)
   * and the registry is rewritten without any row of the UID; when no row
   * matches, neither file is written.
   */
  method ArchiveSample(u: Uid, chips: ChipFile, archive: ChipFile) returns (ok: bool)
    requires chips != archive
    modifies chips, archive
    ensures ok == old(chips.present)
    ensures !ok || Last(old(chips.rows), ChipKey, u).None? ==> unchanged(chips, archive)
    ensures ok && Last(old(chips.rows), ChipKey, u).Some? ==>
              && chips.present && chips.rows == Drop(old(chips.rows), ChipKey, u)
              && archive.present
              && archive.rows == (if old(archive.present) then old(archive.rows) else []) + [Last(old(chips.rows), ChipKey, u).value]
  {
    if !chips.present {
      return false;
    }
    var rows := chips.rows;
    var kept: seq<Chip> := [];
    var archived: Option<Chip> := None;
    var i := 0;
    while i < |rows|
      invariant 0 <= i <= |rows|
      invariant kept == Drop(rows[..i], ChipKey, u)
      invariant archived == Last(rows[..i], ChipKey, u)
    {
      assert rows[..i + 1][..i] == rows[..i];
      if rows[i].uid == u {
        archived := Some(rows[i]);
      } else {
        kept := kept + [rows[i]];
      }
      i := i + 1;
    }
    assert rows[..|rows|] == rows;
    if archived.Some? {
      var before := if archive.present then archive.rows else [];
      archive.rows := before + [archived.value];
      archive.present := true;
      chips.rows := kept;
    }
    return true;
  }
}
