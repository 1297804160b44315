/**
 * test.py: the single-process variant in which the hardware poller runs as
 * a thread beside the web handlers.  Tables are keyed by "Sample IUD" and
 * "IUD".  `known_chips` starts empty and nothing in the file fills it: the
 * loader and the reconciler are defined but never called.
 */
module TestApp {
  import opened Tables
  import opened ScanStatus
  import opened Registry
  import opened Files
  import WebApp

  /** The phase-2 edit: a new tag loses "Host scan" and "new", a known one only "Host scan". */
  function FinalEdit(isNew: bool): FlagEdit
  {
    if isNew then ClearHostNewEdit() else ClearHostEdit()
  }

  /** Phase 2 on a row of the tag: "Host scan" False, "new" False for a new tag, and "Web scan" kept as read. */
  lemma FinalEditEffect(isNew: bool, r: StatusRow)
    ensures Apply(FinalEdit(isNew), r) == r.(hostScan := false, isNew := if isNew then false else r.isNew)
  {
  }

  /** The process's global `known_chips`. */
  class TestHost {
    var known: KnownChips

    constructor ()
      ensures known == NoChips
    {
      known := NoChips;
    }

    /**
     * load_known_chips: nothing happens without a registry; otherwise each
     * row is stored under its "IUD", adding to what the dictionary holds.
     */
    method LoadKnownChips(chips: ChipFile)
      modifies this`known
      ensures known == if chips.present then Load(old(known), chips.rows) else old(known)
    {
      if !chips.present {
        return;
      }
      known := ReadKnown(known, chips.rows);
    }

    /** initialize_scan_status: one row per known UID, existing flags kept. */
    method InitializeScanStatus(status: TableFile<StatusRow>)
      modifies status
      ensures status.rows == Reconcile(known.order, old(status.rows), Key, Blank)
    {
      ReconcileFile(status, known.order, Key, Blank);
    }

    /**
     * One pass of scan_nfc: a tag is new exactly when its UID is not a key
     * of `known_chips`, and update_scan_status runs on it.
     */
    method ScanStep(reading: Option<Uid>, status: TableFile<StatusRow>,
                    observed: seq<seq<StatusRow>>) returns (step: Step)
      modifies status
      ensures reading.None? ==> step == NoCard && status.rows == old(status.rows)
      ensures reading.Some? ==>
                var u, isNew := reading.value, reading.value !in known.chips;
                var snapshot := Detected(old(status.rows), u, isNew);
                && (step == Handled(u, isNew) || step == Waiting(u))
                && (step.Waiting? <==> isNew && forall k :: 0 <= k < |observed| ==> !AckIn(observed[k], u))
                && status.rows == if step.Handled? then Update(snapshot, u, FinalEdit(isNew)) else snapshot
    {
      if reading.None? {
        return NoCard;
      }
      var u := reading.value;
      var isNew := u !in known.chips;
      var done := UpdateScanStatus(u, isNew, status, observed);
      step := if done then Handled(u, isNew) else Waiting(u);
    }
  }

  /**
   * update_scan_status: mark and write, wait for the acknowledgement for a
   * new tag, then write the phase-1 snapshot with the UID's rows cleared.
   * Unlike nfc_scanner.py it neither reloads nor reconciles first, and leaves
   * "Web scan" as the snapshot had it.
   */
  method UpdateScanStatus(u: Uid, isNew: bool, status: TableFile<StatusRow>,
                          observed: seq<seq<StatusRow>>) returns (done: bool)
    modifies status
    ensures done <==> !isNew || exists k :: 0 <= k < |observed| && AckIn(observed[k], u)
    ensures var snapshot := Detected(old(status.rows), u, isNew);
            status.rows == if done then Update(snapshot, u, FinalEdit(isNew)) else snapshot
  {
    var snapshot := MarkDetected(status, u, isNew);
    if isNew {
      var seen := AwaitAck(u, observed);
      if seen.None? {
        return false;
      }
    }
    var rows := EditRows(snapshot, u, FinalEdit(isNew));
    status.rows := rows;
    done := true;
  }

  /**
   * The blocking check_new_scan, over the successive tables it reads once a
   * second: the UID of the first flagged row of the first table that has
   * one; None only when no table read so far has one (it is still waiting).
   */
  method CheckNewScan(observed: seq<seq<StatusRow>>) returns (r: Option<Uid>)
    ensures r.None? <==> forall k :: 0 <= k < |observed| ==> !HasNew(observed[k])
    ensures r.Some? ==> exists k :: 0 <= k < |observed| && r == FirstNew(observed[k])
                            && forall j :: 0 <= j < k ==> !HasNew(observed[j])
  {
    var k := 0;
    while k < |observed|
      invariant 0 <= k <= |observed|
      invariant forall j :: 0 <= j < k ==> !HasNew(observed[j])
    {
      r := WebApp.CheckNewScan(observed[k]);
      if r.Some? {
        return;
      }
      k := k + 1;
    }
    return None;
  }

  /**
   * The first half of the POST path of add_chip_data for the UID the
   * blocking check_new_scan returned: append the registry row, then set "Web scan"
   * True on the UID's rows and write.  The rows written are the snapshot the
   * handler keeps for its second write.
   */
  method RaiseWebScan(u: Uid, form: Form, dr: string, chips: ChipFile, status: TableFile<StatusRow>)
      returns (snapshot: seq<StatusRow>)
    modifies chips, status
    ensures chips.present
    ensures chips.rows == (if old(chips.present) then old(chips.rows) else []) + [Enrolled(form, u, dr)]
    ensures snapshot == Update(old(status.rows), u, WebRaiseEdit()) && status.rows == snapshot
  {
    var existing := if chips.present then chips.rows else [];
    chips.rows := existing + [Enrolled(form, u, dr)];
    chips.present := true;
    snapshot := EditRows(status.rows, u, WebRaiseEdit());
    status.rows := snapshot;
  }

  /**
   * The second write of add_chip_data as written: five seconds later the
   * handler writes its own snapshot back with "Web scan" False on the UID's
   * rows, whatever the host wrote in between.
   */
  method LowerWebScan(snapshot: seq<StatusRow>, u: Uid, status: TableFile<StatusRow>)
    modifies status
    ensures status.rows == Update(snapshot, u, WebResetEdit())
  {
    var rows := EditRows(snapshot, u, WebResetEdit());
    status.rows := rows;
  }

  /**
   * The second write corrected: re-read the table before lowering the flag,
   * as reset_web_scan of app.py does.
   */
  method LowerWebScanReread(u: Uid, status: TableFile<StatusRow>)
    modifies status
    ensures status.rows == Update(old(status.rows), u, WebResetEdit())
  {
    WebApp.ResetWebScan(u, status);
  }
}
