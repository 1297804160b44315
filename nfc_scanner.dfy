/**
 * nfc_scanner.py: the hardware poller paired with app.py.  Both key the
 * scan-status table by "Sample UID" and the registry by "UID".
 *
 * The reader is an optional UID per pass of the main loop; the tables the
 * host reads while it waits for the web side's acknowledgement are given as
 * a finite sequence of observations.
 */
module NfcScanner {
  import opened Tables
  import opened ScanStatus
  import opened Registry
  import opened Files

  /** The phase-2 edit: a new tag is cleared completely, a known one only loses "Host scan". */
  function FinalEdit(isNew: bool): FlagEdit
  {
    if isNew then ClearAllEdit() else ClearHostEdit()
  }

  /** Phase 2 on a row of the tag: a new tag ends with all three flags False, a known one loses only "Host scan". */
  lemma FinalEditEffect(isNew: bool, r: StatusRow)
    ensures Apply(FinalEdit(isNew), r) == if isNew then Blank(r.uid) else r.(hostScan := false)
  {
  }

  /** The process's global state: the `known_chips` dictionary. */
  class Scanner {
    var known: KnownChips

    constructor ()
      ensures known == NoChips
    {
      known := NoChips;
    }

    /**
     * load_known_chips: clear the dictionary, then, if the registry exists,
     * store each row under its "UID".
     */
    method LoadKnownChips(chips: ChipFile)
      modifies this`known
      ensures known == Reloaded(chips.present, chips.rows)
    {
      known := NoChips;
      if !chips.present {
        return;
      }
      known := ReadKnown(known, chips.rows);
    }

    /** initialize_scan_status: one row per known UID, existing flags kept. */
    method InitializeScanStatus(status: TableFile<StatusRow>)
      modifies status
      ensures status.rows == Reconcile(known.order, old(status.rows), Key, Blank)
    {
      ReconcileFile(status, known.order, Key, Blank);
    }

    /**
     * update_scan_status up to its first write: reload, reconcile, mark the
     * tag's rows and write.  The rows written are the snapshot the host
     * keeps for its final write.
     */
    method Detect(u: Uid, isNew: bool, chips: ChipFile, status: TableFile<StatusRow>) returns (snapshot: seq<StatusRow>)
      modifies this`known, status
      ensures known == Reloaded(chips.present, chips.rows)
      ensures snapshot == Detected(Reconcile(known.order, old(status.rows), Key, Blank), u, isNew)
      ensures status.rows == snapshot
    {
      LoadKnownChips(chips);
      InitializeScanStatus(status);
      snapshot := MarkDetected(status, u, isNew);
    }

    /**
     * update_scan_status as a whole: the first write, the wait (only for a
     * new tag) over the tables the host reads, and the final write, computed
     * from the snapshot and not from any table read in between.  `done` is
     * false when the observations end before an acknowledgement shows.
     */
    method UpdateScanStatus(u: Uid, isNew: bool, chips: ChipFile, status: TableFile<StatusRow>,
                            observed: seq<seq<StatusRow>>) returns (done: bool)
      modifies this`known, status
      ensures known == Reloaded(chips.present, chips.rows)
      ensures done <==> !isNew || exists k :: 0 <= k < |observed| && AckIn(observed[k], u)
      ensures var snapshot := Detected(Reconcile(known.order, old(status.rows), Key, Blank), u, isNew);
              status.rows == if done then Update(snapshot, u, FinalEdit(isNew)) else snapshot
    {
      var snapshot := Detect(u, isNew, chips, status);
      if isNew {
        var seen := AwaitAck(u, observed);
        if seen.None? {
          return false;
        }
        assert AckIn(observed[seen.value], u);
      }
      var rows := EditRows(snapshot, u, FinalEdit(isNew));
      status.rows := rows;
      done := true;
    }

    /**
     * One pass of the main loop: reload, reconcile, read the reader; a tag
     * is new exactly when its UID is not a key of `known_chips`.
     */
    method MainLoopStep(reading: Option<Uid>, chips: ChipFile, status: TableFile<StatusRow>,
                        observed: seq<seq<StatusRow>>) returns (step: Step)
      modifies this`known, status
      ensures known == Reloaded(chips.present, chips.rows)
      ensures reading.None? ==> step == NoCard && status.rows == Reconcile(known.order, old(status.rows), Key, Blank)
      ensures reading.Some? ==>
                var u, isNew := reading.value, reading.value !in known.chips;
                var snapshot := Detected(Reconcile(known.order, old(status.rows), Key, Blank), u, isNew);
                && (step == Handled(u, isNew) || step == Waiting(u))
                && (step.Waiting? <==> isNew && forall k :: 0 <= k < |observed| ==> !AckIn(observed[k], u))
                && status.rows == if step.Handled? then Update(snapshot, u, FinalEdit(isNew)) else snapshot
    {
      LoadKnownChips(chips);
      InitializeScanStatus(status);
      ghost var reconciled := status.rows;
      ReloadedSpec(chips.present, chips.rows);
      ReconcileIdempotent(known.order, old(status.rows), Key, Blank);
      if reading.None? {
        return NoCard;
      }
      var u := reading.value;
      var isNew := u !in known.chips;
      var done := UpdateScanStatus(u, isNew, chips, status, observed);
      step := if done then Handled(u, isNew) else Waiting(u);
    }
  }
}
