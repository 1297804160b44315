/**
 * nfc_test.py: the console-only poller.  Its scan-status table has two flags
 * ("Web scan", "Host scan") keyed by "Sample IUD", and only tags already in
 * the registry are reported through it.
 */
module NfcTest {
  import opened Tables
  import opened Registry
  import opened Files

  datatype PairRow = PairRow(uid: Uid, webScan: bool, hostScan: bool)

  function PairKey(r: PairRow): Uid { r.uid }

  /** The row initialize_scan_status writes for a known UID it has no row for. */
  function PairBlank(u: Uid): PairRow { PairRow(u, false, false) }

  /**
   * One pass over the two-flag table: "Host scan" set to `b` on every row of
   * `u`; nothing appended, nothing else changed.
   */
  function HostSet(t: seq<PairRow>, u: Uid, b: bool): (r: seq<PairRow>)
    ensures |r| == |t|
    ensures forall i :: 0 <= i < |t| ==> r[i].uid == t[i].uid && r[i].webScan == t[i].webScan
    ensures forall i :: 0 <= i < |t| ==> r[i].hostScan == if t[i].uid == u then b else t[i].hostScan
  {
    seq(|t|, i requires 0 <= i < |t| => if t[i].uid == u then t[i].(hostScan := b) else t[i])
  }

  /** The second write undoes the first: only the final value of the flag matters. */
  lemma HostSetTwice(t: seq<PairRow>, u: Uid, a: bool, b: bool)
    ensures HostSet(HostSet(t, u, a), u, b) == HostSet(t, u, b)
  {
  }

  /** A UID with no row leaves the table as it was: no row is appended. */
  lemma HostSetAbsent(t: seq<PairRow>, u: Uid, b: bool)
    requires !HasKey(t, PairKey, u)
    ensures HostSet(t, u, b) == t
  {
    assert forall i :: 0 <= i < |t| ==> PairKey(t[i]) != u;
  }

  /** What one pass of the main loop did with the reader's answer. */
  datatype Step = NoCard | Reported(uid: Uid) | Unknown(uid: Uid)

  /** The script's global `known_chips`. */
  class LegacyHost {
    var known: KnownChips

    constructor ()
      ensures known == NoChips
    {
      known := NoChips;
    }

    /** load_known_chips: additive, and a no-op without a registry. */
    method LoadKnownChips(chips: ChipFile)
      modifies this`known
      ensures known == if chips.present then Load(old(known), chips.rows) else old(known)
    {
      if !chips.present {
        return;
      }
      known := ReadKnown(known, chips.rows);
    }

    /** initialize_scan_status on the two-flag table. */
    method InitializeScanStatus(status: TableFile<PairRow>)
      modifies status
      ensures status.rows == Reconcile(known.order, old(status.rows), PairKey, PairBlank)
    {
      ReconcileFile(status, known.order, PairKey, PairBlank);
    }

    /** The start of the script: load the registry, then reconcile the table. */
    method Start(chips: ChipFile, status: TableFile<PairRow>)
      modifies this`known, status
      ensures known == if chips.present then Load(old(known), chips.rows) else old(known)
      ensures status.rows == Reconcile(known.order, old(status.rows), PairKey, PairBlank)
    {
      LoadKnownChips(chips);
      InitializeScanStatus(status);
    }

    /**
     * One pass of the main loop: a UID that is a key of `known_chips` goes
     * through update_scan_status; any other leaves the table alone (its
     * enrollment branch prompts the operator and is not modelled).
     */
    method MainLoopStep(reading: Option<Uid>, status: TableFile<PairRow>) returns (step: Step)
      modifies status
      ensures reading.None? ==> step == NoCard && status.rows == old(status.rows)
      ensures reading.Some? && reading.value in known.chips ==>
                step == Reported(reading.value) && status.rows == HostSet(old(status.rows), reading.value, false)
      ensures reading.Some? && reading.value !in known.chips ==>
                step == Unknown(reading.value) && status.rows == old(status.rows)
    {
      if reading.None? {
        return NoCard;
      }
      var u := reading.value;
      if u in known.chips {
        var _ := UpdateScanStatus(u, status);
        return Reported(u);
      }
      return Unknown(u);
    }
  }

  /** The loop shared by both writes of update_scan_status. */
  method SetHost(t: seq<PairRow>, u: Uid, b: bool) returns (r: seq<PairRow>)
    ensures r == HostSet(t, u, b)
  {
    r := [];
    var i := 0;
    while i < |t|
      invariant 0 <= i <= |t|
      invariant |r| == i
      invariant forall j :: 0 <= j < i ==> r[j] == if t[j].uid == u then t[j].(hostScan := b) else t[j]
    {
      var row := t[i];
      if row.uid == u {
        row := row.(hostScan := b);
      }
      r := r + [row];
      i := i + 1;
    }
  }

  /**
   * update_scan_status: write the table with "Host scan" True on the UID's
   * rows, and two seconds later write the same rows with it False.  The
   * returned snapshot is the first write.
   */
  method UpdateScanStatus(u: Uid, status: TableFile<PairRow>) returns (snapshot: seq<PairRow>)
    modifies status
    ensures snapshot == HostSet(old(status.rows), u, true)
    ensures status.rows == HostSet(old(status.rows), u, false)
  {
    snapshot := SetHost(status.rows, u, true);
    status.rows := snapshot;
    var rows := SetHost(snapshot, u, false);
    HostSetTwice(old(status.rows), u, true, false);
    status.rows := rows;
  }
}
