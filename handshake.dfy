/**
 * The handshake between a host and a web side, walked step by step on the
 * shared scan-status table.  Each step is the table one side writes; a host
 * computes its final write from its phase-1 snapshot, never from a re-read.
 */
module Handshake {
  import opened Tables
  import opened ScanStatus
  import opened Registry

  /** Every row of `u` has all three flags False. */
  predicate Idle(t: seq<StatusRow>, u: Uid)
  {
    forall i :: 0 <= i < |t| && t[i].uid == u ==> !t[i].webScan && !t[i].hostScan && !t[i].isNew
  }

  /** `u` has rows, and the rows flagged "new" are exactly its rows. */
  predicate Pending(s: seq<StatusRow>, u: Uid)
  {
    HasKey(s, Key, u) && forall i :: 0 <= i < |s| ==> (s[i].isNew <==> s[i].uid == u)
  }

  /** Every row of `u` has "Host scan" True. */
  predicate Scanning(s: seq<StatusRow>, u: Uid)
  {
    forall i :: 0 <= i < |s| && s[i].uid == u ==> s[i].hostScan
  }

  /**
   * After a new tag is marked on a table with nothing pending, it is the
   * only pending tag and all its rows are being scanned.
   */
  lemma MarkedRows(t0: seq<StatusRow>, u: Uid)
    requires !HasNew(t0)
    ensures Pending(Detected(t0, u, true), u) && Scanning(Detected(t0, u, true), u)
  {
  }

  /** The only pending tag is the one check_new_scan returns. */
  lemma PendingIsFirst(s: seq<StatusRow>, u: Uid)
    requires Pending(s, u)
    ensures FirstNew(s) == Some(u)
  {
    var k :| 0 <= k < |s| && Key(s[k]) == u;
    assert s[k].isNew;
  }

  /** With no tag pending, a freshly marked new tag is the UID check_new_scan returns. */
  lemma NewTagIsPending(t0: seq<StatusRow>, u: Uid)
    requires !HasNew(t0)
    ensures FirstNew(Detected(t0, u, true)) == Some(u)
  {
    MarkedRows(t0, u);
    PendingIsFirst(Detected(t0, u, true), u);
  }

  /** Phase 1 and any later rewrite of `u` leave the rows of other UIDs as the host read them. */
  lemma OthersUntouched(t0: seq<StatusRow>, u: Uid, e: FlagEdit)
    ensures forall i :: 0 <= i < |t0| && t0[i].uid != u ==> Update(Detected(t0, u, true), u, e)[i] == t0[i]
  {
  }

  /** A rewrite that leaves "new" alone leaves the pending UID alone. */
  lemma FirstNewKeptBy(t: seq<StatusRow>, u: Uid, e: FlagEdit)
    requires e.isNew.None?
    ensures FirstNew(Update(t, u, e)) == FirstNew(t)
  {
    var r := Update(t, u, e);
    if HasNew(t) {
      var i :| 0 <= i < |t| && t[i].isNew && t[i].uid == FirstNew(t).value
                && forall j :: 0 <= j < i ==> !t[j].isNew;
      FirstNewAt(r, i);
    } else {
      assert !HasNew(r);
    }
  }

  /**
   * The full clear leaves `u` idle, and when no other row was flagged "new"
   * nothing is pending afterwards.
   */
  lemma ClearedIsIdle(t: seq<StatusRow>, u: Uid)
    requires forall i :: 0 <= i < |t| && t[i].uid != u ==> !t[i].isNew
    ensures Idle(Update(t, u, ClearAllEdit()), u) && !HasNew(Update(t, u, ClearAllEdit()))
  {
  }

  /** An edit that raises "Web scan" on a UID the table has rows for is an acknowledgement the host sees. */
  lemma AckVisible(t: seq<StatusRow>, u: Uid, e: FlagEdit)
    requires HasKey(t, Key, u) && e.web == Some(true)
    ensures AckIn(Update(t, u, e), u)
  {
    var k :| 0 <= k < |t| && Key(t[k]) == u;
    assert Update(t, u, e)[k].webScan;
  }

  /**
   * Clearing all three flags overrides every earlier edit of the same UID,
   * so the host's write of its snapshot equals a write of a re-read taken
   * after any mix of acknowledgement and reset.
   */
  lemma ClearAllOverrides(t: seq<StatusRow>, u: Uid, e: FlagEdit)
    ensures Update(Update(t, u, e), u, ClearAllEdit()) == Update(t, u, ClearAllEdit())
    ensures Update(Update(t, u, ClearAllEdit()), u, WebResetEdit()) == Update(t, u, ClearAllEdit())
  {
    UpdateThen(t, u, e, ClearAllEdit());
    assert Then(e, ClearAllEdit()) == ClearAllEdit();
    UpdateThen(t, u, ClearAllEdit(), WebResetEdit());
    assert Then(ClearAllEdit(), WebResetEdit()) == ClearAllEdit();
  }

  /**
   * The handoff between nfc_scanner.py and app.py once the host has written
   * its phase-1 snapshot s1 with `u` the only pending tag: the web side
   * finds `u` and acknowledges (s2); the host sees it and writes s1 cleared.
   * Writing the snapshot instead of a re-read loses nothing, the web side's
   * delayed reset changes nothing whether it lands before or after the
   * host's write, and the tag ends idle with nothing pending.
   */
  lemma ScannerHandoff(s1: seq<StatusRow>, u: Uid)
    requires Pending(s1, u)
    ensures FirstNew(s1) == Some(u)
    ensures AckIn(Update(s1, u, AckEdit()), u)
    ensures Update(Update(s1, u, AckEdit()), u, ClearAllEdit()) == Update(s1, u, ClearAllEdit())
    ensures Update(Update(Update(s1, u, AckEdit()), u, WebResetEdit()), u, ClearAllEdit()) == Update(s1, u, ClearAllEdit())
    ensures Update(Update(s1, u, ClearAllEdit()), u, WebResetEdit()) == Update(s1, u, ClearAllEdit())
    ensures Idle(Update(s1, u, ClearAllEdit()), u) && !HasNew(Update(s1, u, ClearAllEdit()))
  {
    PendingIsFirst(s1, u);
    AckVisible(s1, u, AckEdit());
    ClearAllOverrides(s1, u, AckEdit());
    ClearAllOverrides(Update(s1, u, AckEdit()), u, WebResetEdit());
    ClearedIsIdle(s1, u);
  }

  /**
   * A new tag with nfc_scanner.py as host and app.py as web side, from the
   * reconciled table t0 with nothing pending: the handoff above applies to
   * the phase-1 snapshot, and every other UID's rows end as in t0.
   */
  lemma ScannerNewTag(t0: seq<StatusRow>, u: Uid)
    requires !HasNew(t0)
    ensures Pending(Detected(t0, u, true), u)
    ensures Idle(Update(Detected(t0, u, true), u, ClearAllEdit()), u)
    ensures !HasNew(Update(Detected(t0, u, true), u, ClearAllEdit()))
    ensures forall i :: 0 <= i < |t0| && t0[i].uid != u ==> Update(Detected(t0, u, true), u, ClearAllEdit())[i] == t0[i]
  {
    MarkedRows(t0, u);
    ScannerHandoff(Detected(t0, u, true), u);
    OthersUntouched(t0, u, ClearAllEdit());
  }

  /**
   * A known tag with either host: the dwell's two writes amount to clearing
   * "Host scan" on the tag's rows of the table the host started from.
   */
  lemma ScannerKnownTag(t0: seq<StatusRow>, u: Uid)
    ensures Update(Detected(t0, u, false), u, ClearHostEdit()) == Update(t0, u, ClearHostEdit())
  {
    UpdateThen(t0, u, MarkEdit(false), ClearHostEdit());
    assert Then(MarkEdit(false), ClearHostEdit()) == ClearHostEdit();
  }

  /**
   * After an enrollment the registry's last row for the UID is the one
   * appended, so the next reload knows the tag and classifies it known.
   */
  lemma EnrolledIsKnown(rows: seq<Chip>, f: Form, u: Uid, dr: string)
    ensures u in Reloaded(true, rows + [Enrolled(f, u, dr)]).chips
    ensures Reloaded(true, rows + [Enrolled(f, u, dr)]).chips[u] == Enrolled(f, u, dr)
  {
    var all := rows + [Enrolled(f, u, dr)];
    ReloadedSpec(true, all);
    LastAt(all, ChipKey, |rows|);
  }

  /** An edit that lowers "new" on the only UID whose rows carry it leaves nothing pending. */
  lemma PendingCleared(t: seq<StatusRow>, u: Uid, e: FlagEdit)
    requires e.isNew == Some(false)
    requires forall i :: 0 <= i < |t| && t[i].uid != u ==> !t[i].isNew
    ensures !HasNew(Update(t, u, e))
  {
  }

  /**
   * A new tag in test.py, as written, from the host's phase-1 snapshot s1
   * with `u` the only pending tag and being scanned.  The web side's
   * blocking check_new_scan finds `u`, and it raises "Web scan" on its
   * snapshot (w); the host, polling every second, sees it and writes s1 with
   * "Host scan" and "new" cleared (h), so nothing is pending; five seconds
   * later the web side writes its snapshot w with "Web scan" lowered.  That
   * last write undoes the host's: the tag's rows have "Host scan" and "new"
   * True again and it is once more the pending tag.
   */
  lemma TestPulseAsWritten(s1: seq<StatusRow>, u: Uid)
    requires Pending(s1, u) && Scanning(s1, u)
    ensures FirstNew(s1) == Some(u)
    ensures AckIn(Update(s1, u, WebRaiseEdit()), u)
    ensures !HasNew(Update(s1, u, ClearHostNewEdit()))
    ensures Update(Update(s1, u, WebRaiseEdit()), u, WebResetEdit()) == Update(s1, u, WebResetEdit())
    ensures FirstNew(Update(s1, u, WebResetEdit())) == Some(u)
    ensures Pending(Update(s1, u, WebResetEdit()), u) && Scanning(Update(s1, u, WebResetEdit()), u)
  {
    PendingIsFirst(s1, u);
    AckVisible(s1, u, WebRaiseEdit());
    PendingCleared(s1, u, ClearHostNewEdit());
    UpdateThen(s1, u, WebRaiseEdit(), WebResetEdit());
    assert Then(WebRaiseEdit(), WebResetEdit()) == WebResetEdit();
    FirstNewKeptBy(s1, u, WebResetEdit());
    WebEditKeepsPending(s1, u, WebResetEdit());
  }

  /** An edit of "Web scan" alone keeps the tag pending and being scanned. */
  lemma WebEditKeepsPending(s: seq<StatusRow>, u: Uid, e: FlagEdit)
    requires e.isNew.None? && e.host.None?
    requires Pending(s, u) && Scanning(s, u)
    ensures Pending(Update(s, u, e), u) && Scanning(Update(s, u, e), u)
  {
    var f := Update(s, u, e);
    var k :| 0 <= k < |s| && Key(s[k]) == u;
    assert Key(f[k]) == u;
  }

  /**
   * The same walk with the second write corrected to re-read the table: the
   * web side lowers "Web scan" on the host's write h, and the tag ends idle
   * with nothing pending, exactly as nfc_scanner.py's own clear leaves it.
   */
  lemma TestPulseCorrected(s1: seq<StatusRow>, u: Uid)
    requires Pending(s1, u)
    ensures Update(Update(s1, u, ClearHostNewEdit()), u, WebResetEdit()) == Update(s1, u, ClearAllEdit())
    ensures Idle(Update(s1, u, ClearAllEdit()), u) && !HasNew(Update(s1, u, ClearAllEdit()))
  {
    UpdateThen(s1, u, ClearHostNewEdit(), WebResetEdit());
    assert Then(ClearHostNewEdit(), WebResetEdit()) == ClearAllEdit();
    ClearedIsIdle(s1, u);
  }
}
