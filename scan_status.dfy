/**
 * The four-column scan_status.csv table shared by the hardware poller and
 * the web side (nfc_scanner.py, test.py, app.py): one row per tag UID with
 * the flags "Web scan", "Host scan" and "new".
 *
 * Every read site compares a flag's text with "True", and every write
 * stores "True", "False" or the text it read, so each flag is a `bool` here:
 * any text other than "True" behaves as "False".
 */
module ScanStatus {
  import opened Tables

  datatype StatusRow = StatusRow(uid: Uid, webScan: bool, hostScan: bool, isNew: bool)

  /** The "Sample UID" (or "Sample IUD") column. */
  function Key(r: StatusRow): Uid { r.uid }

  /** The row initialize_scan_status writes for a known UID it has no row for. */
  function Blank(u: Uid): StatusRow { StatusRow(u, false, false, false) }

  /** The row update_scan_status appends for a new tag that has no row yet. */
  function Arrival(u: Uid): StatusRow { StatusRow(u, false, true, true) }

  /**
   * What one rewrite does to every row of the target UID: each flag is set
   * to the given value, or left as read when the entry is `None`.
   */
  datatype FlagEdit = FlagEdit(web: Option<bool>, host: Option<bool>, isNew: Option<bool>)

  function Set(v: Option<bool>, current: bool): bool
  {
    if v.Some? then v.value else current
  }

  function Apply(e: FlagEdit, r: StatusRow): StatusRow
  {
    StatusRow(r.uid, Set(e.web, r.webScan), Set(e.host, r.hostScan), Set(e.isNew, r.isNew))
  }

  /** Phase 1 of update_scan_status: "Host scan" True, and "new" True for a new tag. */
  function MarkEdit(isNew: bool): FlagEdit
  {
    FlagEdit(None, Some(true), if isNew then Some(true) else None)
  }

  /** nfc_scanner.py, after the acknowledgement: all three flags False. */
  function ClearAllEdit(): FlagEdit
  {
    FlagEdit(Some(false), Some(false), Some(false))
  }

  /** test.py, after the acknowledgement: "Host scan" and "new" False. */
  function ClearHostNewEdit(): FlagEdit
  {
    FlagEdit(None, Some(false), Some(false))
  }

  /** Both hosts, after the dwell for a known tag: "Host scan" False. */
  function ClearHostEdit(): FlagEdit
  {
    FlagEdit(None, Some(false), None)
  }

  /** app.py's acknowledgement: "new" False and "Web scan" True. */
  function AckEdit(): FlagEdit
  {
    FlagEdit(Some(true), None, Some(false))
  }

  /** test.py's acknowledgement: "Web scan" True. */
  function WebRaiseEdit(): FlagEdit
  {
    FlagEdit(Some(true), None, None)
  }

  /** The delayed reset of both web sides: "Web scan" False. */
  function WebResetEdit(): FlagEdit
  {
    FlagEdit(Some(false), None, None)
  }

  /**
   * What each rewrite of the three programs does to a row of its UID; the
   * UID itself is never changed.
   */
  lemma EditEffects(r: StatusRow, isNew: bool)
    ensures Apply(MarkEdit(isNew), r) == r.(hostScan := true, isNew := isNew || r.isNew)
    ensures Apply(ClearAllEdit(), r) == Blank(r.uid)
    ensures Apply(ClearHostNewEdit(), r) == r.(hostScan := false, isNew := false)
    ensures Apply(ClearHostEdit(), r) == r.(hostScan := false)
    ensures Apply(AckEdit(), r) == r.(webScan := true, isNew := false)
    ensures Apply(WebRaiseEdit(), r) == r.(webScan := true)
    ensures Apply(WebResetEdit(), r) == r.(webScan := false)
  {
  }

  /** The flag-wise composition: `e2` wins wherever it sets a flag. */
  function Then(e1: FlagEdit, e2: FlagEdit): FlagEdit
  {
    FlagEdit(if e2.web.Some? then e2.web else e1.web,
             if e2.host.Some? then e2.host else e1.host,
             if e2.isNew.Some? then e2.isNew else e1.isNew)
  }

  /**
   * One read-modify-rewrite: every row of `u` edited, every other row as
   * read, same order and count.
   */
  function Update(t: seq<StatusRow>, u: Uid, e: FlagEdit): (r: seq<StatusRow>)
    ensures |r| == |t|
    ensures forall i :: 0 <= i < |t| ==> r[i] == if t[i].uid == u then Apply(e, t[i]) else t[i]
  {
    seq(|t|, i requires 0 <= i < |t| => if t[i].uid == u then Apply(e, t[i]) else t[i])
  }

  /** Two rewrites of the same UID are one rewrite with the composed edit. */
  lemma UpdateThen(t: seq<StatusRow>, u: Uid, e1: FlagEdit, e2: FlagEdit)
    ensures Update(Update(t, u, e1), u, e2) == Update(t, u, Then(e1, e2))
  {
  }

  /** Every rewrite is idempotent: doing it again changes nothing. */
  lemma UpdateIdempotent(t: seq<StatusRow>, u: Uid, e: FlagEdit)
    ensures Update(Update(t, u, e), u, e) == Update(t, u, e)
  {
    UpdateThen(t, u, e, e);
    assert Then(e, e) == e;
  }

  /** Rewrites of different UIDs commute. */
  lemma UpdateCommutes(t: seq<StatusRow>, u: Uid, e: FlagEdit, v: Uid, f: FlagEdit)
    requires u != v
    ensures Update(Update(t, u, e), v, f) == Update(Update(t, v, f), u, e)
  {
  }

  /** A rewrite of a UID the table has no row for rewrites the same table. */
  lemma UpdateAbsent(t: seq<StatusRow>, u: Uid, e: FlagEdit)
    requires !HasKey(t, Key, u)
    ensures Update(t, u, e) == t
  {
  }

  /**
   * Phase 1 of update_scan_status (nfc_scanner.py:73-90, test.py:78-95):
   * "Host scan" True on the UID's rows, "new" True there only for a new tag,
   * other rows as read; one (False, True, True) row appended exactly when the
   * table had no row for the UID and the tag is new.
   */
  function Detected(t: seq<StatusRow>, u: Uid, isNew: bool): (r: seq<StatusRow>)
    ensures |r| == |t| + (if isNew && !HasKey(t, Key, u) then 1 else 0)
    ensures forall i :: 0 <= i < |t| ==> r[i].uid == t[i].uid && r[i].webScan == t[i].webScan
    ensures forall i :: 0 <= i < |t| && t[i].uid != u ==> r[i] == t[i]
    ensures forall i :: 0 <= i < |t| && t[i].uid == u ==> r[i].hostScan && r[i].isNew == (isNew || t[i].isNew)
    ensures |r| > |t| ==> r[|t|] == Arrival(u)
    ensures HasKey(r, Key, u) <==> HasKey(t, Key, u) || isNew
  {
    var found := HasKey(t, Key, u);
    var r := Update(t, u, MarkEdit(isNew)) + if isNew && !found then [Arrival(u)] else [];
    assert forall i :: 0 <= i < |t| ==> Key(r[i]) == Key(t[i]);
    assert isNew && !found ==> Key(r[|t|]) == u;
    r
  }

  /**
   * What one pass of a host's scanning loop did with the reader's answer:
   * nothing read, a tag handled to the end, or a new tag still waiting for
   * the acknowledgement.
   */
  datatype Step = NoCard | Handled(uid: Uid, isNew: bool) | Waiting(uid: Uid)

  /** Some row is flagged "new". */
  predicate HasNew(t: seq<StatusRow>)
  {
    exists i :: 0 <= i < |t| && t[i].isNew
  }

  /**
   * check_new_scan (app.py:18-25): the UID of the first row flagged "new",
   * None when there is none.
   */
  function FirstNew(t: seq<StatusRow>): (r: Option<Uid>)
    ensures r.None? <==> !HasNew(t)
    ensures r.Some? ==> exists i :: 0 <= i < |t| && t[i].isNew && t[i].uid == r.value
                            && forall j :: 0 <= j < i ==> !t[j].isNew
  {
    if t == [] then None
    else if t[0].isNew then Some(t[0].uid)
    else
      var r := FirstNew(t[1..]);
      assert forall i :: 1 <= i < |t| ==> t[1..][i - 1] == t[i];
      r
  }

  /** The first flagged row determines the answer. */
  lemma {:induction false} FirstNewAt(t: seq<StatusRow>, i: nat)
    requires i < |t| && t[i].isNew
    requires forall j :: 0 <= j < i ==> !t[j].isNew
    ensures FirstNew(t) == Some(t[i].uid)
  {
    if i > 0 {
      assert t[1..][i - 1] == t[i];
      FirstNewAt(t[1..], i - 1);
    }
  }

  /** Some row of `u` has "Web scan" True: the condition the host waits for. */
  predicate AckIn(t: seq<StatusRow>, u: Uid)
  {
    exists i :: 0 <= i < |t| && t[i].uid == u && t[i].webScan
  }

  /**
   * active_uid of get_chip_data (app.py:276-284): the UID of the last row
   * whose "Host scan" is True.
   */
  function LastActive(t: seq<StatusRow>): Option<Uid>
    decreases |t|
  {
    if t == [] then None
    else if t[|t| - 1].hostScan then Some(t[|t| - 1].uid)
    else LastActive(t[..|t| - 1])
  }

  /** None exactly when no row has "Host scan" True; otherwise the UID of the last such row. */
  lemma {:induction false} LastActiveSpec(t: seq<StatusRow>)
    ensures LastActive(t).None? <==> forall i :: 0 <= i < |t| ==> !t[i].hostScan
    ensures LastActive(t).Some? ==> exists i :: 0 <= i < |t| && t[i].hostScan && t[i].uid == LastActive(t).value
                                        && forall j :: i < j < |t| ==> !t[j].hostScan
    decreases |t|
  {
    if t != [] && !t[|t| - 1].hostScan {
      var p := t[..|t| - 1];
      LastActiveSpec(p);
      assert forall i :: 0 <= i < |p| ==> p[i] == t[i];
    }
  }

  /**
   * The "Host scan" text get_chip_data joins onto a registry row
   * (app.py:282, 289): that of the last status row of `u`, "False" when
   * there is none.
   */
  function HostOf(t: seq<StatusRow>, u: Uid): bool
  {
    var last := Last(t, Key, u);
    if last.Some? then last.value.hostScan else false
  }

  /** True exactly when some row of `u` has "Host scan" True and no later row is `u`'s. */
  lemma HostOfSpec(t: seq<StatusRow>, u: Uid)
    ensures HostOf(t, u) <==> exists i :: 0 <= i < |t| && t[i].uid == u && t[i].hostScan
                                  && forall j :: i < j < |t| ==> t[j].uid != u
  {
    if HostOf(t, u) {
      var i :| 0 <= i < |t| && t[i] == Last(t, Key, u).value && forall j :: i < j < |t| ==> Key(t[j]) != u;
    }
    if exists i :: 0 <= i < |t| && t[i].uid == u && t[i].hostScan && forall j :: i < j < |t| ==> t[j].uid != u {
      var i :| 0 <= i < |t| && t[i].uid == u && t[i].hostScan && forall j :: i < j < |t| ==> t[j].uid != u;
      LastAt(t, Key, i);
    }
  }

  /** A row appended after the others decides the joined flag of its UID. */
  lemma HostOfSnoc(p: seq<StatusRow>, x: StatusRow, u: Uid)
    ensures HostOf(p + [x], u) == if x.uid == u then x.hostScan else HostOf(p, u)
  {
    assert (p + [x])[..|p|] == p;
  }

  /** A row appended after the others is the active one when its "Host scan" is True. */
  lemma LastActiveSnoc(p: seq<StatusRow>, x: StatusRow)
    ensures LastActive(p + [x]) == if x.hostScan then Some(x.uid) else LastActive(p)
  {
    assert (p + [x])[..|p|] == p;
  }
}
