/**
 * The registry of enrolled chips (chip_data.csv, and archived.csv which has
 * the same columns) and the in-memory `known_chips` dictionary the hardware
 * scripts build from it.
 */
module Registry {
  import opened Tables

  /**
   * One registry row.  `uid` is the column the variant keys by: "UID" in
   * nfc_scanner.py and app.py, "IUD" in test.py and nfc_test.py.
   */
  datatype Chip = Chip(id: string, uid: Uid, fid: string, pid: string, sb: string, tb: string, tr: string, dr: string)

  function ChipKey(c: Chip): Uid { c.uid }

  /** The fields of the enrollment form (request.form). */
  datatype Form = Form(id: string, fid: string, pid: string, sb: string, tb: string, tr: string)

  /**
   * The registry row an enrollment appends: the form's fields, the pending
   * UID, and the "DR" timestamp, which the caller supplies in place of the
   * clock.
   */
  function Enrolled(f: Form, u: Uid, dr: string): Chip
  {
    Chip(f.id, u, f.fid, f.pid, f.sb, f.tb, f.tr, dr)
  }

  /**
   * `known_chips`: a Python dictionary, so its keys keep the order in which
   * they were first inserted; `order` lists them, `chips` holds the rows.
   */
  datatype KnownChips = KnownChips(order: seq<Uid>, chips: map<Uid, Chip>)

  /** Each key listed once, and exactly the keys of the map. */
  ghost predicate WellFormed(k: KnownChips)
  {
    Distinct(k.order) && forall u :: u in k.chips <==> u in k.order
  }

  /** The empty dictionary `{}`, and what `known_chips.clear()` leaves. */
  const NoChips := KnownChips([], map[])

  /** `known_chips[row[col]] = row`: an existing key keeps its position. */
  function Put(k: KnownChips, c: Chip): KnownChips
  {
    KnownChips(if c.uid in k.chips then k.order else k.order + [c.uid], k.chips[c.uid := c])
  }

  /** The loop `for row in reader: known_chips[row[col]] = row` run on a dictionary holding `k`. */
  function Load(k: KnownChips, rows: seq<Chip>): KnownChips
    decreases |rows|
  {
    if rows == [] then k else Put(Load(k, rows[..|rows| - 1]), rows[|rows| - 1])
  }

  /**
   * Loading adds or overwrites entries and never removes one: the map is
   * the old one overridden by the registry's index, so the registry's later
   * rows win.
   */
  lemma {:induction false} LoadChips(k: KnownChips, rows: seq<Chip>)
    ensures Load(k, rows).chips == k.chips + Index(rows, ChipKey)
    decreases |rows|
  {
    if rows != [] {
      var p, c := rows[..|rows| - 1], rows[|rows| - 1];
      var ip := Index(p, ChipKey);
      LoadChips(k, p);
      assert Load(k, rows).chips == Load(k, p).chips[c.uid := c];
      assert Index(rows, ChipKey) == ip[c.uid := c];
      MapOverride(k.chips, ip, c.uid, c);
    }
  }

  /** Overriding then updating is overriding with the updated map. */
  lemma MapOverride(a: map<Uid, Chip>, b: map<Uid, Chip>, x: Uid, c: Chip)
    ensures (a + b)[x := c] == a + b[x := c]
  {
  }

  /** Keys already present keep their positions, and a well-formed dictionary stays well formed. */
  lemma {:induction false} LoadOrder(k: KnownChips, rows: seq<Chip>)
    ensures |k.order| <= |Load(k, rows).order| && Load(k, rows).order[..|k.order|] == k.order
    ensures WellFormed(k) ==> WellFormed(Load(k, rows))
    decreases |rows|
  {
    if rows != [] {
      var p, c := rows[..|rows| - 1], rows[|rows| - 1];
      LoadOrder(k, p);
      PutSpec(Load(k, p), c);
    }
  }

  /** One insertion keeps the dictionary well formed and only extends its order. */
  lemma PutSpec(k: KnownChips, c: Chip)
    ensures |k.order| <= |Put(k, c).order| && Put(k, c).order[..|k.order|] == k.order
    ensures WellFormed(k) ==> WellFormed(Put(k, c))
  {
  }

  /**
   * load_known_chips of nfc_scanner.py: the dictionary is cleared, then
   * filled from the registry when the file exists.
   */
  function Reloaded(present: bool, rows: seq<Chip>): KnownChips
  {
    if present then Load(NoChips, rows) else NoChips
  }

  /**
   * After a reload the dictionary holds exactly the registry's UIDs, each
   * with the registry's last row for it; it is empty when the file is
   * missing.
   */
  lemma ReloadedSpec(present: bool, rows: seq<Chip>)
    ensures WellFormed(Reloaded(present, rows))
    ensures forall u :: u in Reloaded(present, rows).chips <==> present && HasKey(rows, ChipKey, u)
    ensures forall u :: u in Reloaded(present, rows).chips ==> Some(Reloaded(present, rows).chips[u]) == Last(rows, ChipKey, u)
  {
    assert WellFormed(NoChips);
    LoadChips(NoChips, rows);
    LoadOrder(NoChips, rows);
    if present {
      assert NoChips.chips + Index(rows, ChipKey) == Index(rows, ChipKey);
    }
  }

  /**
   * The UIDs of `rows` in order of first appearance: a later row of a UID
   * already seen adds nothing.
   */
  function FirstSeen(rows: seq<Chip>): (r: seq<Uid>)
    ensures Distinct(r)
    ensures forall u :: u in r <==> HasKey(rows, ChipKey, u)
    decreases |rows|
  {
    if rows == [] then []
    else
      var p, c := rows[..|rows| - 1], rows[|rows| - 1];
      FirstSeen(p) + if HasKey(p, ChipKey, c.uid) then [] else [c.uid]
  }

  /**
   * After a reload the dictionary's key order is the registry's UIDs in
   * order of first appearance: overwriting a key by a later duplicate keeps
   * its first position.  This is the order initialize_scan_status writes in.
   */
  lemma {:induction false} ReloadedOrder(rows: seq<Chip>)
    ensures Reloaded(true, rows).order == FirstSeen(rows)
    decreases |rows|
  {
    if rows != [] {
      var p, c := rows[..|rows| - 1], rows[|rows| - 1];
      ReloadedOrder(p);
      LoadChips(NoChips, p);
      assert NoChips.chips + Index(p, ChipKey) == Index(p, ChipKey);
      assert c.uid in Load(NoChips, p).chips <==> HasKey(p, ChipKey, c.uid);
    }
  }

  /**
   * The additive load of test.py and nfc_test.py: every key the dictionary
   * had stays, every registry UID is added with its last row, and entries the
   * registry does not mention are untouched.
   */
  lemma LoadKeeps(k: KnownChips, rows: seq<Chip>, u: Uid)
    ensures u in k.chips ==> u in Load(k, rows).chips
    ensures HasKey(rows, ChipKey, u) ==> u in Load(k, rows).chips && Some(Load(k, rows).chips[u]) == Last(rows, ChipKey, u)
    ensures !HasKey(rows, ChipKey, u) && u in k.chips ==> Load(k, rows).chips[u] == k.chips[u]
  {
    LoadChips(k, rows);
  }
}
