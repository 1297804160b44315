/**
 * Keyed tables.
 *
 * Every table of the system (scan_status.csv in its two layouts,
 * chip_data.csv, archived.csv) is a sequence of rows, each row naming a tag
 * UID in one of its columns.  The functions here are parameterised by a
 * `key` function that picks that column, so that the dictionary-building and
 * reconciling loops shared by all variants are defined once.
 */
module Tables {

  /** A tag UID as the hardware side writes it (the hex text of the UID bytes). */
  type Uid = string

  datatype Option<T> = None | Some(value: T)

  /** Some row of `t` has key `u`. */
  predicate HasKey<R>(t: seq<R>, key: R -> Uid, u: Uid)
  {
    exists i :: 0 <= i < |t| && key(t[i]) == u
  }

  /** All keys of `t` are different (one row per UID). */
  predicate KeysDistinct<R>(t: seq<R>, key: R -> Uid)
  {
    forall i, j :: 0 <= i < j < |t| ==> key(t[i]) != key(t[j])
  }

  /** No two entries of `s` are equal. */
  predicate Distinct(s: seq<Uid>)
  {
    forall i, j :: 0 <= i < j < |s| ==> s[i] != s[j]
  }

  /**
   * The last row of `t` whose key is `u`: the reference definition of "the
   * row a dictionary keeps when later rows overwrite earlier ones".
   */
  function Last<R>(t: seq<R>, key: R -> Uid, u: Uid): (r: Option<R>)
    ensures r.None? <==> !HasKey(t, key, u)
    ensures r.Some? ==> key(r.value) == u
    ensures r.Some? ==> exists i :: 0 <= i < |t| && t[i] == r.value
                            && forall j :: i < j < |t| ==> key(t[j]) != u
    decreases |t|
  {
    if t == [] then None
    else if key(t[|t| - 1]) == u then Some(t[|t| - 1])
    else
      var r := Last(t[..|t| - 1], key, u);
      assert forall i :: 0 <= i < |t| - 1 ==> t[..|t| - 1][i] == t[i];
      r
  }

  /** A row that is followed by no row with the same key is the last one for that key. */
  lemma {:induction false} LastAt<R>(t: seq<R>, key: R -> Uid, i: nat)
    requires i < |t|
    requires forall j :: i < j < |t| ==> key(t[j]) != key(t[i])
    ensures Last(t, key, key(t[i])) == Some(t[i])
    decreases |t|
  {
    if i < |t| - 1 {
      var p := t[..|t| - 1];
      assert p[i] == t[i];
      LastAt(p, key, i);
    }
  }

  /**
   * The dictionary that `for row in reader: d[row[col]] = row` builds: keys
   * are exactly the UIDs of the table, and each key holds the last row for it.
   */
  function Index<R>(t: seq<R>, key: R -> Uid): (m: map<Uid, R>)
    ensures forall u :: u in m <==> HasKey(t, key, u)
    ensures forall u :: u in m ==> Last(t, key, u) == Some(m[u])
    decreases |t|
  {
    if t == [] then map[]
    else
      var p := t[..|t| - 1];
      assert forall i :: 0 <= i < |p| ==> p[i] == t[i];
      Index(p, key)[key(t[|t| - 1]) := t[|t| - 1]]
  }

  /** The dictionary lookup `d[u]` if present, else `d.get(u)`'s None. */
  lemma IndexIsLast<R>(t: seq<R>, key: R -> Uid, u: Uid)
    ensures Last(t, key, u) == if u in Index(t, key) then Some(Index(t, key)[u]) else None
  {
  }

  /**
   * The reconciling rewrite of initialize_scan_status: one row per UID of
   * `order` (the known-chip keys, in dictionary order), each the last row the
   * table had for that UID, or `blank(u)` when it had none.  Rows of UIDs not
   * in `order` are dropped.
   */
  function Reconcile<R>(order: seq<Uid>, t: seq<R>, key: R -> Uid, blank: Uid -> R): (r: seq<R>)
    requires forall u :: key(blank(u)) == u
    ensures |r| == |order|
    ensures forall i :: 0 <= i < |r| ==> key(r[i]) == order[i]
    ensures forall i :: 0 <= i < |r| && HasKey(t, key, order[i]) ==> Some(r[i]) == Last(t, key, order[i])
    ensures forall i :: 0 <= i < |r| && !HasKey(t, key, order[i]) ==> r[i] == blank(order[i])
  {
    var existing := Index(t, key);
    seq(|order|, i requires 0 <= i < |order| => Pick(existing, order[i], blank))
  }

  /** `d[u]` when the dictionary has `u`, otherwise the default row for `u`. */
  function Pick<R>(d: map<Uid, R>, u: Uid, blank: Uid -> R): R
  {
    if u in d then d[u] else blank(u)
  }

  /**
   * Reconciling twice against the same known UIDs is the same as reconciling
   * once, even when `order` repeats a UID: all rows of one UID are then equal.
   */
  lemma ReconcileIdempotent<R>(order: seq<Uid>, t: seq<R>, key: R -> Uid, blank: Uid -> R)
    requires forall u :: key(blank(u)) == u
    ensures Reconcile(order, Reconcile(order, t, key, blank), key, blank) == Reconcile(order, t, key, blank)
  {
  }

  /** A reconciled table has exactly one row per UID of `order`. */
  lemma ReconcileKeysDistinct<R>(order: seq<Uid>, t: seq<R>, key: R -> Uid, blank: Uid -> R)
    requires forall u :: key(blank(u)) == u
    requires Distinct(order)
    ensures KeysDistinct(Reconcile(order, t, key, blank), key)
    ensures forall u :: HasKey(Reconcile(order, t, key, blank), key, u) <==> u in order
  {
    var r := Reconcile(order, t, key, blank);
    forall u | u in order ensures HasKey(r, key, u) {
      var i :| 0 <= i < |order| && order[i] == u;
      assert key(r[i]) == u;
    }
  }

  /**
   * The table without its rows for `u`, in the original order (the rows
   * archive_sample writes back to chip_data.csv).
   */
  function Drop<R>(t: seq<R>, key: R -> Uid, u: Uid): seq<R>
    decreases |t|
  {
    if t == [] then []
    else Drop(t[..|t| - 1], key, u) + if key(t[|t| - 1]) == u then [] else [t[|t| - 1]]
  }

  /** Dropping never lengthens the table, and a UID with no rows leaves it as it was. */
  lemma {:induction false} DropNoMatch<R>(t: seq<R>, key: R -> Uid, u: Uid)
    ensures |Drop(t, key, u)| <= |t|
    ensures !HasKey(t, key, u) ==> Drop(t, key, u) == t
    decreases |t|
  {
    if t != [] {
      var p := t[..|t| - 1];
      DropNoMatch(p, key, u);
      assert t == p + [t[|t| - 1]];
      if !HasKey(t, key, u) {
        assert !HasKey(p, key, u) by {
          assert forall i :: 0 <= i < |p| ==> p[i] == t[i];
        }
      }
    }
  }

  /** The rows of `t` for `u`, in the original order. */
  function Only<R>(t: seq<R>, key: R -> Uid, u: Uid): seq<R>
    decreases |t|
  {
    if t == [] then []
    else Only(t[..|t| - 1], key, u) + if key(t[|t| - 1]) == u then [t[|t| - 1]] else []
  }

  /**
   * Dropping the rows for `u` loses nothing else: together with the rows for
   * `u` the kept rows are a permutation of the table.
   */
  lemma {:induction false} DropSplits<R>(t: seq<R>, key: R -> Uid, u: Uid)
    ensures multiset(Drop(t, key, u)) + multiset(Only(t, key, u)) == multiset(t)
    decreases |t|
  {
    if t != [] {
      var p, x := t[..|t| - 1], t[|t| - 1];
      DropSplits(p, key, u);
      assert t == p + [x];
      var d, o := Drop(p, key, u), Only(p, key, u);
      if key(x) == u {
        assert Drop(t, key, u) == d && Only(t, key, u) == o + [x];
        MultisetSnoc(o, x);
      } else {
        assert Drop(t, key, u) == d + [x] && Only(t, key, u) == o;
        MultisetSnoc(d, x);
      }
      MultisetSnoc(p, x);
    }
  }

  lemma MultisetSnoc<R>(s: seq<R>, x: R)
    ensures multiset(s + [x]) == multiset(s) + multiset{x}
  {
  }

  /** Every row kept by `Drop` has a key other than `u`, every row `Only` keeps has key `u`. */
  lemma {:induction false} SplitKeys<R>(t: seq<R>, key: R -> Uid, u: Uid)
    ensures forall i :: 0 <= i < |Drop(t, key, u)| ==> key(Drop(t, key, u)[i]) != u
    ensures forall i :: 0 <= i < |Only(t, key, u)| ==> key(Only(t, key, u)[i]) == u
    decreases |t|
  {
    if t != [] {
      SplitKeys(t[..|t| - 1], key, u);
    }
  }

  /** A row survives the drop exactly when its key is not `u`. */
  lemma DropKeeps<R>(t: seq<R>, key: R -> Uid, u: Uid, x: R)
    ensures x in Drop(t, key, u) <==> x in t && key(x) != u
  {
    SplitKeys(t, key, u);
    DropSplits(t, key, u);
    assert x in Drop(t, key, u) ==> x in multiset(t);
    if x in t && key(x) != u {
      assert x in multiset(t);
      assert x !in Only(t, key, u);
    }
  }

  /** The row `Last` names is the last of the rows for `u`. */
  lemma {:induction false} LastOfOnly<R>(t: seq<R>, key: R -> Uid, u: Uid)
    ensures Last(t, key, u) == if Only(t, key, u) == [] then None else Some(Only(t, key, u)[|Only(t, key, u)| - 1])
    decreases |t|
  {
    if t != [] {
      LastOfOnly(t[..|t| - 1], key, u);
    }
  }

  /** Dropping distributes over concatenation: it keeps the original order. */
  lemma {:induction false} DropAppend<R>(a: seq<R>, b: seq<R>, key: R -> Uid, u: Uid)
    ensures Drop(a + b, key, u) == Drop(a, key, u) + Drop(b, key, u)
    decreases |b|
  {
    if b == [] {
      assert a + b == a;
    } else {
      var b', x := b[..|b| - 1], b[|b| - 1];
      var tail := if key(x) == u then [] else [x];
      assert (a + b)[..|a + b| - 1] == a + b';
      assert (a + b)[|a + b| - 1] == x;
      DropAppend(a, b', key, u);
      calc {
        Drop(a + b, key, u);
        Drop(a + b', key, u) + tail;
        (Drop(a, key, u) + Drop(b', key, u)) + tail;
        Drop(a, key, u) + (Drop(b', key, u) + tail);
        Drop(a, key, u) + Drop(b, key, u);
      }
    }
  }
}
