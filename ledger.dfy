/** The write side of the placement repository as functions of the old
    table: what updatePlace and the move-a-package entry point leave
    behind, and what holds of the table they leave. (The delete is
    Filter with KeyIsNot, the insert an append.) */
module PlaceLedger {
  import opened PlaceModel
  import opened PlaceQueries

  /** UPDATE Places SET dateDepot = d WHERE key = k: every row with key
      `k` gets date `d`; no row moves, appears or disappears. */
  function SetDate(rows: seq<Place>, k: Key, d: Option<Day>): (r: seq<Place>)
    ensures |r| == |rows|
    ensures forall i :: 0 <= i < |r| ==> KeyOf(r[i]) == KeyOf(rows[i])
    ensures forall i :: 0 <= i < |r| ==> r[i].dateDepot == if KeyOf(rows[i]) == k then d else rows[i].dateDepot
  {
    if rows == [] then []
    else [if KeyOf(rows[0]) == k then rows[0].(dateDepot := d) else rows[0]] + SetDate(rows[1..], k, d)
  }

  /** The update leaves every row with another key exactly as it was, in place. */
  lemma {:induction false} SetDateKeepsOtherRows(rows: seq<Place>, k: Key, d: Option<Day>)
    ensures Filter(SetDate(rows, k, d), KeyIsNot(k)) == Filter(rows, KeyIsNot(k))
  {
    if rows != [] {
      SetDateKeepsOtherRows(rows[1..], k, d);
      var r := SetDate(rows, k, d);
      assert r[1..] == SetDate(rows[1..], k, d);
      if KeyOf(rows[0]) != k {
        assert r[0] == rows[0];
      }
    }
  }

  /** After a matching update, looking the key up gives the new date. */
  lemma SetDateThenGet(rows: seq<Place>, k: Key, d: Option<Day>)
    requires KeysUnique(rows)
    requires exists x :: x in rows && KeyOf(x) == k
    ensures GetPlaceByKeys(SetDate(rows, k, d), k.idCariste, k.idColis, k.idEmplacement)
      == Some(Place(k.idCariste, k.idColis, k.idEmplacement, d))
  {
  }

  /** What the move-a-package entry point returns and leaves in the table. */
  datatype Outcome = Outcome(ok: bool, rows: seq<Place>)

  /** The row the entry point inserts. */
  function NewPlace(caristeId: int, colisId: int, emplacementId: int, today: Day): Place {
    Place(caristeId, colisId, emplacementId, Some(today))
  }

  /** The table after the entry point's delete step: the key of the
      package's current placement removed, if it has one. */
  function Superseded(rows: seq<Place>, cat: Catalog, colisId: int): (r: seq<Place>)
    ensures forall x :: x in r ==> x in rows
    ensures forall x :: x in rows && x.idColis != colisId ==> x in r
  {
    match GetPlaceByColis(rows, cat, colisId)
    case None => rows
    case Some(cur) => Filter(rows, KeyIsNot(KeyOf(cur)))
  }

  /** createPlace(caristeId, colisId, emplacementId) on the table `rows`
      on day `today`: fail on an unknown package; succeed without a
      change when the current placement is already in the slot;
      otherwise delete the current placement's key, if any, and append
      the new row. */
  function Assign(rows: seq<Place>, cat: Catalog, caristeId: int, colisId: int, emplacementId: int, today: Day): (o: Outcome)
    ensures o.ok <==> colisId in cat.colis
    ensures !o.ok ==> o.rows == rows
    ensures var cur := GetPlaceByColis(rows, cat, colisId);
      colisId in cat.colis && !(cur.Some? && cur.value.idEmplacement == emplacementId) ==>
        o == Outcome(true, Superseded(rows, cat, colisId) + [NewPlace(caristeId, colisId, emplacementId, today)])
    ensures var cur := GetPlaceByColis(rows, cat, colisId);
      cur.Some? && cur.value.idEmplacement == emplacementId ==> o == Outcome(true, rows)
  {
    if colisId !in cat.colis then Outcome(false, rows)
    else
      var cur := GetPlaceByColis(rows, cat, colisId);
      if cur.Some? && cur.value.idEmplacement == emplacementId then Outcome(true, rows)
      else Outcome(true, Superseded(rows, cat, colisId) + [NewPlace(caristeId, colisId, emplacementId, today)])
  }

  /** The insert that Assign makes does not repeat a key already in the
      table (what the Places primary key demands of it). */
  predicate InsertsFreshKey(rows: seq<Place>, cat: Catalog, caristeId: int, colisId: int, emplacementId: int) {
    var cur := GetPlaceByColis(rows, cat, colisId);
    colisId !in cat.colis
    || (cur.Some? && cur.value.idEmplacement == emplacementId)
    || forall x :: x in rows ==> KeyOf(x) != Key(caristeId, colisId, emplacementId)
  }

  /** With one row per package the insert never repeats a key. */
  lemma OneRowPerColisInsertsFreshKey(rows: seq<Place>, cat: Catalog, caristeId: int, colisId: int, emplacementId: int)
    requires AtMostOneRowPerColis(rows)
    ensures InsertsFreshKey(rows, cat, caristeId, colisId, emplacementId)
  {
  }

  /** With one row per package, the delete step removes the package entirely. */
  lemma SupersededDropsColis(rows: seq<Place>, cat: Catalog, colisId: int)
    requires AtMostOneRowPerColis(rows) && colisId in cat.colis
    ensures AtMostOneRowPerColis(Superseded(rows, cat, colisId))
    ensures forall x :: x in Superseded(rows, cat, colisId) ==> x.idColis != colisId
  {
    var cur := GetPlaceByColis(rows, cat, colisId);
    if cur.Some? {
      var w := KeyIsNot(KeyOf(cur.value));
      FilterOneRowPerColis(rows, w);
      var c :| 0 <= c < |rows| && rows[c] == cur.value;
      forall x | x in Filter(rows, w) ensures x.idColis != colisId {
        var b :| 0 <= b < |rows| && rows[b] == x;
        assert b != c;
      }
    }
  }

  /** Appending a row whose key is new keeps the primary key. */
  lemma AppendKeepsKeysUnique(rows: seq<Place>, row: Place)
    requires KeysUnique(rows)
    requires forall x :: x in rows ==> KeyOf(x) != KeyOf(row)
    ensures KeysUnique(rows + [row])
  {
  }

  /** Appending a row for a package with no row keeps one row per package. */
  lemma AppendKeepsOneRowPerColis(rows: seq<Place>, row: Place)
    requires AtMostOneRowPerColis(rows)
    requires forall x :: x in rows ==> x.idColis != row.idColis
    ensures AtMostOneRowPerColis(rows + [row])
  {
  }

  /** A move replaces the current row, and only it, by the new row at the end. */
  lemma AssignMovesOneRow(rows: seq<Place>, cat: Catalog, caristeId: int, colisId: int, emplacementId: int, today: Day, i: nat)
    requires KeysUnique(rows) && colisId in cat.colis
    requires i < |rows| && GetPlaceByColis(rows, cat, colisId) == Some(rows[i])
    requires rows[i].idEmplacement != emplacementId
    ensures Assign(rows, cat, caristeId, colisId, emplacementId, today).rows
      == rows[..i] + rows[i + 1..] + [NewPlace(caristeId, colisId, emplacementId, today)]
  {
    RemoveUniqueKey(rows, i);
  }

  /** With no current placement the new row is simply appended. */
  lemma AssignAppends(rows: seq<Place>, cat: Catalog, caristeId: int, colisId: int, emplacementId: int, today: Day)
    requires colisId in cat.colis
    requires forall x :: x in rows ==> x.idColis != colisId
    ensures Assign(rows, cat, caristeId, colisId, emplacementId, today)
      == Outcome(true, rows + [NewPlace(caristeId, colisId, emplacementId, today)])
  {
  }

  /** The entry point keeps the primary key when its insert is fresh. */
  lemma AssignKeepsKeysUnique(rows: seq<Place>, cat: Catalog, caristeId: int, colisId: int, emplacementId: int, today: Day)
    requires KeysUnique(rows)
    requires InsertsFreshKey(rows, cat, caristeId, colisId, emplacementId)
    ensures KeysUnique(Assign(rows, cat, caristeId, colisId, emplacementId, today).rows)
  {
    var o := Assign(rows, cat, caristeId, colisId, emplacementId, today);
    if o.rows != rows {
      var cur := GetPlaceByColis(rows, cat, colisId);
      var kept := Superseded(rows, cat, colisId);
      if cur.Some? {
        FilterKeysUnique(rows, KeyIsNot(KeyOf(cur.value)));
      }
      AppendKeepsKeysUnique(kept, NewPlace(caristeId, colisId, emplacementId, today));
    }
  }

  /** The entry point keeps one row per package. */
  lemma AssignKeepsOneRowPerColis(rows: seq<Place>, cat: Catalog, caristeId: int, colisId: int, emplacementId: int, today: Day)
    requires AtMostOneRowPerColis(rows)
    ensures AtMostOneRowPerColis(Assign(rows, cat, caristeId, colisId, emplacementId, today).rows)
  {
    var o := Assign(rows, cat, caristeId, colisId, emplacementId, today);
    if o.rows != rows {
      SupersededDropsColis(rows, cat, colisId);
      AppendKeepsOneRowPerColis(Superseded(rows, cat, colisId), NewPlace(caristeId, colisId, emplacementId, today));
    }
  }

  /** Every row of the package other than its current placement predates
      `today` or is undated. */
  predicate DatedBefore(rows: seq<Place>, cat: Catalog, colisId: int, today: Day) {
    var cur := GetPlaceByColis(rows, cat, colisId);
    forall x :: x in rows && x.idColis == colisId && (cur.None? || KeyOf(x) != KeyOf(cur.value)) ==>
      x.dateDepot.None? || x.dateDepot.value < today
  }

  /** After a call on an existing package its current placement is in the
      target slot, provided no row of the package other than the current
      one is dated today or later, or every package has at most one row. */
  lemma AssignThenCurrent(rows: seq<Place>, cat: Catalog, caristeId: int, colisId: int, emplacementId: int, today: Day)
    requires colisId in cat.colis
    requires DatedBefore(rows, cat, colisId, today) || AtMostOneRowPerColis(rows)
    ensures var cur := GetPlaceByColis(Assign(rows, cat, caristeId, colisId, emplacementId, today).rows, cat, colisId);
      cur.Some? && cur.value.idEmplacement == emplacementId
  {
    var o := Assign(rows, cat, caristeId, colisId, emplacementId, today);
    var row := NewPlace(caristeId, colisId, emplacementId, today);
    if o.rows != rows {
      var kept := Superseded(rows, cat, colisId);
      assert o.rows == kept + [row];
      assert row in o.rows;
      var after := GetPlaceByColis(o.rows, cat, colisId).value;
      assert AtLeastAsRecent(after.dateDepot, row.dateDepot);
      if after != row {
        assert after in kept;
        SupersededPredates(rows, cat, colisId, today, after);
      }
    }
  }

  /** Under the same condition, every row of the package that the delete
      step leaves is undated or predates `today`. */
  lemma SupersededPredates(rows: seq<Place>, cat: Catalog, colisId: int, today: Day, y: Place)
    requires colisId in cat.colis
    requires DatedBefore(rows, cat, colisId, today) || AtMostOneRowPerColis(rows)
    requires y in Superseded(rows, cat, colisId) && y.idColis == colisId
    ensures y.dateDepot.None? || y.dateDepot.value < today
  {
    if DatedBefore(rows, cat, colisId, today) {
      SupersededMembers(rows, cat, colisId, y);
    } else {
      SupersededDropsColis(rows, cat, colisId);
    }
  }

  /** Idempotence: after any call, calling again for the same
      package and slot, by any operator on any day, changes nothing. */
  lemma AssignIdempotent(rows: seq<Place>, cat: Catalog, caristeId: int, colisId: int, emplacementId: int, today: Day,
                         caristeId2: int, today2: Day)
    requires DatedBefore(rows, cat, colisId, today) || AtMostOneRowPerColis(rows)
    ensures var o := Assign(rows, cat, caristeId, colisId, emplacementId, today);
      Assign(o.rows, cat, caristeId2, colisId, emplacementId, today2) == o
  {
    if colisId in cat.colis {
      AssignThenCurrent(rows, cat, caristeId, colisId, emplacementId, today);
    }
  }

  /** When the insert's key is already taken, the row holding it is the
      package's own row in the target slot; the delete step keeps it, so
      the package still has a current placement when the insert fails. */
  lemma DuplicateInsertKeepsCurrent(rows: seq<Place>, cat: Catalog, caristeId: int, colisId: int, emplacementId: int)
    requires colisId in cat.colis && !InsertsFreshKey(rows, cat, caristeId, colisId, emplacementId)
    ensures exists x :: x in Superseded(rows, cat, colisId) && KeyOf(x) == Key(caristeId, colisId, emplacementId)
    ensures GetPlaceByColis(Superseded(rows, cat, colisId), cat, colisId).Some?
  {
    var x :| x in rows && KeyOf(x) == Key(caristeId, colisId, emplacementId);
    var cur := GetPlaceByColis(rows, cat, colisId);
    assert cur.Some? && cur.value.idEmplacement != emplacementId;
    SupersededMembers(rows, cat, colisId, x);
  }

  /** The delete step keeps exactly the rows whose key is not the current
      placement's. */
  lemma SupersededMembers(rows: seq<Place>, cat: Catalog, colisId: int, x: Place)
    ensures var cur := GetPlaceByColis(rows, cat, colisId);
      x in Superseded(rows, cat, colisId) <==> x in rows && (cur.None? || KeyOf(x) != KeyOf(cur.value))
  {
  }

  /** The delete step keeps every row of another package, in order. */
  lemma SupersededKeepsOtherColis(rows: seq<Place>, cat: Catalog, colisId: int, other: int)
    requires other != colisId
    ensures Filter(Superseded(rows, cat, colisId), ColisIs(other)) == Filter(rows, ColisIs(other))
  {
    var cur := GetPlaceByColis(rows, cat, colisId);
    if cur.Some? {
      FilterRedundant(rows, KeyIsNot(KeyOf(cur.value)), ColisIs(other));
    }
  }

  /** The rows of every other package, and their order, are untouched. */
  lemma AssignKeepsOtherColis(rows: seq<Place>, cat: Catalog, caristeId: int, colisId: int, emplacementId: int, today: Day, other: int)
    requires other != colisId
    ensures Filter(Assign(rows, cat, caristeId, colisId, emplacementId, today).rows, ColisIs(other))
      == Filter(rows, ColisIs(other))
  {
    var o := Assign(rows, cat, caristeId, colisId, emplacementId, today);
    var row := NewPlace(caristeId, colisId, emplacementId, today);
    if o.rows != rows {
      var kept := Superseded(rows, cat, colisId);
      assert Filter(kept + [row], ColisIs(other)) == Filter(kept, ColisIs(other)) by {
        FilterAppend(kept, [row], ColisIs(other));
        assert Filter([row], ColisIs(other)) == [];
      }
      SupersededKeepsOtherColis(rows, cat, colisId, other);
    }
  }

  /** A row of the package dated after today survives a move and stays
      its current placement, so the package does not end up in the
      target slot. */
  lemma FutureRowStaysCurrent(rows: seq<Place>, cat: Catalog)
    requires 7 in cat.colis
    requires rows == [Place(1, 7, 10, Some(9)), Place(1, 7, 20, Some(8))]
    ensures var o := Assign(rows, cat, 2, 7, 30, 6);
      o.ok && GetPlaceByColis(o.rows, cat, 7) == Some(Place(1, 7, 20, Some(8)))
  {
    var after := [rows[1], NewPlace(2, 7, 30, 6)];
    assert GetPlaceByColis(rows, cat, 7) == Some(rows[0]) by {
      var cur := GetPlaceByColis(rows, cat, 7);
      assert rows[0] in rows;
      assert AtLeastAsRecent(cur.value.dateDepot, rows[0].dateDepot);
    }
    assert Superseded(rows, cat, 7) == [rows[1]] by {
      RemoveUniqueKey(rows, 0);
    }
    assert Assign(rows, cat, 2, 7, 30, 6) == Outcome(true, after);
    assert GetPlaceByColis(after, cat, 7) == Some(after[0]) by {
      var cur := GetPlaceByColis(after, cat, 7);
      assert after[0] in after;
      assert AtLeastAsRecent(cur.value.dateDepot, after[0].dateDepot);
    }
  }
}
