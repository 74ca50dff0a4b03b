/** The read side of the placement repository: each query is a function
    of the Places table (`rows`, in table order) and of the tables it
    joins with (`cat`). Queries without ORDER BY return rows in table
    order. */
module PlaceQueries {
  import opened PlaceModel

  /** getPlaceByKeys: the row with the full composite key, or None. */
  function GetPlaceByKeys(rows: seq<Place>, caristeId: int, colisId: int, emplacementId: int): (r: Option<Place>)
    ensures r.None? <==> forall x :: x in rows ==> KeyOf(x) != Key(caristeId, colisId, emplacementId)
    ensures r.Some? ==> r.value in rows && KeyOf(r.value) == Key(caristeId, colisId, emplacementId)
  {
    var found := Filter(rows, KeyIs(Key(caristeId, colisId, emplacementId)));
    if found == [] then None
    else
      assert found[0] in found;
      Some(found[0])
  }

  /** Under the primary key the row found by its key is that key's one row. */
  lemma GetPlaceByKeysUnique(rows: seq<Place>, i: nat)
    requires KeysUnique(rows) && i < |rows|
    ensures GetPlaceByKeys(rows, rows[i].idCariste, rows[i].idColis, rows[i].idEmplacement) == Some(rows[i])
  {
  }

  /** getPlacesByColisId: the rows of one package, none if the package
      does not exist (inner join on Colis). */
  function GetPlacesByColisId(rows: seq<Place>, cat: Catalog, colisId: int): (r: seq<Place>)
    ensures forall x :: x in r <==> x in rows && x.idColis == colisId && colisId in cat.colis
    ensures colisId in cat.colis ==> |r| == |Filter(rows, ColisIs(colisId))|
    ensures colisId !in cat.colis ==> r == []
  {
    if colisId in cat.colis then Filter(rows, ColisIs(colisId)) else []
  }

  /** getPlacesByEmplacementId: the rows of one slot, with no existence
      check on the package or the slot. */
  function GetPlacesByEmplacementId(rows: seq<Place>, emplacementId: int): (r: seq<Place>)
    ensures forall x :: x in r <==> x in rows && x.idEmplacement == emplacementId
    ensures |r| < |rows| <==> exists x :: x in rows && x.idEmplacement != emplacementId
  {
    FilterShrinks(rows, EmplacementIs(emplacementId));
    Filter(rows, EmplacementIs(emplacementId))
  }

  /** Newest first, undated last. */
  predicate SortedByDateDesc(s: seq<Place>) {
    forall i, j :: 0 <= i < j < |s| ==> AtLeastAsRecent(s[i].dateDepot, s[j].dateDepot)
  }

  /** Puts `x` in front of the first row no newer than it, so that rows
      with equal dates keep their table order. */
  function InsertByDate(x: Place, s: seq<Place>): (r: seq<Place>)
    requires SortedByDateDesc(s)
    ensures multiset(r) == multiset(s) + multiset{x}
    ensures SortedByDateDesc(r)
  {
    if s == [] || AtLeastAsRecent(x.dateDepot, s[0].dateDepot) then [x] + s
    else
      var t := InsertByDate(x, s[1..]);
      assert forall k :: 0 <= k < |t| ==> AtLeastAsRecent(s[0].dateDepot, t[k].dateDepot) by {
        forall k | 0 <= k < |t| ensures AtLeastAsRecent(s[0].dateDepot, t[k].dateDepot) {
          assert t[k] in multiset(t);
          if t[k] != x {
            assert t[k] in multiset(s[1..]);
            var m :| 0 <= m < |s[1..]| && s[1..][m] == t[k];
            assert s[m + 1] == t[k];
          }
        }
      }
      assert s == [s[0]] + s[1..];
      [s[0]] + t
  }

  /** ORDER BY dateDepot DESC as a stable sort: a row dated like an
      earlier row of the table comes after it. */
  function SortByDateDesc(s: seq<Place>): (r: seq<Place>)
    ensures multiset(r) == multiset(s)
    ensures SortedByDateDesc(r)
  {
    if s == [] then []
    else
      assert s == [s[0]] + s[1..];
      InsertByDate(s[0], SortByDateDesc(s[1..]))
  }

  /** The index of the first row, in table order, among those with the
      greatest deposit date. */
  function NewestIndex(s: seq<Place>): (i: nat)
    requires s != []
    ensures i < |s|
    ensures forall j :: 0 <= j < |s| ==> AtLeastAsRecent(s[i].dateDepot, s[j].dateDepot)
    ensures forall j :: 0 <= j < i ==> !AtLeastAsRecent(s[j].dateDepot, s[i].dateDepot)
  {
    if |s| == 1 then 0
    else
      var k := 1 + NewestIndex(s[1..]);
      assert forall j :: 1 <= j < |s| ==> s[j] == s[1..][j - 1];
      if AtLeastAsRecent(s[0].dateDepot, s[k].dateDepot) then 0 else k
  }

  /** The sort puts the first newest row at the head. */
  lemma {:induction false} SortHeadIsNewest(s: seq<Place>)
    requires s != []
    ensures |SortByDateDesc(s)| == |s|
    ensures SortByDateDesc(s)[0] == s[NewestIndex(s)]
  {
    assert |multiset(SortByDateDesc(s))| == |multiset(s)|;
    if |s| > 1 {
      SortHeadIsNewest(s[1..]);
    }
  }

  /** getHistoriquePlaces: every row of the package, newest first; none
      when the package does not exist (inner join on Colis). */
  function GetHistoriquePlaces(rows: seq<Place>, cat: Catalog, colisId: int): (r: seq<Place>)
    ensures SortedByDateDesc(r)
    ensures multiset(r) == multiset(GetPlacesByColisId(rows, cat, colisId))
    ensures forall x :: x in r <==> x in rows && x.idColis == colisId && colisId in cat.colis
  {
    var h := SortByDateDesc(GetPlacesByColisId(rows, cat, colisId));
    assert forall x :: x in h <==> x in multiset(h);
    h
  }

  /** getPlaceByColis: the current placement of a package, which is the
      head of its history. */
  function GetPlaceByColis(rows: seq<Place>, cat: Catalog, colisId: int): (r: Option<Place>)
    ensures r.None? <==> colisId !in cat.colis || forall x :: x in rows ==> x.idColis != colisId
    ensures r.Some? ==> r.value in rows && r.value.idColis == colisId && colisId in cat.colis
    ensures r.Some? ==> forall x :: x in rows && x.idColis == colisId ==> AtLeastAsRecent(r.value.dateDepot, x.dateDepot)
  {
    var h := GetHistoriquePlaces(rows, cat, colisId);
    if h == [] then None
    else
      assert forall x :: x in rows && x.idColis == colisId ==> AtLeastAsRecent(h[0].dateDepot, x.dateDepot) by {
        forall x | x in rows && x.idColis == colisId ensures AtLeastAsRecent(h[0].dateDepot, x.dateDepot) {
          var j :| 0 <= j < |h| && h[j] == x;
        }
      }
      assert h[0] in h;
      Some(h[0])
  }

  /** Ties on the date go to the earliest row of the table: the current
      placement is the first newest row of the package. */
  lemma CurrentIsFirstNewest(rows: seq<Place>, cat: Catalog, colisId: int)
    requires colisId in cat.colis && Filter(rows, ColisIs(colisId)) != []
    ensures var f := Filter(rows, ColisIs(colisId));
      GetPlaceByColis(rows, cat, colisId) == Some(f[NewestIndex(f)])
  {
    SortHeadIsNewest(Filter(rows, ColisIs(colisId)));
  }

  /** One row of getPlacesWithDetails: the package's dimensions, and the
      slot level, column number and aisle number along the left joins. */
  function Describe(x: Place, cat: Catalog): (d: PlaceDetails)
    requires x.idColis in cat.colis
    ensures d.place == x
    ensures d.niveauEmplacement.Some? <==> x.idEmplacement in cat.emplacements
    ensures d.numeroColonne.Some? <==>
      x.idEmplacement in cat.emplacements && cat.emplacements[x.idEmplacement].idColonne in cat.colonnes
    ensures d.numeroAllee.Some? <==>
      d.numeroColonne.Some? && cat.colonnes[cat.emplacements[x.idEmplacement].idColonne].idAllee in cat.allees
    ensures d.niveauEmplacement.Some? ==> d.niveauEmplacement.value == cat.emplacements[x.idEmplacement].niveau
    ensures d.numeroColonne.Some? ==>
      d.numeroColonne.value == cat.colonnes[cat.emplacements[x.idEmplacement].idColonne].numeroColonne
    ensures d.numeroAllee.Some? ==>
      d.numeroAllee.value == cat.allees[cat.colonnes[cat.emplacements[x.idEmplacement].idColonne].idAllee].numeroAllee
    ensures var c := cat.colis[x.idColis];
      d.longueurColis == c.longueur && d.largeurColis == c.largeur && d.hauteurColis == c.hauteur && d.poidsColis == c.poids
  {
    var slot := if x.idEmplacement in cat.emplacements then Some(cat.emplacements[x.idEmplacement]) else None;
    var column := if slot.Some? && slot.value.idColonne in cat.colonnes then Some(cat.colonnes[slot.value.idColonne]) else None;
    var aisle := if column.Some? && column.value.idAllee in cat.allees then Some(cat.allees[column.value.idAllee]) else None;
    var c := cat.colis[x.idColis];
    PlaceDetails(
      x,
      if slot.Some? then Some(slot.value.niveau) else None,
      if column.Some? then Some(column.value.numeroColonne) else None,
      if aisle.Some? then Some(aisle.value.numeroAllee) else None,
      c.longueur, c.largeur, c.hauteur, c.poids)
  }

  /** getPlacesWithDetails: one detailed row per placement whose package
      exists, in table order; placements of missing packages are dropped. */
  function GetPlacesWithDetails(rows: seq<Place>, cat: Catalog): (r: seq<PlaceDetails>)
    ensures |r| == |Filter(rows, ColisIn(cat.colis.Keys))|
    ensures forall d :: d in r ==> d.place in rows && d.place.idColis in cat.colis && d == Describe(d.place, cat)
    ensures forall x :: x in rows && x.idColis in cat.colis ==> exists d :: d in r && d.place == x
  {
    if rows == [] then []
    else
      var rest := GetPlacesWithDetails(rows[1..], cat);
      assert forall x :: x in rows[1..] ==> x in rows;
      if rows[0].idColis in cat.colis then
        var d := Describe(rows[0], cat);
        assert d in [d] + rest;
        [d] + rest
      else rest
  }
}
