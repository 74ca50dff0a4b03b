/** PlaceRepositoryImpl: the Places table held in memory, with the
    writes that change it in place. The reads are the functions of
    PlaceQueries applied to `places` and `catalog`. */
module PlaceRepository {
  import opened PlaceModel
  import opened PlaceQueries
  import opened PlaceLedger

  class PlaceRepositoryImpl {
    /** The rows of the Places table, in table order. */
    var places: seq<Place>
    /** The Colis, Emplacements, Colonnes and Allees tables; never written here. */
    var catalog: Catalog

    /** The primary key of the Places table holds. */
    ghost predicate Valid()
      reads this
    {
      KeysUnique(places)
    }

    constructor (rows: seq<Place>, catalog: Catalog)
      requires KeysUnique(rows)
      ensures Valid()
      ensures places == rows && this.catalog == catalog
    {
      places := rows;
      this.catalog := catalog;
    }

    /** getAllPlaces: every row of the table, unfiltered, in table order. */
    function GetAllPlaces(): (r: seq<Place>)
      reads this
      ensures |r| == |places| && forall i :: 0 <= i < |r| ==> r[i] == places[i]
    {
      places
    }

    /** createPlace(place): inserts one row; the primary key forbids a
        row whose key is already in the table. */
    method CreatePlace(place: Place) returns (ok: bool)
      requires Valid()
      requires forall x :: x in places ==> KeyOf(x) != KeyOf(place)
      modifies this`places
      ensures Valid()
      ensures ok
      ensures places == old(places) + [place]
    {
      AppendKeepsKeysUnique(places, place);
      places := places + [place];
      ok := true;
    }

    /** updatePlace: sets the date of the rows with the key of `place`;
        succeeds when some row has that key. */
    method UpdatePlace(place: Place) returns (ok: bool)
      requires Valid()
      modifies this`places
      ensures Valid()
      ensures ok <==> exists x :: x in old(places) && KeyOf(x) == KeyOf(place)
      ensures places == SetDate(old(places), KeyOf(place), place.dateDepot)
    {
      var updated := SetDate(places, KeyOf(place), place.dateDepot);
      ok := GetPlaceByKeys(places, place.idCariste, place.idColis, place.idEmplacement).Some?;
      assert KeysUnique(updated) by {
        forall a, b | 0 <= a < b < |updated| ensures KeyOf(updated[a]) != KeyOf(updated[b]) {
          assert KeyOf(places[a]) != KeyOf(places[b]);
        }
      }
      places := updated;
    }

    /** deletePlace: removes the rows with the given key, keeping the
        others in order; succeeds when some row was removed. */
    method DeletePlace(caristeId: int, colisId: int, emplacementId: int) returns (ok: bool)
      requires Valid()
      modifies this`places
      ensures Valid()
      ensures ok <==> exists x :: x in old(places) && KeyOf(x) == Key(caristeId, colisId, emplacementId)
      ensures places == Filter(old(places), KeyIsNot(Key(caristeId, colisId, emplacementId)))
    {
      var rest := Filter(places, KeyIsNot(Key(caristeId, colisId, emplacementId)));
      FilterKeysUnique(places, KeyIsNot(Key(caristeId, colisId, emplacementId)));
      FilterShrinks(places, KeyIsNot(Key(caristeId, colisId, emplacementId)));
      ok := |rest| < |places|;
      places := rest;
    }

    /** createPlace(caristeId, colisId, emplacementId): moves a package
        to a slot on day `today` (LocalDate.now() in the repository). */
    method CreatePlaceForColis(caristeId: int, colisId: int, emplacementId: int, today: Day) returns (ok: bool)
      requires Valid()
      requires InsertsFreshKey(places, catalog, caristeId, colisId, emplacementId)
      modifies this`places
      ensures Valid()
      ensures Outcome(ok, places) == Assign(old(places), catalog, caristeId, colisId, emplacementId, today)
    {
      if colisId !in catalog.colis {
        return false;
      }
      ghost var before := places;
      var existing := GetPlaceByColis(places, catalog, colisId);
      if existing.Some? {
        if existing.value.idEmplacement == emplacementId {
          return true;
        }
        var deleted := DeletePlace(existing.value.idCariste, existing.value.idColis, existing.value.idEmplacement);
      }
      assert places == Superseded(before, catalog, colisId);
      assert forall x :: x in places ==> KeyOf(x) != Key(caristeId, colisId, emplacementId) by {
        assert forall x :: x in before ==> KeyOf(x) != Key(caristeId, colisId, emplacementId);
      }
      ok := CreatePlace(NewPlace(caristeId, colisId, emplacementId, today));
    }
  }
}
