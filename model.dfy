/** The rows of the Places table and of the tables it is joined with,
    and the WHERE filter that every read and every delete of the
    placement repository applies to the table. */
module PlaceModel {

  datatype Option<+T> = None | Some(value: T)

  /** A calendar day (java.time.LocalDate) as a day number. */
  type Day = int

  /** One row of the Places table: the operator (cariste) who placed the
      package (colis) in the slot (emplacement), and the deposit date,
      which the column allows to be NULL. */
  datatype Place = Place(idCariste: int, idColis: int, idEmplacement: int, dateDepot: Option<Day>)

  /** The composite primary key of the Places table. */
  datatype Key = Key(idCariste: int, idColis: int, idEmplacement: int)

  function KeyOf(x: Place): Key {
    Key(x.idCariste, x.idColis, x.idEmplacement)
  }

  /** Rows of the other tables, each keyed by its id in the Catalog maps. */
  datatype Colis = Colis(longueur: int, largeur: int, hauteur: int, poids: int)
  datatype Emplacement = Emplacement(niveau: int, idColonne: int)
  datatype Colonne = Colonne(numeroColonne: int, idAllee: int)
  datatype Allee = Allee(numeroAllee: int)

  /** The tables the placement repository reads but never writes. */
  datatype Catalog = Catalog(
    colis: map<int, Colis>,
    emplacements: map<int, Emplacement>,
    colonnes: map<int, Colonne>,
    allees: map<int, Allee>)

  /** A placement joined with its package and its location; a location
      field is None when the left join finds no slot, column or aisle. */
  datatype PlaceDetails = PlaceDetails(
    place: Place,
    niveauEmplacement: Option<int>,
    numeroColonne: Option<int>,
    numeroAllee: Option<int>,
    longueurColis: int,
    largeurColis: int,
    hauteurColis: int,
    poidsColis: int)

  /** `a` comes no later than `b` under ORDER BY dateDepot DESC. MySQL
      sorts NULL below every date, so undated rows come last. */
  predicate AtLeastAsRecent(a: Option<Day>, b: Option<Day>) {
    b.None? || (a.Some? && a.value >= b.value)
  }

  /** The primary key holds: no two rows share (idCariste, idColis, idEmplacement). */
  predicate KeysUnique(rows: seq<Place>) {
    forall i, j :: 0 <= i < j < |rows| ==> KeyOf(rows[i]) != KeyOf(rows[j])
  }

  /** Every package has at most one row, as when the table is only ever
      written through the move-a-package entry point. */
  predicate AtMostOneRowPerColis(rows: seq<Place>) {
    forall i, j :: 0 <= i < j < |rows| ==> rows[i].idColis != rows[j].idColis
  }

  /** The WHERE clauses the repository uses. `ColisIn` is the inner join
      on Colis: a row survives it when its package exists. */
  datatype Where =
    | ColisIs(colisId: int)
    | EmplacementIs(emplacementId: int)
    | KeyIs(key: Key)
    | KeyIsNot(key: Key)
    | ColisIn(ids: set<int>)

  predicate Holds(w: Where, x: Place) {
    match w
    case ColisIs(p) => x.idColis == p
    case EmplacementIs(e) => x.idEmplacement == e
    case KeyIs(k) => KeyOf(x) == k
    case KeyIsNot(k) => KeyOf(x) != k
    case ColisIn(ids) => x.idColis in ids
  }

  /** The rows of `s` that satisfy `w`, in table order. */
  function Filter(s: seq<Place>, w: Where): (r: seq<Place>)
    ensures |r| <= |s|
    ensures forall x :: x in r <==> x in s && Holds(w, x)
  {
    if s == [] then []
    else if Holds(w, s[0]) then [s[0]] + Filter(s[1..], w)
    else Filter(s[1..], w)
  }

  /** A filter removes some row exactly when some row fails it. */
  lemma {:induction false} FilterShrinks(s: seq<Place>, w: Where)
    ensures |Filter(s, w)| < |s| <==> exists x :: x in s && !Holds(w, x)
  {
    if s != [] {
      FilterShrinks(s[1..], w);
      assert s == [s[0]] + s[1..];
    }
  }

  /** Filtering distributes over concatenation, so it keeps table order. */
  lemma {:induction false} FilterAppend(a: seq<Place>, b: seq<Place>, w: Where)
    ensures Filter(a + b, w) == Filter(a, w) + Filter(b, w)
  {
    if a == [] {
      assert a + b == b;
    } else {
      assert (a + b)[1..] == a[1..] + b;
      FilterAppend(a[1..], b, w);
    }
  }

  /** A second filter that implies the first makes the first redundant. */
  lemma {:induction false} FilterRedundant(s: seq<Place>, w1: Where, w2: Where)
    requires forall x :: Holds(w2, x) ==> Holds(w1, x)
    ensures Filter(Filter(s, w1), w2) == Filter(s, w2)
  {
    if s != [] {
      FilterRedundant(s[1..], w1, w2);
    }
  }

  /** Removing rows cannot make two keys collide. */
  lemma {:induction false} FilterKeysUnique(s: seq<Place>, w: Where)
    requires KeysUnique(s)
    ensures KeysUnique(Filter(s, w))
  {
    if s != [] {
      assert KeysUnique(s[1..]) by {
        forall i, j | 0 <= i < j < |s[1..]| ensures KeyOf(s[1..][i]) != KeyOf(s[1..][j]) {
          assert s[1..][i] == s[i + 1] && s[1..][j] == s[j + 1];
        }
      }
      FilterKeysUnique(s[1..], w);
      var t := Filter(s[1..], w);
      if Holds(w, s[0]) {
        forall j | 0 <= j < |t| ensures KeyOf(s[0]) != KeyOf(t[j]) {
          assert t[j] in s[1..];
        }
        assert KeysUnique([s[0]] + t) by {
          forall i, j | 0 <= i < j < |[s[0]] + t|
            ensures KeyOf(([s[0]] + t)[i]) != KeyOf(([s[0]] + t)[j])
          {
            if i > 0 {
              assert ([s[0]] + t)[i] == t[i - 1] && ([s[0]] + t)[j] == t[j - 1];
            }
          }
        }
      }
    }
  }

  /** Removing rows cannot give a package a second row. */
  lemma {:induction false} FilterOneRowPerColis(s: seq<Place>, w: Where)
    requires AtMostOneRowPerColis(s)
    ensures AtMostOneRowPerColis(Filter(s, w))
  {
    if s != [] {
      assert AtMostOneRowPerColis(s[1..]) by {
        forall i, j | 0 <= i < j < |s[1..]| ensures s[1..][i].idColis != s[1..][j].idColis {
          assert s[1..][i] == s[i + 1] && s[1..][j] == s[j + 1];
        }
      }
      FilterOneRowPerColis(s[1..], w);
      var t := Filter(s[1..], w);
      if Holds(w, s[0]) {
        forall j | 0 <= j < |t| ensures s[0].idColis != t[j].idColis {
          assert t[j] in s[1..];
        }
        assert AtMostOneRowPerColis([s[0]] + t) by {
          forall i, j | 0 <= i < j < |[s[0]] + t|
            ensures ([s[0]] + t)[i].idColis != ([s[0]] + t)[j].idColis
          {
            if i > 0 {
              assert ([s[0]] + t)[i] == t[i - 1] && ([s[0]] + t)[j] == t[j - 1];
            }
          }
        }
      }
    }
  }

  /** Under the primary key, deleting by the key of row i removes that row
      and nothing else. */
  lemma RemoveUniqueKey(rows: seq<Place>, i: nat)
    requires KeysUnique(rows) && i < |rows|
    ensures Filter(rows, KeyIsNot(KeyOf(rows[i]))) == rows[..i] + rows[i + 1..]
  {
    FilterDropsOne(rows, KeyIsNot(KeyOf(rows[i])), i);
  }

  /** A filter that fails on row i only removes exactly row i. */
  lemma {:induction false} FilterDropsOne(s: seq<Place>, w: Where, i: nat)
    requires i < |s| && !Holds(w, s[i])
    requires forall j :: 0 <= j < |s| && j != i ==> Holds(w, s[j])
    ensures Filter(s, w) == s[..i] + s[i + 1..]
  {
    var tail := s[1..];
    if i == 0 {
      assert forall j :: 0 <= j < |tail| ==> Holds(w, tail[j]) by {
        forall j | 0 <= j < |tail| ensures Holds(w, tail[j]) {
          assert tail[j] == s[j + 1];
        }
      }
      FilterKeepsAll(tail, w);
      assert s[..i] + s[i + 1..] == tail;
    } else {
      assert forall j :: 0 <= j < |tail| && j != i - 1 ==> Holds(w, tail[j]) by {
        forall j | 0 <= j < |tail| && j != i - 1 ensures Holds(w, tail[j]) {
          assert tail[j] == s[j + 1];
        }
      }
      assert !Holds(w, tail[i - 1]) by {
        assert tail[i - 1] == s[i];
      }
      FilterDropsOne(tail, w, i - 1);
      assert Holds(w, s[0]);
      assert s[..i] + s[i + 1..] == [s[0]] + (tail[..i - 1] + tail[i..]);
    }
  }

  /** A filter every row passes leaves the table as it is. */
  lemma {:induction false} FilterKeepsAll(s: seq<Place>, w: Where)
    requires forall j :: 0 <= j < |s| ==> Holds(w, s[j])
    ensures Filter(s, w) == s
  {
    if s != [] {
      var tail := s[1..];
      assert forall j :: 0 <= j < |tail| ==> Holds(w, tail[j]) by {
        forall j | 0 <= j < |tail| ensures Holds(w, tail[j]) {
          assert tail[j] == s[j + 1];
        }
      }
      FilterKeepsAll(tail, w);
    }
  }
}
