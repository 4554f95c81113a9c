/** The activity record as the filters and the recommender read it, after loading.
    Dates are day numbers; `None` stands for an empty (NaN/NaT) cell. */
module Activities {
  import opened Util

  datatype Activity = Activity(
    id: int,                     // -1 stands for an ID that is missing or not numeric
    art: Option<string>,         // Art: the activity type ("Kultur", "Sport", ...)
    zielgruppe: Option<string>,  // Zielgruppe: comma-separated target-group tags
    price: Option<real>,         // Preis_Ca
    datumVon: Option<int>,       // Datum_Von: first day the activity is available
    datumBis: Option<int>,       // Datum_Bis: last day the activity is available
    personenMin: Option<real>,   // Personen_Min
    personenMax: Option<real>,   // Personen_Max; None is empty or unbounded (inf)
    wetterPref: Option<string>,  // Wetter_Praeferenz: 'Egal', 'Nur Sonne', 'Nur Regen', ...
    latitude: Option<real>,
    longitude: Option<real>)

  /** The IDs of a table, row by row (the `ID` column). */
  function Ids(t: seq<Activity>): (r: seq<int>)
    ensures |r| == |t|
    ensures forall i :: 0 <= i < |t| ==> r[i] == t[i].id
  {
    Map(t, (a: Activity) => a.id)
  }

  /** The rows whose ID is among `ids` (pandas `df[df['ID'].isin(ids)]`). */
  function RowsWithIds(t: seq<Activity>, ids: seq<int>): (r: seq<Activity>)
    ensures forall a :: a in r <==> a in t && a.id in ids
    ensures |r| <= |t|
  {
    Filter(t, (a: Activity) => a.id in ids)
  }
}
