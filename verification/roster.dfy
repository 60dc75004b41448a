/** The roster worksheet ("Kids") and `find_kid_by_id`. */
module Roster {
  import opened Wrappers
  import opened Search

  /** One roster record: the `ID` column as text and the `Name` column. */
  datatype Kid = Kid(id: string, name: string)

  predicate InRoster(roster: seq<Kid>, kidId: string) {
    exists i :: 0 <= i < |roster| && roster[i].id == kidId
  }

  /** `find_kid_by_id`: the first record whose `ID` equals `kidId`. */
  function FindKidById(roster: seq<Kid>, kidId: string): (r: Option<Kid>)
    ensures r.None? <==> !InRoster(roster, kidId)
    ensures r.Some? ==> r.value.id == kidId
    ensures r.Some? ==> exists i :: 0 <= i < |roster| && roster[i] == r.value
                                 && forall j :: 0 <= j < i ==> roster[j].id != kidId
  {
    match FirstMatch(roster, (k: Kid) => k.id == kidId)
    case None => None
    case Some(i) => Some(roster[i])
  }
}
