/**
 * The hard-coded office-space catalogue. The booking page and the office-spaces
 * page each declare the same three spaces, with the same ids and titles in the
 * same order; only the id and the title take part in any computation.
 */
module Catalogue {
  import opened Wrappers

  datatype Space = Space(id: string, title: string)

  const PrivateOffice := Space("private-office", "Private Office Suite")
  const MeetingRoom := Space("meeting-room", "Dynamic Meeting Room")
  const Coworking := Space("coworking-space", "Collaborative Coworking")

  const Spaces: seq<Space> := [PrivateOffice, MeetingRoom, Coworking]

  /** Some entry of `spaces` carries `id`. */
  predicate HasId(spaces: seq<Space>, id: string)
  {
    exists i :: 0 <= i < |spaces| && spaces[i].id == id
  }

  /** No two entries share an id. */
  predicate DistinctIds(spaces: seq<Space>)
  {
    forall i, j :: 0 <= i < j < |spaces| ==> spaces[i].id != spaces[j].id
  }

  /**
   * `spaces.find(space => space.id === id)`: the first entry carrying `id`,
   * or nothing when no entry does.
   */
  function Find(spaces: seq<Space>, id: string): (r: Option<Space>)
    ensures r.None? <==> !HasId(spaces, id)
    ensures r.Some? ==> exists k :: 0 <= k < |spaces| && spaces[k] == r.value && r.value.id == id
                                     && forall j :: 0 <= j < k ==> spaces[j].id != id
  {
    if |spaces| == 0 then None
    else if spaces[0].id == id then Some(spaces[0])
    else
      var r := Find(spaces[1..], id);
      assert HasId(spaces[1..], id) ==> HasId(spaces, id) by {
        if HasId(spaces[1..], id) {
          var i :| 0 <= i < |spaces[1..]| && spaces[1..][i].id == id;
          assert spaces[i + 1].id == id;
        }
      }
      assert r.Some? ==> exists k :: 0 <= k < |spaces| && spaces[k] == r.value && r.value.id == id
                                     && forall j :: 0 <= j < k ==> spaces[j].id != id by {
        if r.Some? {
          var k :| 0 <= k < |spaces[1..]| && spaces[1..][k] == r.value && r.value.id == id
                   && forall j :: 0 <= j < k ==> spaces[1..][j].id != id;
          assert spaces[k + 1] == r.value;
          assert forall j :: 0 <= j < k + 1 ==> spaces[j].id != id by {
            forall j | 0 <= j < k + 1
              ensures spaces[j].id != id
            {
              if j > 0 {
                assert spaces[j] == spaces[1..][j - 1];
              }
            }
          }
        }
      }
      r
  }

  /** What `${office?.title}` renders: the title, or the text `undefined` on a miss. */
  function TitleText(office: Option<Space>): string
  {
    match office
    case Some(space) => space.title
    case None => "undefined"
  }

  /** The catalogue's ids are distinct, so a by-id lookup names exactly one entry. */
  lemma SpacesHaveDistinctIds()
    ensures DistinctIds(Spaces)
    ensures forall i :: 0 <= i < |Spaces| ==> Find(Spaces, Spaces[i].id) == Some(Spaces[i])
  {
  }
}
