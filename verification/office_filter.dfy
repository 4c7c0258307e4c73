/**
 * The office-spaces page: a row of filter buttons and the list of spaces that
 * the selected filter lets through.
 */
module OfficeFilter {
  import opened Text
  import opened Catalogue

  /** A filter button: its id and its text, the source's `label` property (`label` is reserved in Dafny). */
  datatype Filter = Filter(id: string, caption: string)

  /** The filter buttons, in display order. */
  const Filters: seq<Filter> := [
    Filter("all", "All Spaces"),
    Filter("private", "Private Offices"),
    Filter("meeting", "Meeting Rooms"),
    Filter("coworking", "Coworking")
  ]

  /** The filter selected when the page loads. */
  const InitialSelection: string := "all"

  /** One of the three category tokens that the filter predicate tests by substring. */
  predicate IsCategory(token: string)
  {
    token == "private" || token == "meeting" || token == "coworking"
  }

  /** The predicate handed to `officeSpaces.filter` when the selection is not "all". */
  function Keeps(selected: string, space: Space): bool
  {
    if selected == "private" then Includes(space.id, "private")
    else if selected == "meeting" then Includes(space.id, "meeting")
    else if selected == "coworking" then Includes(space.id, "coworking")
    else true
  }

  /** `xs` is obtained from `ys` by deleting entries, keeping the rest in order. */
  ghost predicate Subsequence<T>(xs: seq<T>, ys: seq<T>)
    decreases |ys|
  {
    if |xs| == 0 then true
    else if |ys| == 0 then false
    else (xs[0] == ys[0] && Subsequence(xs[1..], ys[1..])) || Subsequence(xs, ys[1..])
  }

  /** `Array.prototype.filter` with `Keeps(selected, _)`. */
  function FilterBy(selected: string, spaces: seq<Space>): (r: seq<Space>)
    ensures |r| <= |spaces|
    ensures Subsequence(r, spaces)
    ensures forall s :: s in r ==> s in spaces && Keeps(selected, s)
    ensures forall s :: s in spaces && Keeps(selected, s) ==> s in r
  {
    if |spaces| == 0 then []
    else
      var rest := FilterBy(selected, spaces[1..]);
      if Keeps(selected, spaces[0]) then
        assert ([spaces[0]] + rest)[1..] == rest;
        [spaces[0]] + rest
      else
        assert Subsequence(rest, spaces) by {
          if |rest| > 0 {
            assert Subsequence(rest, spaces[1..]);
          }
        }
        rest
  }

  /** Filtering keeps every kept entry as often as it occurs in the input, and drops every other entry. */
  lemma {:induction false} FilterByCounts(selected: string, spaces: seq<Space>)
    ensures forall s :: multiset(FilterBy(selected, spaces))[s]
                        == if Keeps(selected, s) then multiset(spaces)[s] else 0
    decreases |spaces|
  {
    if |spaces| > 0 {
      FilterByCounts(selected, spaces[1..]);
      assert spaces == [spaces[0]] + spaces[1..];
      assert multiset(spaces) == multiset([spaces[0]]) + multiset(spaces[1..]);
      if Keeps(selected, spaces[0]) {
        var rest := FilterBy(selected, spaces[1..]);
        assert multiset([spaces[0]] + rest) == multiset([spaces[0]]) + multiset(rest);
      }
    }
  }

  /** `filteredSpaces`: the whole catalogue for "all", otherwise the filtered list. */
  function Filtered(selected: string, spaces: seq<Space>): (r: seq<Space>)
    ensures selected == "all" ==> r == spaces
    ensures |r| <= |spaces|
    ensures Subsequence(r, spaces)
  {
    if selected == "all" then
      SubsequenceReflexive(spaces);
      spaces
    else
      FilterBy(selected, spaces)
  }

  /** Every sequence is a subsequence of itself. */
  lemma {:induction false} SubsequenceReflexive<T>(xs: seq<T>)
    ensures Subsequence(xs, xs)
    decreases |xs|
  {
    if |xs| > 0 {
      SubsequenceReflexive(xs[1..]);
    }
  }

  /** For a category token, the result is exactly the spaces whose id contains the token. */
  lemma FilterCategory(token: string, spaces: seq<Space>)
    requires IsCategory(token)
    ensures forall s :: s in Filtered(token, spaces) ==> s in spaces && Occurs(s.id, token)
    ensures forall s :: s in spaces && Occurs(s.id, token) ==> s in Filtered(token, spaces)
  {
    forall s: Space
      ensures Keeps(token, s) <==> Occurs(s.id, token)
    {
      IncludesIffOccurs(s.id, token);
    }
  }

  /** Any token other than "all" and the three categories keeps every space, in order. */
  lemma {:induction false} FilterUnknownKeepsAll(token: string, spaces: seq<Space>)
    requires token != "all" && !IsCategory(token)
    ensures Filtered(token, spaces) == spaces
    decreases |spaces|
  {
    if |spaces| > 0 {
      FilterUnknownKeepsAll(token, spaces[1..]);
      assert [spaces[0]] + spaces[1..] == spaces;
    }
  }

  /** Filtering a list one entry longer decides that entry and filters the rest. */
  lemma FilterByCons(selected: string, x: Space, xs: seq<Space>)
    ensures FilterBy(selected, [x] + xs)
            == if Keeps(selected, x) then [x] + FilterBy(selected, xs) else FilterBy(selected, xs)
  {
    assert ([x] + xs)[1..] == xs;
  }

  /** A one-entry list, filtered, keeps the entry iff the predicate does. */
  lemma FilterByOne(selected: string, c: Space)
    ensures FilterBy(selected, [c]) == if Keeps(selected, c) then [c] else []
  {
    FilterByCons(selected, c, []);
    assert [c] + [] == [c];
  }

  /** A two-entry list, filtered, is decided entry by entry. */
  lemma FilterByTwo(selected: string, b: Space, c: Space)
    ensures FilterBy(selected, [b, c])
            == (if Keeps(selected, b) then [b] else []) + (if Keeps(selected, c) then [c] else [])
  {
    FilterByOne(selected, c);
    FilterByCons(selected, b, [c]);
    assert [b] + [c] == [b, c];
  }

  /** A three-entry list, filtered, is decided entry by entry. */
  lemma FilterByThree(selected: string, a: Space, b: Space, c: Space)
    ensures FilterBy(selected, [a, b, c])
            == (if Keeps(selected, a) then [a] else [])
               + (if Keeps(selected, b) then [b] else [])
               + (if Keeps(selected, c) then [c] else [])
  {
    var kc := if Keeps(selected, c) then [c] else [];
    var kb := if Keeps(selected, b) then [b] else [];
    var ka := if Keeps(selected, a) then [a] else [];
    FilterByTwo(selected, b, c);
    FilterByCons(selected, a, [b, c]);
    assert [a] + [b, c] == [a, b, c];
    assert ka + (kb + kc) == ka + kb + kc;
  }

  /** The character tests that decide which catalogue ids fall under which category. */
  lemma MeetingRoomIsNotPrivate() ensures !Includes(MeetingRoom.id, "private")
  { NotIncludedWhenCharMissing(MeetingRoom.id, "private", 0); }

  lemma CoworkingIsNotPrivate() ensures !Includes(Coworking.id, "private")
  { NotIncludedWhenCharMissing(Coworking.id, "private", 3); }

  lemma PrivateOfficeIsNotMeeting() ensures !Includes(PrivateOffice.id, "meeting")
  { NotIncludedWhenCharMissing(PrivateOffice.id, "meeting", 0); }

  lemma CoworkingIsNotMeeting() ensures !Includes(Coworking.id, "meeting")
  { NotIncludedWhenCharMissing(Coworking.id, "meeting", 0); }

  lemma PrivateOfficeIsNotCoworking() ensures !Includes(PrivateOffice.id, "coworking")
  { NotIncludedWhenCharMissing(PrivateOffice.id, "coworking", 2); }

  lemma MeetingRoomIsNotCoworking() ensures !Includes(MeetingRoom.id, "coworking")
  { NotIncludedWhenCharMissing(MeetingRoom.id, "coworking", 2); }

  /** Against the catalogue, "private" yields exactly the private office. */
  lemma FilterCataloguePrivate()
    ensures Filtered("private", Spaces) == [PrivateOffice]
  {
    assert Includes(PrivateOffice.id, "private");
    MeetingRoomIsNotPrivate();
    CoworkingIsNotPrivate();
    FilterByThree("private", PrivateOffice, MeetingRoom, Coworking);
  }

  /** Against the catalogue, "meeting" yields exactly the meeting room. */
  lemma FilterCatalogueMeeting()
    ensures Filtered("meeting", Spaces) == [MeetingRoom]
  {
    assert Includes(MeetingRoom.id, "meeting");
    PrivateOfficeIsNotMeeting();
    CoworkingIsNotMeeting();
    FilterByThree("meeting", PrivateOffice, MeetingRoom, Coworking);
  }

  /** Against the catalogue, "coworking" yields exactly the coworking space. */
  lemma FilterCatalogueCoworking()
    ensures Filtered("coworking", Spaces) == [Coworking]
  {
    assert Includes(Coworking.id, "coworking");
    PrivateOfficeIsNotCoworking();
    MeetingRoomIsNotCoworking();
    FilterByThree("coworking", PrivateOffice, MeetingRoom, Coworking);
  }

  /** Clicking a filter button selects that button's id; nothing else changes the selection. */
  function Click(selected: string, button: nat): (r: string)
    ensures button < |Filters| ==> r == Filters[button].id
    ensures button >= |Filters| ==> r == selected
  {
    if button < |Filters| then Filters[button].id else selected
  }

  /** The selection after a sequence of button clicks, starting from `selected`. */
  function ClickAll(selected: string, buttons: seq<nat>): string
    decreases |buttons|
  {
    if |buttons| == 0 then selected
    else ClickAll(Click(selected, buttons[0]), buttons[1..])
  }

  /** Whether the selection is one of the filter buttons' ids. */
  predicate IsFilterId(selected: string)
  {
    exists i :: 0 <= i < |Filters| && Filters[i].id == selected
  }

  /** Any sequence of clicks from the initial selection ends on a filter button's id. */
  lemma {:induction false} ClicksSelectFilterIds(selected: string, buttons: seq<nat>)
    requires IsFilterId(selected)
    ensures IsFilterId(ClickAll(selected, buttons))
    decreases |buttons|
  {
    if |buttons| > 0 {
      var next := Click(selected, buttons[0]);
      assert IsFilterId(next) by {
        if buttons[0] < |Filters| {
          assert Filters[buttons[0]].id == next;
        }
      }
      ClicksSelectFilterIds(next, buttons[1..]);
    }
  }

  /** How many of `buttons` are drawn highlighted for the selection `selected`. */
  function HighlightCount(selected: string, buttons: seq<Filter>): nat
    decreases |buttons|
  {
    if |buttons| == 0 then 0
    else (if buttons[0].id == selected then 1 else 0) + HighlightCount(selected, buttons[1..])
  }

  /** With distinct ids, a button is highlighted iff its id is selected, and at most one is. */
  lemma {:induction false} HighlightCountOfDistinct(selected: string, buttons: seq<Filter>)
    requires forall i, j :: 0 <= i < j < |buttons| ==> buttons[i].id != buttons[j].id
    ensures HighlightCount(selected, buttons)
            == if exists i :: 0 <= i < |buttons| && buttons[i].id == selected then 1 else 0
    decreases |buttons|
  {
    if |buttons| > 0 {
      HighlightCountOfDistinct(selected, buttons[1..]);
      var tail := buttons[1..];
      if buttons[0].id == selected {
        assert forall i :: 0 <= i < |tail| ==> tail[i].id != selected by {
          forall i | 0 <= i < |tail|
            ensures tail[i].id != selected
          {
            assert tail[i] == buttons[i + 1];
          }
        }
      } else {
        assert (exists i :: 0 <= i < |buttons| && buttons[i].id == selected)
               <==> (exists i :: 0 <= i < |tail| && tail[i].id == selected) by {
          if exists i :: 0 <= i < |buttons| && buttons[i].id == selected {
            var i :| 0 <= i < |buttons| && buttons[i].id == selected;
            assert tail[i - 1] == buttons[i];
          }
          if exists i :: 0 <= i < |tail| && tail[i].id == selected {
            var i :| 0 <= i < |tail| && tail[i].id == selected;
            assert buttons[i + 1] == tail[i];
          }
        }
      }
    }
  }

  /** Whatever the user has clicked, exactly one filter button is highlighted. */
  lemma ExactlyOneHighlighted(buttons: seq<nat>)
    ensures HighlightCount(ClickAll(InitialSelection, buttons), Filters) == 1
  {
    assert Filters[0].id == InitialSelection;
    ClicksSelectFilterIds(InitialSelection, buttons);
    HighlightCountOfDistinct(ClickAll(InitialSelection, buttons), Filters);
  }
}
