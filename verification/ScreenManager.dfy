/** The list of screens (kernel/screen.cpp): a chain through `next`, appended at the end. */
module ScreenManager {
  import opened Screens

  class ScreenManager {
    var screens: Screen?
    ghost var list: seq<Screen>  // the screens in the order they were set

    /** The chain from `screens` visits `list` in order and ends: it is acyclic. */
    ghost predicate Valid()
      reads this, list
    {
      && screens == (if list == [] then null else list[0])
      && (forall i :: 0 <= i < |list| ==> list[i].next == Follower(list, i))
      && (forall i, j :: 0 <= i < j < |list| ==> list[i] != list[j])
    }

    static ghost function Follower(list: seq<Screen>, i: nat): Screen? {
      if i + 1 < |list| then list[i + 1] else null
    }

    /** Each screen but the last links to the one after it. */
    static ghost predicate Linked(list: seq<Screen>)
      reads list
    {
      forall i :: 0 <= i < |list| - 1 ==> list[i].next == list[i + 1]
    }

    constructor ()
      ensures Valid() && list == []
    {
      screens := null;
      list := [];
    }

    /** The source sets the first screen on storage that is zero. */
    constructor WithScreen(s: Screen)
      requires s.next == null
      ensures Valid() && list == [s]
    {
      screens := s;
      list := [s];
    }

    method GetLast() returns (last: Screen?)
      requires Valid()
      ensures last == if list == [] then null else list[|list| - 1]
    {
      if screens == null {
        return null;
      }
      if screens.next == null {
        return screens;
      }
      last := screens;
      ghost var k := 0;
      while last.next != null
        invariant 0 <= k < |list| && last == list[k]
        decreases |list| - k
      {
        last := last.next;
        k := k + 1;
      }
    }

    /**
     Appends a screen. A screen that is not in the list, and links nowhere, extends it; one that is
     already listed is linked behind the last, so that from there the chain never ends.
     */
    method SetScreen(s: Screen) returns (r: Screen)
      requires Valid() && (s in list || s.next == null)
      modifies this, list
      ensures r == s
      ensures if s in old(list) then list == old(list) && list[|list| - 1].next == s && !Valid()
              else list == old(list) + [s] && Valid()
      ensures Linked(list)
    {
      ghost var listed := s in list;
      var last := GetLast();
      if last == null {
        screens := s;
      } else {
        last.next := s;
      }
      if listed {
        assert Follower(list, |list| - 1) == null;
        assert forall i :: 0 <= i < |list| - 1 ==> list[i].next == old(list[i].next);
      } else {
        list := list + [s];
      }
      return s;
    }

    /** The screen at `index`, null past the end; an index below zero gives the first. */
    method GetScreen(index: int) returns (s: Screen?)
      requires Valid()
      ensures s == if index < |list| && list != [] then list[if index < 0 then 0 else index] else null
    {
      s := screens;
      var i := 0;
      while i < index
        invariant 0 <= i && (index <= 0 ==> i == 0) && (index >= 0 ==> i <= index)
        invariant s == if i < |list| then list[i] else null
      {
        if s == null {
          return null;
        } else {
          s := s.next;
        }
        i := i + 1;
      }
    }
  }
}
