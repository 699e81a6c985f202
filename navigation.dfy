/** Highlighting the navigation link of the section the page is scrolled to. */
module Navigation {

  /** A `section[id]`: its `id` attribute and its `offsetTop` in whole CSS
      pixels. */
  datatype Section = Section(id: string, offsetTop: int)

  /** A `.nav-link` or `.mobile-nav-link`: its `href` attribute and whether it
      carries the `active` class. */
  datatype NavLink = NavLink(href: string, active: bool)

  /** How far above its top a section already counts as reached. */
  const ScrollMargin := 100

  /** The page, scrolled to `pageYOffset`, has reached the section. */
  predicate Reached(s: Section, pageYOffset: real) {
    pageYOffset >= (s.offsetTop - ScrollMargin) as real
  }

  /** Section `k` is reached and no later section in document order is. */
  ghost predicate IsLastReached(sections: seq<Section>, pageYOffset: real, k: int) {
    && 0 <= k < |sections|
    && Reached(sections[k], pageYOffset)
    && forall j :: k < j < |sections| ==> !Reached(sections[j], pageYOffset)
  }

  /** The id of the current section, searched from the end of the document. */
  function CurrentSectionId(sections: seq<Section>, pageYOffset: real): string {
    if sections == [] then ""
    else if Reached(sections[|sections| - 1], pageYOffset) then sections[|sections| - 1].id
    else CurrentSectionId(sections[..|sections| - 1], pageYOffset)
  }

  /** With no section reached the current id is empty, so the links that
      end up highlighted are those whose `href` is a bare `#`. */
  lemma {:induction false} CurrentSectionIdOfNone(sections: seq<Section>, pageYOffset: real)
    requires forall k :: 0 <= k < |sections| ==> !Reached(sections[k], pageYOffset)
    ensures CurrentSectionId(sections, pageYOffset) == ""
  {
    if sections != [] {
      var front := sections[..|sections| - 1];
      assert forall k :: 0 <= k < |front| ==> front[k] == sections[k];
      CurrentSectionIdOfNone(front, pageYOffset);
    }
  }

  /** The current section is the last one, in document order, that the page
      has reached. */
  lemma {:induction false} CurrentSectionIdOfLast(sections: seq<Section>, pageYOffset: real, k: int)
    requires IsLastReached(sections, pageYOffset, k)
    ensures CurrentSectionId(sections, pageYOffset) == sections[k].id
  {
    var n := |sections| - 1;
    if k < n {
      var front := sections[..n];
      assert !Reached(sections[n], pageYOffset);
      assert front[k] == sections[k];
      assert forall j :: k < j < |front| ==> front[j] == sections[j];
      assert IsLastReached(front, pageYOffset, k);
      CurrentSectionIdOfLast(front, pageYOffset, k);
    }
  }

  /** The navigation state `initNavigation` works on: the sections, which the
      script only reads, and the links whose `active` class it sets. */
  class Navigation {
    var sections: seq<Section>
    var links: seq<NavLink>

    constructor (sections: seq<Section>, links: seq<NavLink>)
      ensures this.sections == sections && this.links == links
    {
      this.sections := sections;
      this.links := links;
    }

    /** The first loop of `updateActiveNavLink`: walk the sections in
        document order and remember the id of each one reached. */
    method FindCurrent(pageYOffset: real) returns (current: string)
      ensures current == CurrentSectionId(sections, pageYOffset)
    {
      current := "";
      var i := 0;
      while i < |sections|
        invariant 0 <= i <= |sections|
        invariant current == CurrentSectionId(sections[..i], pageYOffset)
      {
        assert sections[..i + 1][..i] == sections[..i];
        if Reached(sections[i], pageYOffset) {
          current := sections[i].id;
        }
        i := i + 1;
      }
      assert sections[..i] == sections;
    }

    /** `updateActiveNavLink`, the scroll listener: afterwards a link is
        active exactly when its `href` is `#` followed by the current
        section's id; no `href` changes and no other link stays active. */
    method UpdateActiveNavLink(pageYOffset: real)
      modifies this`links
      ensures |links| == |old(links)|
      ensures forall k :: 0 <= k < |links| ==>
        links[k] == NavLink(old(links)[k].href, old(links)[k].href == "#" + CurrentSectionId(sections, pageYOffset))
    {
      var current := FindCurrent(pageYOffset);
      ghost var before := links;
      var i := 0;
      while i < |links|
        invariant 0 <= i <= |links| == |before|
        invariant forall k :: 0 <= k < i ==> links[k] == NavLink(before[k].href, before[k].href == "#" + current)
        invariant forall k :: i <= k < |links| ==> links[k] == before[k]
      {
        links := links[i := links[i].(active := false)];
        if links[i].href == "#" + current {
          links := links[i := links[i].(active := true)];
        }
        i := i + 1;
      }
    }
  }
}
