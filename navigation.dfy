/** The navigation bar: the sticky flag, the active-link highlighting by
    scroll position, and the mobile menu's three click handlers. The
    document's class lists and attributes are fields of one object. */
module Navigation {

  /** The bar turns sticky once the page has scrolled past this many pixels. */
  const StickyThreshold: real := 50.0

  /** The point compared with the sections lies this far below `scrollY`. */
  const ProbeOffset: real := 100.0

  /** A `section[id]` of the page, in document order, with its `offsetTop`
      and `offsetHeight`. */
  datatype Section = Section(id: string, top: real, height: real)

  predicate Covers(s: Section, pos: real) {
    s.top <= pos < s.top + s.height
  }

  /** The value `setAttribute` stores for a boolean. */
  function AriaValue(b: bool): string {
    if b then "true" else "false"
  }

  /** The active marks after processing one covering section: a link is
      active exactly when its href is `'#'` followed by the section's id. */
  function MarksFor(hrefs: seq<string>, id: string): (m: seq<bool>)
    ensures |m| == |hrefs|
    ensures forall k :: 0 <= k < |m| && m[k] ==> hrefs[k] == "#" + id
    ensures true in m <==> "#" + id in hrefs
  {
    var m := seq(|hrefs|, k requires 0 <= k < |hrefs| => hrefs[k] == "#" + id);
    assert "#" + id in hrefs ==> true in m by {
      if "#" + id in hrefs {
        var k :| 0 <= k < |hrefs| && hrefs[k] == "#" + id;
        assert m[k];
      }
    }
    m
  }

  /** The active marks after `updateActiveLink` has gone through `sections`
      in order, starting from `active`: each covering section replaces all
      marks, any other leaves them. */
  function ActiveAfter(active: seq<bool>, hrefs: seq<string>, sections: seq<Section>, pos: real): (r: seq<bool>)
    requires |active| == |hrefs|
    ensures |r| == |hrefs|
    ensures r == active ||
      exists k :: 0 <= k < |sections| && Covers(sections[k], pos) && r == MarksFor(hrefs, sections[k].id)
    decreases |sections|
  {
    if sections == [] then active
    else
      var last := sections[|sections| - 1];
      if Covers(last, pos) then MarksFor(hrefs, last.id)
      else
        var init := sections[..|sections| - 1];
        assert forall k :: 0 <= k < |init| ==> init[k] == sections[k];
        ActiveAfter(active, hrefs, init, pos)
  }

  /** The index of the last section covering `pos`, or -1 when none does. */
  function LastCovering(sections: seq<Section>, pos: real): (r: int)
    ensures -1 <= r < |sections|
    ensures 0 <= r ==> Covers(sections[r], pos)
    ensures forall k :: r < k < |sections| ==> !Covers(sections[k], pos)
    decreases |sections|
  {
    if sections == [] then -1
    else if Covers(sections[|sections| - 1], pos) then |sections| - 1
    else LastCovering(sections[..|sections| - 1], pos)
  }

  /** The later covering section wins; with no covering section the marks
      are left as they were. */
  lemma {:induction false} ActiveAfterLastCovering(active: seq<bool>, hrefs: seq<string>, sections: seq<Section>, pos: real)
    requires |active| == |hrefs|
    ensures var m := LastCovering(sections, pos);
      ActiveAfter(active, hrefs, sections, pos) ==
        if m == -1 then active else MarksFor(hrefs, sections[m].id)
    decreases |sections|
  {
    if sections != [] && !Covers(sections[|sections| - 1], pos) {
      var init := sections[..|sections| - 1];
      ActiveAfterLastCovering(active, hrefs, init, pos);
      var m := LastCovering(init, pos);
      assert m != -1 ==> init[m] == sections[m];
    }
  }

  /** When some section covers the probe point, exactly the links pointing at
      the last such section are active afterwards. */
  lemma ActiveLinksPointAtSection(active: seq<bool>, hrefs: seq<string>, sections: seq<Section>, pos: real, k: int)
    requires |active| == |hrefs| && 0 <= k < |hrefs|
    requires LastCovering(sections, pos) != -1
    ensures var a := ActiveAfter(active, hrefs, sections, pos);
      |a| == |hrefs| && (a[k] <==> hrefs[k] == "#" + sections[LastCovering(sections, pos)].id)
  {
    ActiveAfterLastCovering(active, hrefs, sections, pos);
  }

  /** With no section covering the probe point nothing changes. */
  lemma NoCoveringKeepsMarks(active: seq<bool>, hrefs: seq<string>, sections: seq<Section>, pos: real)
    requires |active| == |hrefs|
    requires forall k :: 0 <= k < |sections| ==> !Covers(sections[k], pos)
    ensures ActiveAfter(active, hrefs, sections, pos) == active
  {
    ActiveAfterLastCovering(active, hrefs, sections, pos);
  }

  /** The navigation elements' state: the nav's `nav--scrolled` class, the
      menu's `nav__menu--open` class, the hamburger's `nav__hamburger--open`
      class and `aria-expanded` attribute, and each nav link's
      `nav__link--active` class. */
  class NavBar {
    /** The hrefs of the `.nav__link` elements, looked up once at load. */
    const hrefs: seq<string>
    var scrolled: bool
    var menuOpen: bool
    var hamburgerOpen: bool
    var ariaExpanded: string
    var active: seq<bool>

    ghost predicate Valid()
      reads this
    {
      |active| == |hrefs|
    }

    /** `aria-expanded` tells the truth about the menu. */
    ghost predicate AriaInSync()
      reads this
    {
      ariaExpanded == AriaValue(menuOpen)
    }

    /** The page as loaded: menu closed, `aria-expanded="false"`, no link
        active, not scrolled. */
    constructor (hrefs: seq<string>)
      ensures Valid() && AriaInSync() && this.hrefs == hrefs
      ensures !scrolled && !menuOpen && !hamburgerOpen
      ensures forall k :: 0 <= k < |active| ==> !active[k]
    {
      this.hrefs := hrefs;
      scrolled := false;
      menuOpen := false;
      hamburgerOpen := false;
      ariaExpanded := "false";
      active := seq(|hrefs|, k => false);
    }

    /** The hamburger's click handler: both classes flip and `aria-expanded`
        takes the menu's new state. */
    method ToggleMenu()
      modifies this`menuOpen, this`hamburgerOpen, this`ariaExpanded
      ensures menuOpen == !old(menuOpen) && hamburgerOpen == !old(hamburgerOpen)
      ensures AriaInSync()
    {
      menuOpen := !menuOpen;
      hamburgerOpen := !hamburgerOpen;
      ariaExpanded := AriaValue(menuOpen);
    }

    /** A nav link's click handler: the menu closes. */
    method LinkClicked()
      modifies this`menuOpen, this`hamburgerOpen, this`ariaExpanded
      ensures !menuOpen && !hamburgerOpen && AriaInSync()
    {
      menuOpen := false;
      hamburgerOpen := false;
      ariaExpanded := "false";
    }

    /** The document's click handler: a click outside the nav closes an open
        menu; any other click changes nothing. */
    method DocumentClicked(targetInNav: bool)
      modifies this`menuOpen, this`hamburgerOpen, this`ariaExpanded
      ensures !targetInNav && old(menuOpen) ==> !menuOpen && !hamburgerOpen && AriaInSync()
      ensures targetInNav || !old(menuOpen) ==>
        menuOpen == old(menuOpen) && hamburgerOpen == old(hamburgerOpen) &&
        ariaExpanded == old(ariaExpanded)
      ensures old(AriaInSync()) ==> AriaInSync()
    {
      if !targetInNav && menuOpen {
        menuOpen := false;
        hamburgerOpen := false;
        ariaExpanded := "false";
      }
    }

    /** `updateActiveLink`: for every section, in document order, that covers
        `scrollY + 100`, every link's mark is removed and put back exactly on
        the links whose href is `'#' + id`. */
    method UpdateActiveLink(scrollY: real, sections: seq<Section>)
      requires Valid()
      modifies this`active
      ensures Valid()
      ensures active == ActiveAfter(old(active), hrefs, sections, scrollY + ProbeOffset)
    {
      var pos := scrollY + ProbeOffset;
      var s := 0;
      while s < |sections|
        invariant 0 <= s <= |sections|
        invariant |active| == |hrefs|
        invariant active == ActiveAfter(old(active), hrefs, sections[..s], pos)
      {
        var section := sections[s];
        if pos >= section.top && pos < section.top + section.height {
          var k := 0;
          while k < |hrefs|
            invariant 0 <= k <= |hrefs| == |active|
            invariant forall m :: 0 <= m < k ==> active[m] == (hrefs[m] == "#" + section.id)
          {
            active := active[k := false];
            if hrefs[k] == "#" + section.id {
              active := active[k := true];
            }
            k := k + 1;
          }
          assert active == MarksFor(hrefs, section.id);
        }
        assert sections[..s + 1][..s] == sections[..s];
        s := s + 1;
      }
      assert sections[..|sections|] == sections;
    }

    /** The scroll handler: the sticky flag follows `scrollY > 50`, then the
        active links are updated. */
    method HandleScroll(scrollY: real, sections: seq<Section>)
      requires Valid()
      modifies this`scrolled, this`active
      ensures Valid()
      ensures scrolled <==> scrollY > StickyThreshold
      ensures active == ActiveAfter(old(active), hrefs, sections, scrollY + ProbeOffset)
    {
      scrolled := scrollY > StickyThreshold;
      UpdateActiveLink(scrollY, sections);
    }
  }
}
