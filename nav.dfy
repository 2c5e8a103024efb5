/**
 * Navigation highlighting (script.js:6-26 and 46-65). A section is an element
 * carrying an id, with its offsetTop and offsetHeight in pixels; a link is a
 * navigation anchor with its href and whether it bears the 'active' class.
 */
module Nav {
  import opened Wrappers

  /**
   * An element carrying an id. The scroll rule is given the `section[id]`
   * elements; the click rule's lookup is given every id-carrying element.
   */
  datatype Section = Section(id: string, top: int, height: int)
  datatype Link = Link(href: string, active: bool)

  /** Pixels added to pageYOffset before the sections are tested. */
  const Lookahead: int := 100

  /** The fragment that refers to `id`, as a link's href spells it. */
  function Fragment(id: string): (r: string) {
    "#" + id
  }

  /** The scroll rule's test: the looked-ahead offset is in `[top, top + height)`. */
  predicate Matches(s: Section, pageYOffset: int) {
    s.top <= pageYOffset + Lookahead < s.top + s.height
  }

  /**
   * The section whose 'active' marking survives a scroll event: every matching
   * section rewrites the links, so the last match in document order wins.
   */
  function LastMatch(sections: seq<Section>, pageYOffset: int): (r: Option<nat>)
    ensures r.None? <==> forall k :: 0 <= k < |sections| ==> !Matches(sections[k], pageYOffset)
    ensures r.Some? ==> r.value < |sections| && Matches(sections[r.value], pageYOffset)
    ensures r.Some? ==> forall k :: r.value < k < |sections| ==> !Matches(sections[k], pageYOffset)
  {
    if sections == [] then None
    else if Matches(sections[|sections| - 1], pageYOffset) then Some(|sections| - 1)
    else LastMatch(sections[..|sections| - 1], pageYOffset)
  }

  /** Every link loses 'active', then those that refer to `id` regain it. */
  function Highlight(links: seq<Link>, id: string): (r: seq<Link>)
    ensures |r| == |links|
  {
    seq(|links|, j requires 0 <= j < |links| => links[j].(active := links[j].href == Fragment(id)))
  }

  /** The links after one scroll event over `sections`. */
  function Synced(links: seq<Link>, sections: seq<Section>, pageYOffset: int): (r: seq<Link>) {
    match LastMatch(sections, pageYOffset)
    case None => links
    case Some(k) => Highlight(links, sections[k].id)
  }

  /** Only the last highlighting counts: it overwrites every link's flag. */
  lemma HighlightOverwrites(links: seq<Link>, a: string, b: string)
    ensures Highlight(Highlight(links, a), b) == Highlight(links, b)
  {
    var once, twice := Highlight(links, b), Highlight(Highlight(links, a), b);
    assert forall j :: 0 <= j < |links| ==> twice[j] == once[j];
  }

  /** Highlighting after a scroll event is the same as highlighting before it. */
  lemma HighlightAfterSynced(links: seq<Link>, sections: seq<Section>, pageYOffset: int, id: string)
    ensures Highlight(Synced(links, sections, pageYOffset), id) == Highlight(links, id)
  {
    match LastMatch(sections, pageYOffset)
    case None =>
    case Some(k) => HighlightOverwrites(links, sections[k].id, id);
  }

  /**
   * When some section matches, the active links afterwards are exactly those
   * whose href refers to the last matching section; hrefs never change.
   */
  lemma SyncedActivatesLastMatch(links: seq<Link>, sections: seq<Section>, pageYOffset: int)
    requires LastMatch(sections, pageYOffset).Some?
    ensures var s := sections[LastMatch(sections, pageYOffset).value];
      var r := Synced(links, sections, pageYOffset);
      |r| == |links| &&
      forall j :: 0 <= j < |links| ==>
        r[j].href == links[j].href && (r[j].active <==> links[j].href == Fragment(s.id))
  {
  }

  /** When no section matches, a scroll event leaves every link as it was. */
  lemma SyncedWithoutMatchKeepsLinks(links: seq<Link>, sections: seq<Section>, pageYOffset: int)
    requires forall k :: 0 <= k < |sections| ==> !Matches(sections[k], pageYOffset)
    ensures Synced(links, sections, pageYOffset) == links
  {
  }

  /** Handling the same scroll offset twice changes nothing the second time. */
  lemma SyncedIdempotent(links: seq<Link>, sections: seq<Section>, pageYOffset: int)
    ensures Synced(Synced(links, sections, pageYOffset), sections, pageYOffset)
         == Synced(links, sections, pageYOffset)
  {
    match LastMatch(sections, pageYOffset)
    case None =>
    case Some(k) => HighlightOverwrites(links, sections[k].id, sections[k].id);
  }

  predicate DistinctHrefs(links: seq<Link>) {
    forall a, b :: 0 <= a < b < |links| ==> links[a].href != links[b].href
  }

  /**
   * With distinct hrefs and a link for the matching section, exactly one link
   * is active afterwards, and it is that section's link.
   */
  lemma SyncedSingleActive(links: seq<Link>, sections: seq<Section>, pageYOffset: int, m: nat)
    requires DistinctHrefs(links)
    requires LastMatch(sections, pageYOffset).Some?
    requires m < |links| && links[m].href == Fragment(sections[LastMatch(sections, pageYOffset).value].id)
    ensures forall j :: 0 <= j < |links| ==> (Synced(links, sections, pageYOffset)[j].active <==> j == m)
  {
    SyncedActivatesLastMatch(links, sections, pageYOffset);
  }

  /** The element `document.querySelector(href)` finds: the first one whose id `href` names. */
  function FindTarget(elements: seq<Section>, href: string): (r: Option<nat>)
    ensures r.Some? ==> r.value < |elements| && Fragment(elements[r.value].id) == href
    ensures r.Some? ==> forall j :: 0 <= j < r.value ==> Fragment(elements[j].id) != href
    ensures r.None? <==> forall j :: 0 <= j < |elements| ==> Fragment(elements[j].id) != href
  {
    FindFrom(elements, href, 0)
  }

  function FindFrom(elements: seq<Section>, href: string, from: nat): (r: Option<nat>)
    requires from <= |elements|
    requires forall j :: 0 <= j < from ==> Fragment(elements[j].id) != href
    ensures r.Some? ==> r.value < |elements| && Fragment(elements[r.value].id) == href
    ensures r.Some? ==> forall j :: 0 <= j < r.value ==> Fragment(elements[j].id) != href
    ensures r.None? <==> forall j :: 0 <= j < |elements| ==> Fragment(elements[j].id) != href
    decreases |elements| - from
  {
    if from == |elements| then None
    else if Fragment(elements[from].id) == href then Some(from)
    else FindFrom(elements, href, from + 1)
  }

  /** The links after a click on link `i`: it alone is active. */
  function OnlyActive(links: seq<Link>, i: nat): (r: seq<Link>)
    ensures |r| == |links|
  {
    seq(|links|, j requires 0 <= j < |links| => links[j].(active := j == i))
  }

  /** The scroll position a click on a link to `elements[t]` asks for. */
  function ClickTarget(elements: seq<Section>, t: nat, navHeight: int): (top: int)
    requires t < |elements|
  {
    elements[t].top - navHeight
  }

  /**
   * Every matching section runs the inner loop of the scroll rule: each link
   * loses 'active' and regains it when its href refers to `id`.
   */
  method ActivateLinksTo(links: array<Link>, id: string)
    modifies links
    ensures links[..] == Highlight(old(links[..]), id)
  {
    var j := 0;
    while j < links.Length
      invariant 0 <= j <= links.Length
      invariant forall m :: 0 <= m < j ==> links[m] == old(links[m]).(active := old(links[m]).href == Fragment(id))
      invariant forall m :: j <= m < links.Length ==> links[m] == old(links[m])
    {
      links[j] := links[j].(active := false);
      if links[j].href == Fragment(id) {
        links[j] := links[j].(active := true);
      }
      j := j + 1;
    }
  }

  /** The scroll listener of script.js:48-65, for the page offset `pageYOffset`. */
  method OnScroll(links: array<Link>, sections: seq<Section>, pageYOffset: int)
    modifies links
    ensures links[..] == Synced(old(links[..]), sections, pageYOffset)
  {
    var scrollPosition := pageYOffset + Lookahead;
    var k := 0;
    while k < |sections|
      invariant 0 <= k <= |sections|
      invariant links[..] == Synced(old(links[..]), sections[..k], pageYOffset)
    {
      var section := sections[k];
      assert sections[..k + 1][..k] == sections[..k];
      if scrollPosition >= section.top && scrollPosition < section.top + section.height {
        HighlightAfterSynced(old(links[..]), sections[..k], pageYOffset, section.id);
        ActivateLinksTo(links, section.id);
      }
      k := k + 1;
    }
    assert sections[..k] == sections;
  }

  /**
   * The click listener of script.js:7-25 on link `i`. `elements` are the
   * page's id-carrying elements in document order, `navHeight` the navbar's
   * offsetHeight. The result is the position handed to window.scrollTo, or
   * None when no element has the id the href names.
   */
  method OnClick(links: array<Link>, i: nat, elements: seq<Section>, navHeight: int)
    returns (scrollTo: Option<int>)
    requires i < links.Length
    modifies links
    ensures match FindTarget(elements, old(links[i].href))
      case None => scrollTo.None? && links[..] == old(links[..])
      case Some(t) => scrollTo == Some(ClickTarget(elements, t, navHeight))
                      && links[..] == OnlyActive(old(links[..]), i)
  {
    var target := FindTarget(elements, links[i].href);
    scrollTo := None;
    if target.Some? {
      scrollTo := Some(elements[target.value].top - navHeight);
      var j := 0;
      while j < links.Length
        invariant 0 <= j <= links.Length
        invariant forall m :: 0 <= m < j ==> links[m] == old(links[m]).(active := false)
        invariant forall m :: j <= m < links.Length ==> links[m] == old(links[m])
      {
        links[j] := links[j].(active := false);
        j := j + 1;
      }
      links[i] := links[i].(active := true);
    }
  }

  /** Sections follow one another down the page without overlapping. */
  predicate InDocumentOrder(sections: seq<Section>) {
    forall a, b :: 0 <= a < b < |sections| ==> sections[a].top + sections[a].height <= sections[b].top
  }

  /**
   * Where `window.scrollTo(top)` leaves the page: the requested offset held
   * to `[0, maxScroll]`, `maxScroll` being the scroll height minus the
   * viewport height.
   */
  function SettledOffset(top: int, maxScroll: nat): (y: int)
    ensures 0 <= y <= maxScroll
    ensures 0 <= top <= maxScroll ==> y == top
    ensures top < 0 ==> y == 0
    ensures top > maxScroll ==> y == maxScroll
  {
    if top < 0 then 0 else if top > maxScroll then maxScroll else top
  }

  /**
   * The click and the scroll rule agree whenever the looked-ahead offset
   * where the page stops lies in the clicked section: with the tracked
   * sections being the id-carrying elements in document order, the scroll
   * rule then selects the clicked section and keeps the clicked link active
   * together with every link of the same href. This covers a request above
   * the top of the page, such as `#home` at top 0, which stops at 0.
   */
  lemma ClickSettlesOnMatchingTarget(links: seq<Link>, i: nat, sections: seq<Section>, navHeight: int, maxScroll: nat)
    requires i < |links|
    requires FindTarget(sections, links[i].href).Some?
    requires InDocumentOrder(sections)
    requires var t := FindTarget(sections, links[i].href).value;
      Matches(sections[t], SettledOffset(ClickTarget(sections, t, navHeight), maxScroll))
    ensures var t := FindTarget(sections, links[i].href).value;
      var y := SettledOffset(ClickTarget(sections, t, navHeight), maxScroll);
      var r := Synced(OnlyActive(links, i), sections, y);
      LastMatch(sections, y) == Some(t) && r[i].active &&
      forall j :: 0 <= j < |links| ==> (r[j].active <==> links[j].href == links[i].href)
  {
    var t := FindTarget(sections, links[i].href).value;
    var y := SettledOffset(ClickTarget(sections, t, navHeight), maxScroll);
    forall k | t < k < |sections|
      ensures !Matches(sections[k], y)
    {
      assert sections[t].top + sections[t].height <= sections[k].top;
    }
    var m := LastMatch(sections, y);
    assert m == Some(t);
    SyncedActivatesLastMatch(OnlyActive(links, i), sections, y);
  }

  /**
   * The same agreement from the page's layout: the navbar is no taller than
   * the lookahead, the clicked section is taller than the gap between them,
   * and the requested offset lies within the scroll range, so that it is
   * where the page stops.
   */
  lemma ClickThenSettleAgrees(links: seq<Link>, i: nat, sections: seq<Section>, navHeight: int, maxScroll: nat)
    requires i < |links|
    requires FindTarget(sections, links[i].href).Some?
    requires InDocumentOrder(sections)
    requires 0 <= Lookahead - navHeight
    requires Lookahead - navHeight < sections[FindTarget(sections, links[i].href).value].height
    requires 0 <= ClickTarget(sections, FindTarget(sections, links[i].href).value, navHeight) <= maxScroll
    ensures var t := FindTarget(sections, links[i].href).value;
      var y := SettledOffset(ClickTarget(sections, t, navHeight), maxScroll);
      var r := Synced(OnlyActive(links, i), sections, y);
      LastMatch(sections, y) == Some(t) && r[i].active &&
      forall j :: 0 <= j < |links| ==> (r[j].active <==> links[j].href == links[i].href)
  {
    var t := FindTarget(sections, links[i].href).value;
    assert Matches(sections[t], SettledOffset(ClickTarget(sections, t, navHeight), maxScroll));
    ClickSettlesOnMatchingTarget(links, i, sections, navHeight, maxScroll);
  }

  /**
   * Without the scroll-range condition the agreement fails: near the bottom
   * of a page whose last section is short, the page stops above the
   * requested offset and the scroll rule selects the section before it.
   */
  lemma ClampedClickSelectsEarlierSection()
    ensures var sections := [Section("home", 0, 600), Section("about", 600, 800), Section("contact", 1400, 400)];
      var links := [Link("#home", false), Link("#about", false), Link("#contact", false)];
      FindTarget(sections, "#contact") == Some(2) &&
      SettledOffset(ClickTarget(sections, 2, 80), 900) == 900 &&
      LastMatch(sections, 900) == Some(1) &&
      !Synced(OnlyActive(links, 2), sections, 900)[2].active
  {
    var sections := [Section("home", 0, 600), Section("about", 600, 800), Section("contact", 1400, 400)];
    assert Fragment(sections[0].id) != "#contact" by { assert Fragment(sections[0].id)[1] == 'h'; }
    assert Fragment(sections[1].id) != "#contact" by { assert Fragment(sections[1].id)[1] == 'a'; }
    assert Fragment(sections[2].id) == "#contact";
    assert !Matches(sections[2], 900);
    assert Matches(sections[1], 900);
    var links := [Link("#home", false), Link("#about", false), Link("#contact", false)];
    assert links[2].href != Fragment("about") by { assert links[2].href[1] == 'c'; }
  }
}
