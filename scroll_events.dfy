/**
 * Every scroll event runs the listeners of script.js:32-43, 48-65, 161-173 and
 * 389-397 in that order. Each writes its own part of the page, so they are
 * taken here together as one transition of the page's scroll-driven state.
 */
module ScrollEvents {
  import opened Wrappers
  import opened Nav
  import opened Thresholds

  datatype Page = Page(
    navbarScrolled: bool,
    links: seq<Link>,
    contactPulse: bool,
    scrollTop: ButtonStyle)

  /**
   * What a scroll event reads from the browser: the page offset, the
   * viewport height, and the contact section's rectangle if there is one.
   */
  datatype Viewport = Viewport(pageYOffset: int, innerHeight: int, contact: Option<Rect>)

  function HandleScroll(p: Page, sections: seq<Section>, v: Viewport): (r: Page) {
    Page(
      NavbarScrolled(v.pageYOffset),
      Synced(p.links, sections, v.pageYOffset),
      ContactPulse(p.contactPulse, v.contact, v.innerHeight),
      ScrollTopStyle(v.pageYOffset))
  }

  /** What one scroll event leaves behind, part by part. */
  lemma HandleScrollEffects(p: Page, sections: seq<Section>, v: Viewport)
    ensures var r := HandleScroll(p, sections, v);
      (r.navbarScrolled <==> v.pageYOffset > 50) &&
      (r.scrollTop == if v.pageYOffset > 500 then ButtonStyle(1.0, 1.0) else ButtonStyle(0.0, 0.0)) &&
      (v.contact.None? ==> r.contactPulse == p.contactPulse) &&
      (v.contact.Some? ==> (r.contactPulse <==> v.contact.value.top < v.innerHeight && v.contact.value.bottom >= 0)) &&
      r.links == Synced(p.links, sections, v.pageYOffset)
  {
  }

  /**
   * The threshold flags depend only on the current event: two pages that
   * differ beforehand agree on them afterwards.
   */
  lemma ThresholdsForgetHistory(p1: Page, p2: Page, sections: seq<Section>, v: Viewport)
    requires v.contact.Some?
    ensures var r1, r2 := HandleScroll(p1, sections, v), HandleScroll(p2, sections, v);
      r1.navbarScrolled == r2.navbarScrolled && r1.scrollTop == r2.scrollTop &&
      r1.contactPulse == r2.contactPulse
  {
  }

  /** Running the scroll handlers twice for the same viewport is running them once. */
  lemma HandleScrollIdempotent(p: Page, sections: seq<Section>, v: Viewport)
    ensures HandleScroll(HandleScroll(p, sections, v), sections, v) == HandleScroll(p, sections, v)
  {
    SyncedIdempotent(p.links, sections, v.pageYOffset);
  }
}
