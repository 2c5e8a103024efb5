/**
 * The scroll listeners that only compare one number with a fixed threshold:
 * the navbar's 'scrolled' class (script.js:32-43), the scroll-to-top
 * control's style (script.js:389-397) and the floating contact bar's 'pulse'
 * class (script.js:161-173).
 */
module Thresholds {
  import opened Wrappers

  /** Past this many pixels the navbar bears 'scrolled'. */
  const ScrolledAfter: int := 50
  /** Past this many pixels the scroll-to-top control is shown. */
  const ScrollTopAfter: int := 500

  function NavbarScrolled(pageYOffset: int): (scrolled: bool) {
    pageYOffset > ScrolledAfter
  }

  /** The inline opacity and the `scale(..)` transform of the scroll-to-top control. */
  datatype ButtonStyle = ButtonStyle(opacity: real, scale: real)

  const Shown: ButtonStyle := ButtonStyle(1.0, 1.0)
  const Hidden: ButtonStyle := ButtonStyle(0.0, 0.0)

  function ScrollTopStyle(pageYOffset: int): (s: ButtonStyle) {
    if pageYOffset > ScrollTopAfter then Shown else Hidden
  }

  /** The top and bottom edges of the contact section relative to the viewport. */
  datatype Rect = Rect(top: int, bottom: int)

  /** Some part of `r` lies in a viewport `innerHeight` pixels tall. */
  predicate InViewport(r: Rect, innerHeight: int) {
    r.top < innerHeight && r.bottom >= 0
  }

  /**
   * The contact bar's 'pulse' class after a scroll event; `contact` is the
   * contact section's rectangle, None when the page has no `#contact`.
   */
  function ContactPulse(pulse: bool, contact: Option<Rect>, innerHeight: int): (r: bool) {
    match contact
    case None => pulse
    case Some(r) => InViewport(r, innerHeight)
  }

  /** Scrolling further down never takes 'scrolled' away or hides the control. */
  lemma ThresholdsMonotone(y1: int, y2: int)
    requires y1 <= y2
    ensures NavbarScrolled(y1) ==> NavbarScrolled(y2)
    ensures ScrollTopStyle(y1) == Shown ==> ScrollTopStyle(y2) == Shown
  {
  }

  /**
   * After a scroll event the control is either fully shown or fully hidden,
   * shown exactly past 500 pixels.
   */
  lemma ScrollTopStyleIsShownOrHidden(pageYOffset: int)
    ensures var s := ScrollTopStyle(pageYOffset);
      (s == Shown || s == Hidden) && s.opacity == s.scale &&
      (s.opacity == 1.0 <==> pageYOffset > 500) &&
      (s.opacity == 0.0 <==> pageYOffset <= 500)
  {
  }

  /**
   * Without a contact section the bar keeps its class; with one, it pulses
   * exactly while part of the section is on screen.
   */
  lemma ContactPulseRule(pulse: bool, contact: Option<Rect>, innerHeight: int)
    ensures contact.None? ==> ContactPulse(pulse, contact, innerHeight) == pulse
    ensures contact.Some? ==> (ContactPulse(pulse, contact, innerHeight) <==>
      contact.value.top < innerHeight && contact.value.bottom >= 0)
  {
  }
}
