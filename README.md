# Landing-page interaction script, modelled in Dafny

The dental-clinic landing page's `script.js` attaches listeners to the page
once its content is loaded. This project models the part of it that has logic
once the DOM is replaced by plain data:

- **Navigation highlighting** (`Nav`): sections are `(id, top, height)`
  records, navigation links are `(href, active)` records held in an array
  that the handlers update in place. The click rule scrolls to the target's
  top minus the navbar height and makes the clicked link the only active one;
  the scroll rule tests `pageYOffset + 100` against `[top, top + height)` of
  each section in document order and, for every match, rewrites all links so
  that those whose href is `#id` are active.
- **Threshold toggles** (`Thresholds`, `ScrollEvents`): the navbar's
  `scrolled` class, the scroll-to-top control's opacity and scale, and the
  contact bar's `pulse` class, and the four modelled scroll listeners taken together as one
  transition of the page.
- **Counter animation** (`Counter`, `Decimal`): the digits of a text such as
  `"98%"` or `"+500"` give the target; each frame shows
  `floor(k * target / 50)` with a `%` suffix or a `+` prefix, and the last frame
  is the original text. `current` is an exact real.
- **Flag state** (`Menu`, `Hover`, `Reveal`): the mobile menu's two classes
  and the Escape key, sibling-group hover dimming over an opacity array, and
  the one-way `visible` marker.

Behaviour of the code worth knowing, each stated by a member of the model:

- When the offset lies in no section, the links keep their flags (`Nav.SyncedWithoutMatchKeepsLinks`).
- With distinct hrefs and a link whose href is `#` + the last matching section's id, that link is the only active one (`Nav.SyncedSingleActive`).
  Duplicate hrefs can make several links active, and a section that no link names leaves none active.
  With overlapping sections the last match in document order wins (`Nav.LastMatch`).
- `window.scrollTo` holds the requested offset to the page's scroll range.
  Near the bottom of the page a click can therefore stop above its target, and the scroll rule then selects an earlier section (`Nav.ClampedClickSelectsEarlierSection`).
  The clicked link can also lose its highlight on the next scroll event in two other cases: when the clicked section is no taller than `100 - navHeight`, or when the navbar is taller than 100px.
  In either case the looked-ahead offset can fall outside the clicked section (`Nav.ClickSettlesOnMatchingTarget` states the exact condition).
- The click handler looks its target up with `document.querySelector(href)`.
  That finds the first element in document order with that id, whether or not it is a `section`.
  So `Nav.FindTarget` is given the id-carrying elements.
- A counter whose text has no `+` still counts up with a `+` prefix (`Counter.AnimateCounter`).
- A counter whose text has no digit parses to NaN.
  Its first update then shows the original text, because `NaN < NaN` is false.

Files: `wrappers.dfy` (Option), `decimal.dfy`, `nav.dfy`, `thresholds.dfy`,
`scroll_events.dfy`, `counter.dfy`, `menu.dfy`, `hover.dfy`, `reveal.dfy`.

## Model

| member | source | states |
|---|---|---|
| `Nav.LastMatch` | script.js:51-63 | the section chosen by `Matches` (`top <= y + 100 < top + height`): None exactly when no section contains `pageYOffset + 100`; otherwise the index of a containing section after which no section contains it (the last match wins) |
| `Nav.ActivateLinksTo` | script.js:57-62 | every link loses `active` and regains it exactly when its href is `#id` |
| `Nav.OnScroll` | script.js:48-65 | the link array afterwards is `Synced` of the old one: unchanged without a match, else highlighted for the last matching section |
| `Nav.HighlightOverwrites` | script.js:57-62 | a later highlighting completely overrides an earlier one |
| `Nav.SyncedActivatesLastMatch` | script.js:56-62 | with a match, the active links afterwards are exactly those whose href is `#` + the last match's id; hrefs unchanged |
| `Nav.SyncedWithoutMatchKeepsLinks` | script.js:51-64 | when no section matches, every link keeps its active flag |
| `Nav.SyncedIdempotent` | script.js:48-65 | handling the same offset twice equals handling it once |
| `Nav.SyncedSingleActive` | script.js:57-62 | with distinct hrefs and a link whose href names the last matching section, that link is the only active one |
| `Nav.FindTarget` | script.js:9-12 | the first element whose `#id` equals the href, or None exactly when none has it |
| `Nav.OnClick` | script.js:7-25 | target found: returns `top - navHeight` as the scroll position and only the clicked link is active; target absent: no scroll and the links are unchanged |
| `Nav.ClickSettlesOnMatchingTarget` | script.js:12-23 | for ordered sections, when the looked-ahead offset where the page stops lies in the clicked section (including a request above the page's top, which stops at 0), the scroll rule selects the clicked section and keeps the clicked link active |
| `Nav.ClickThenSettleAgrees` | script.js:12-23 | for ordered sections, a navbar no taller than the lookahead, a clicked section taller than `100 - navHeight` and a requested offset within the scroll range, the scroll rule at the offset where the page stops (`SettledOffset`) selects the clicked section and keeps the clicked link active |
| `Nav.SettledOffset` | script.js:16-19 | the offset `window.scrollTo` stops at lies in `[0, maxScroll]` and is the requested one when that is in range |
| `Nav.ClampedClickSelectsEarlierSection` | script.js:14-19 | with sections home(0,600), about(600,800), contact(1400,400), navbar 80 and scroll range 900, a click on `#contact` stops at 900, where the scroll rule selects `about` and clears the clicked link |
| `Thresholds.ThresholdsMonotone` | script.js:36-396 | `NavbarScrolled` (36-40) and a shown `ScrollTopStyle` (390-396), once reached, persist as the offset grows |
| `Thresholds.ScrollTopStyleIsShownOrHidden` | script.js:389-397 | `ScrollTopStyle`: the control is either opacity 1 and scale 1, shown exactly above 500, or opacity 0 and scale 0 |
| `Thresholds.ContactPulseRule` | script.js:161-173 | `ContactPulse`: without `#contact` the class is kept; with it, `pulse` holds iff `top < innerHeight && bottom >= 0` |
| `ScrollEvents.HandleScrollEffects` | script.js:32-397 | `HandleScroll`, one scroll event through the four listeners: `scrolled` iff offset > 50, control shown iff offset > 500, pulse as above, links as the scroll rule says |
| `ScrollEvents.ThresholdsForgetHistory` | script.js:32-397 | when the page has a `#contact`, the `scrolled`, pulse and scroll-to-top flags `HandleScroll` leaves do not depend on the page before the event (36-40, 165-171, 390-396) |
| `ScrollEvents.HandleScrollIdempotent` | script.js:32-397 | `HandleScroll`: running all four scroll listeners twice at one viewport equals running them once |
| `Decimal.KeepDigits` | script.js:321 | the result holds only digits, is empty exactly when the text has none, and a text of digits is kept whole |
| `Decimal.KeepDigitsAppend` | script.js:321 | digits are kept in order: keeping those of `a + b` is keeping those of `a`, then of `b` |
| `Decimal.Spell` | script.js:329-330 | an integer's decimal text is non-empty, all digits, without a leading zero |
| `Decimal.ValueOfSpell` | script.js:321 | `Value` (parseInt of a digit string) inverts `Spell`: reading the decimal text of `n` back gives `n` |
| `Counter.ParseCounter` | script.js:319-321 | the percentage flag holds iff the text has `%`; the target is NaN exactly when it has no digit, else the number its digits spell in order |
| `Counter.DisplayReparses` | script.js:328-330 | `Display`: parsing a frame's text gives back the value it displays and its percentage flag |
| `Counter.FrameBelowTarget` | script.js:326-327 | every frame before the fiftieth displays less than a positive target |
| `Counter.FrameMonotone` | script.js:323-326 | displayed values never decrease from frame to frame |
| `Counter.IncrementsBelowTarget` | script.js:323-327 | for a positive target, `current` after k exact increments of target/50 is below the target iff k < 50 |
| `Counter.FloorOfIncrements` | script.js:326-330 | the floor of `current` after k increments is `floor(k * target / 50)` |
| `Counter.AnimateCounter` | script.js:318-338 | the last text is the original; a positive target takes 50 texts, zero or NaN one; text j is `floor((j+1) * target / 50)` with `%` or `+` |
| `Menu.MobileMenu.OnToggleClick` | script.js:72-75 | both `active` and `show` flip, and the two stay in agreement |
| `Menu.MobileMenu.OnKeyDown` | script.js:498-507 | Escape on an open menu clears both classes; any other key, or a closed menu, changes nothing |
| `Menu.RunMenu` | script.js:500-505 | from page load, after any events the two classes agree, and a final Escape leaves the menu closed |
| `Hover.SiblingGroup.ContactMethods` | script.js:190-196 | the contact-method group dims to 0.6; no member has an inline opacity yet |
| `Hover.SiblingGroup.ServiceCards` | script.js:268-275 | the service-card group dims to 0.7; no member has an inline opacity yet |
| `Hover.SiblingGroup.MouseEnter` | script.js:193-198 | every member other than the entered one gets the dim opacity; the entered one is untouched |
| `Hover.SiblingGroup.MouseLeave` | script.js:201-204 | every member gets opacity 1 |
| `Hover.LeaveUndoesEnter` | script.js:280-283 | `Restored` after `Dimmed`: a leave after an enter gives the same opacities as a leave alone, all 1 |
| `Hover.EnterIdempotent` | script.js:271-277 | `Dimmed`: entering the same member twice equals entering once |
| `Hover.EnterAfterLeaveHighlightsOne` | script.js:271-283 | `Dimmed` after `Restored`: after a leave, entering member i leaves exactly i undimmed, at opacity 1 |
| `Reveal.RevealedExactly` | script.js:86-92 | an element is visible after a batch iff it was before or some entry reports it intersecting |
| `Reveal.RevealedKeepsMarker` | script.js:88-90 | a visible element stays visible through any later batches |
| `Reveal.RevealedIdempotent` | script.js:86-92 | delivering the same batch again adds nothing |
| `Reveal.OnIntersection` | script.js:86-92 | the marker array afterwards is `Revealed` of the old one over the batch |

## Left out

- Pixel values are integers. `pageYOffset` and `getBoundingClientRect` are doubles in the browser; the model uses integers for them as for `offsetTop`/`offsetHeight`.
- `Counter.AnimateCounter`: does not model IEEE doubles. `current` is exact, so the model always takes exactly 50 updates for a positive target. With doubles, rounding often adds one more frame: for "98%" the sum of fifty increments of 1.96 falls just short of 98, so the script shows 50 frames ending "97%" and then "98%", 51 texts in all. An intermediate frame can also show one less than `floor(k * target / 50)`: for target 15, ten additions of 0.3 give 2.9999999999999996, so the double version shows "+2" where the model shows "+3". Targets of 2^53 and beyond, which parseInt rounds or turns into Infinity, are not modelled either.
- `Decimal.Spell`: does not model JavaScript's exponent notation for numbers of 10^21 and beyond.
- `Nav.FindTarget`: models `querySelector(href)` only for hrefs of the form `#id`. CSS selector syntax, and the exception an invalid selector raises, are not modelled.
- Smooth-scroll behaviour is not modelled: `Nav.OnClick` returns the position requested of `window.scrollTo`, and `Nav.SettledOffset` gives where the page stops.
- `requestAnimationFrame` and `setTimeout` scheduling are not modelled. One counter "frame" is one call of `updateCounter`.
- IntersectionObserver thresholds, root margins and `unobserve` are not modelled. The observer callback is handed its batch of entries.
- The mobile menu assumes the toggle and the `.nav-links` container both exist. Without the toggle no click listener is attached, and Escape on an open menu would throw after removing `show`.
- `Menu.MobileMenu.constructor`: assumes the markup starts with neither `active` on the toggle nor `show` on the container. `Menu.RunMenu`'s agreement of the two classes rests on that assumption. A page that loaded with only one of them would keep them apart through every toggle.
- `Nav.OnClick`: assumes the page has a `.navbar`. Without one, the handler throws at script.js:13 after finding the target, so nothing scrolls and no link changes; the model always scrolls and updates.
- `ScrollEvents.HandleScroll`: assumes the page has a `.navbar` and a `.floating-contact-bar`. Without the navbar, the listener of script.js:32-43 throws. Without the bar, the pulse listener throws when `#contact` exists. The model always writes `navbarScrolled` and `contactPulse`.
- The stats observer calls `animateCounter` once per element and then stops observing it (script.js:340-349). Only the animation itself is modelled.
- Ripple geometry (script.js:104-117) is not modelled: it is CSS pixel text from floats.
- Doctor-card tilt (script.js:291-313) is not modelled, for the same reason.
- Floating-card transforms (script.js:255-265) are not modelled, for the same reason.
- Hero-shape parallax (script.js:466-475) is not modelled, for the same reason.
- The scroll-to-top control's hover scale and click-to-top (script.js:399-412) are outside the modelled core.
- The CTA and secondary-button scrolls (script.js:99-149) are outside the modelled core.
- `showNotification` (script.js:209-252) is timer-driven and never called, so it is not modelled.
- `debounce` (script.js:485-495) is timer-driven and never called, so it is not modelled.
- Lazy image fade-in, injected CSS, stagger delays, click tracking and console logs are side effects with nothing to state.
- `lastScroll` (script.js:30, 42) is written and never read, so it is not modelled.
