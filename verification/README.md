# Flipp VVS page script: a verified model of its decisions

The website's page script (`js/main.js`) reacts to browser events: it formats
telephone numbers as they are typed, validates the contact form, decides
whether to show the cookie-consent banner, filters the project cards by
category, opens and closes the mobile menu, and reveals elements as they
scroll into view. This project pulls the pure decision behind each reaction
out of its DOM wiring and states it as Dafny functions over strings and
sequences, with lemmas for the properties the page relies on.

Modules, one per feature:

- `Common` (`common.dfy`): `Option` for the script's `null`, and `IndexOf`.
- `Phone` (`phone.dfy`): the telephone-input formatter.
- `Email` (`email.dfy`): the e-mail regular expression, read literally and as a whole-string description, proved equal.
- `ContactForm` (`contact_form.dfy`): the submit-time validation.
- `Cookies` (`cookies.dfy`): `split`/`join`, `getCookie`, and cookie strings of the form `k1=v1; k2=v2`.
- `Consent` (`consent.dfy`): the banner decision and the accept and decline writes, over a small model of the browser's cookie store.
- `CategoryFilter` (`category_filter.dfy`): the project filter click.
- `MobileNav` (`mobile_nav.dfy`): the menu's open/closed state machine.
- `Reveal` (`reveal.dfy`): the one-way reveal latch.

Modelling choices:

- JavaScript `\d`/`\D` without the `u` flag cover ASCII `0`-`9` only, and `\s` is the ECMAScript WhiteSpace and LineTerminator set. Both are written out as character predicates.
- Dafny strings are sequences of Unicode scalar values, while JavaScript strings are UTF-16 code units and may hold lone surrogates. Every separator and character class used here lies in the Basic Multilingual Plane, so the modelled operations agree on well-formed strings. Lone surrogates are not modelled.
- `getAttribute` can return `null`, so attributes are `Option<string>`. The filter compares with `===`, so a button without `data-filter` shows exactly the cards without `data-category`.
- The banner appears when `getCookie('cookieConsent')` is falsy. That means absent or the empty string: a stored empty value also brings the banner back.
- The browser's cookie store is not part of the script. It is modelled as a sequence of `key=value` entries that `document.cookie` renders joined by `"; "`. Assigning to `document.cookie` stores the pair before the first `;`. It replaces the first entry with that key, or appends one. A browser that refuses cookies drops the write silently; `Consent.Decide` takes that as a flag.

## Model

| member | source | states |
|---|---|---|
| `Common.IndexOf` | js/main.js:157 | the separator search of `split(';')`: the first position of the character, or the length when it is absent; no earlier position holds it |
| `Phone.Digits` | js/main.js:128 | removing `\D` leaves only ASCII digits and never lengthens the value |
| `Phone.DigitsAppend` | js/main.js:128 | removing non-digits distributes over concatenation, so the kept digits stay in input order |
| `Phone.DigitsOfDigits` | js/main.js:128 | a string of digits only is left unchanged: every digit survives |
| `Phone.DigitsOfNonDigit` | js/main.js:128 | a single non-digit is removed; with the two lemmas above this fixes `Digits` on every string |
| `Phone.Truncate` | js/main.js:131-133 | the result is a prefix of the input of length min(8, n) |
| `Phone.Format` | js/main.js:127-142 | the written-back value has at most 10 characters, and every one is a digit or a space |
| `Phone.FormatKeepsDigits` | js/main.js:128-142 | dropping the spaces from the output gives exactly the first min(8, n) digits of the input, in input order |
| `Phone.FormatShape` | js/main.js:136-141 | below 3 digits there are no spaces; with 3-5 digits there is one space, at index 3 (`"123"` gives `"123 "`); with 6-8 digits there are spaces at exactly indices 3 and 6; the output length is the digit count plus the number of spaces |
| `Phone.FormatIdempotent` | js/main.js:127-142 | formatting an already formatted value returns it unchanged |
| `Phone.TrailingSpaceComesBack` | js/main.js:138-139 | with three digits, deleting the trailing space is undone by the next input event |
| `Phone.FormatThreeDigits` | js/main.js:138-139 | `"123"` is written back as `"123 "` |
| `Phone.NonDigitIgnored` | js/main.js:128-142 | a non-digit inserted anywhere in the input leaves the written-back value unchanged |
| `Email.MatchesEmailRegex` | js/main.js:103 | the pattern read literally as three `[^\s@]+` runs joined by `@` and `.`; an accepted string has at least five characters, contains `@` and `.`, and begins and ends with a character outside `[\s@]` |
| `Email.RegexIffWellFormed` | js/main.js:103-104 | the pattern `^[^\s@]+@[^\s@]+\.[^\s@]+$` accepts a string iff it has no whitespace, its first `@` has text before it, no other `@` follows, and after it a `.` has text on both sides |
| `Email.AcceptedAddressParts` | js/main.js:103-104 | an accepted address has no whitespace and exactly one `@`, with a non-empty local part and a dotted domain |
| `Email.NoDotAfterAtRejected` | js/main.js:103-104 | a string with no `@`, or no `.` after its `@`, is rejected |
| `Email.AcceptsTypicalAddress` | js/main.js:103-104 | `ola@flipp.no` matches |
| `Email.RejectsDotlessDomain` | js/main.js:103-104 | `ola@flipp` does not match |
| `ContactForm.Validate` | js/main.js:96-107 | the result is `MissingRequired` iff name, email, phone or message is empty; it is `BadEmail` iff all four are filled and the e-mail fails the pattern; otherwise it is `Ok` carrying the submitted record unchanged |
| `ContactForm.AlertText` | js/main.js:98-105 | each rejection has a non-empty alert message |
| `ContactForm.AlertTextsDistinct` | js/main.js:98-105 | the two alerts differ, so the user learns which check failed |
| `ContactForm.EmptyRequiredRejectsWhateverTheEmail` | js/main.js:96-107 | an empty name, phone or message gives `MissingRequired` whatever the e-mail is, because the required check runs first |
| `ContactForm.OptionalFieldsNeverReject` | js/main.js:86-107 | changing address, service type or the site-visit box never changes whether the form is accepted |
| `ContactForm.AcceptedRecordIsComplete` | js/main.js:96-110 | a record is produced only with all four required fields filled and a well-formed e-mail |
| `Cookies.Split` | js/main.js:157 | `split(';')` yields at least one piece, and no piece contains the separator |
| `Cookies.JoinSplit` | js/main.js:157 | joining the pieces of a split restores the string |
| `Cookies.SplitJoin` | js/main.js:157 | splitting a join of separator-free pieces restores the pieces |
| `Cookies.StripLeadingSpaces` | js/main.js:160 | the result is a suffix of the piece, does not start with a space, and only spaces were removed |
| `Cookies.MatchIndex` | js/main.js:158-163 | the loop stops at the first piece that starts with `name=` after stripping, or runs off the end when none does |
| `Cookies.GetCookie` | js/main.js:155-164 | null iff no stripped piece starts with `name=`; otherwise the text after `name=` in the first piece that does |
| `Cookies.GetCookieOfEmpty` | js/main.js:155-164 | an empty cookie string yields null |
| `Cookies.PairMatchesIffSameKey` | js/main.js:156-161 | for keys and names without `=`, the pair `k=v` starts with `name=` iff `k` is `name` |
| `Cookies.GetCookieOfRendered` | js/main.js:155-164 | on a cookie string of `k=v` entries joined by `"; "`, the result is the value of the first entry whose key is `name`, or null when there is none |
| `Cookies.LongerNameNotMatched` | js/main.js:156-161 | `cookieConsentX=accepted` does not answer a lookup of `cookieConsent` |
| `Consent.ShouldPrompt` | js/main.js:166-172 | the banner is scheduled iff it exists and no `;`-piece of the cookie string, leading spaces stripped, begins with `cookieConsent=`, or the first that does is exactly `cookieConsent=` |
| `Consent.Store` | js/main.js:152 | the cookie store gains at most one entry, and entries with other keys are untouched |
| `Consent.StoreThenLookup` | js/main.js:152 | after a store, the key reads back as the stored value, and every other key reads back as before |
| `Consent.Assignment` | js/main.js:149-153 | whatever the expiry text, the first `;`-piece of the assigned string is `name=value` when neither contains `;` |
| `Consent.AssignmentPieces` | js/main.js:149-153 | the string `setCookie` assigns splits into `name=value`, `expires=...`, `path=/` and `SameSite=Lax` |
| `Consent.Decide` | js/main.js:174-186 | with cookies enabled, an accept or decline click stores `accepted` or `declined` under `cookieConsent`, whatever the expiry text; a refused cookie leaves the store unchanged |
| `Consent.DecisionIsRecorded` | js/main.js:166-186 | with cookies enabled, after an accept or decline click `getCookie('cookieConsent')` returns `accepted` or `declined` and the banner is not scheduled again; with cookies refused, the banner is scheduled exactly as before the click |
| `Consent.PromptIffNoDecision` | js/main.js:166-172 | the banner is scheduled iff it exists and the consent entry is absent or empty |
| `Consent.FirstVisitPrompts` | js/main.js:166-172 | with no cookies and a banner present, the banner is scheduled |
| `CategoryFilter.ClearActive` | js/main.js:220-222 | every button loses `active`; the filters are kept |
| `CategoryFilter.ApplyFilter` | js/main.js:231-242 | each card keeps its category and position and gets an explicit display; `block` iff the filter is `all` or equals the card's category |
| `CategoryFilter.Click` | js/main.js:218-243 | afterwards exactly the clicked button is active; the card list keeps its length and order; a card gets `block` when the filter is `all` or equals its category, and `none` otherwise |
| `CategoryFilter.ShownAreMatching` | js/main.js:231-242 | the shown cards are, in page order, exactly the ones an independent filter of the list selects |
| `CategoryFilter.AllShowsEverything` | js/main.js:232-233 | the filter `all` shows every card |
| `CategoryFilter.PlumbingShowsOnlyPlumbing` | js/main.js:235-240 | the filter `plumbing` sets the cards tagged `plumbing` to `block` and every other card to `none` |
| `CategoryFilter.ClickTwiceIsClickOnce` | js/main.js:218-243 | clicking the same button a second time changes nothing |
| `CategoryFilter.MissingFilterShowsUntagged` | js/main.js:228-240 | a button without `data-filter` sets the cards without `data-category` to `block` and every tagged card to `none` |
| `MobileNav.Toggle` | js/main.js:39-43 | both `active` classes flip, and scrolling is locked exactly when the menu is now open |
| `MobileNav.LinkClose` | js/main.js:48-52 | a menu-link click closes the menu and clears the scroll lock |
| `MobileNav.EscapeClose` | js/main.js:336-341 | Escape closes an open menu and clears the scroll lock; with the menu closed it changes nothing |
| `MobileNav.Step` | js/main.js:38-52 | every event keeps the toggle and the menu in agreement and scrolling locked exactly while the menu is open; a toggle click flips the menu; from a consistent state a link click or Escape restores the page as loaded |
| `MobileNav.RunKeepsConsistent` | js/main.js:38-54 | the invariant holds after any sequence of events that starts in a consistent state |
| `MobileNav.ToggleTwiceRestores` | js/main.js:39-43 | two toggle clicks restore the state |
| `MobileNav.EndsClosedAfterClose` | js/main.js:48-52 | after any event sequence that ends in a link click or Escape, the menu is closed and scrolling is free |
| `Reveal.Pass` | js/main.js:198-204 | after one pass, an element is active iff it was already active or is in the zone |
| `Reveal.PassesLatch` | js/main.js:193-208 | after any number of passes, an element is active iff it was active at the start or was in the zone during some pass |
| `Reveal.RevealedStaysRevealed` | js/main.js:201-203 | an element that is active stays active through every later pass |

## Left out

- DOM querying, listener registration, `alert`, `console.log`, `scrollIntoView`, inline style writes and class changes outside the modelled state are I/O. One such change is the banner's `classList.remove('show')` in the accept and decline handlers (lines 177 and 184). The `show` class added after the delay (line 169) is another. The model returns the decision they act on, such as a `Validation`, a display value or a menu state.
- The model assumes every element the script looks up exists. A missing element is not always skipped:
  - Without `#header`, the `handleScroll()` call at load (lines 26-33) throws. That aborts the whole script before any modelled handler is registered.
  - Without `#form-success`, a valid submission throws at line 114, after the form has been hidden.
  - Without `#cookie-consent`, the accept and decline handlers throw at lines 177 and 184, after the cookie has been written.
  - The Escape handler tests only the menu, so it throws when the toggle is missing.
  None of these cases is modelled.
- The smooth-scroll target (lines 59-76), the header's 50-pixel threshold (lines 24-33) and the reveal geometry (lines 195-201) are browser floating-point layout. `Reveal` takes "in the zone" as an input.
- `setCookie`'s expiry date (lines 150-152) needs the wall clock and `toUTCString`. The expiry text is a parameter of `Consent.Assignment`. The 365-day lifetime and the browser's deletion of expired cookies are not modelled.
- Consent.Decide: a refused cookie is one all-or-nothing flag per click. The reasons a browser may drop a single cookie (size limits, attribute checks, later eviction) are not told apart. A write the browser accepts is assumed to be readable on the next page load.
- The browser's own cookie rules, such as path and attribute handling, ordering by path length, and trimming, are not modelled. `Consent.Store` is a simplified stand-in.
- The one-second `setTimeout` before the banner appears (lines 168-170) is timing only. The model states whether the banner is scheduled.
- Lazy image loading (lines 265-285) is an `IntersectionObserver` callback into the browser.
- `setActiveNavLink` (lines 250-260) is never called, and it reads `window.location`.
- Click tracking (lines 290-313) only logs. The blur and focus border feedback (lines 318-331) is cosmetic.
- Cursor position in the phone field after a rewrite is browser behaviour and is not modelled.
- Cookies.GetCookieOfRendered: stated only for entries whose keys contain no `;` or `=` and do not start with a space, for values without `;`, and for names without `=`. Other cookie strings are still covered by `Cookies.GetCookie`'s own contract.
