# Scalaris landing page: the logic behind the page, in Dafny

This project models the logic in `client/src/pages/home.tsx` that is more than markup, and proves properties of it:

- **The WhatsApp deep link.** `formatWaNumber` keeps only the digits of the configured number. `buildWaLink` builds `https://wa.me/<digits>?text=<message>`, with the message passed through `encodeURIComponent`. `encodeURIComponent` is modelled as ECMA-262 defines it, in its URI Handling Functions (section 19.2.6 of the 2024 edition). The model also has its inverse, `decodeURIComponent`, and a parser for the link, so that "the link carries exactly this message" can be stated and proved.
- **The contact form.** `onSubmit` rejects a draft when a field is empty after `String.prototype.trim`. Otherwise it composes the fixed four-line message and opens its link.
- **The active-section tracker.** `useActiveSection` holds one active id. On each batch from the intersection observer it:
  1. keeps the intersecting entries;
  2. sorts them with a comparator that prefers sections whose top (clamped at 0) is within 120 px of the viewport top, and otherwise prefers the larger intersection ratio;
  3. installs the first entry's id, when that id is non-empty.
- **Small helpers:**
  - `useTheme`: the initial choice of theme, and the toggle;
  - the Work section's tab filter;
  - the star fills of `renderStars`.

There is one module per concern:

| File | Module | Contents |
|---|---|---|
| `wrappers.dfy` | `Wrappers` | `Option` |
| `sequences.dfy` | `Sequences` | `Find` (first index of an element), subsequences |
| `site_config.dfy` | `SiteConfig` | the constants of `client/src/config.ts` that the logic reads |
| `uri_component.dfy` | `UriComponent` | encode and decode, UTF-8 |
| `whatsapp.dfy` | `WhatsApp` | number formatting, link building and link parsing |
| `contact_form.dfy` | `ContactForm` | trim, validation, message, submit |
| `active_section.dfy` | `ActiveSection` | comparator, sort, reducer, class `Tracker` |
| `theme.dfy` | `ThemeToggle` | the theme functions and class `ThemeState` |
| `work_gallery.dfy` | `WorkGallery` | the tab filter |
| `testimonials.dfy` | `Testimonials` | the star fills |

The two hooks that keep state become classes; everything else is functions and lemmas:

- `ActiveSection.Tracker` has fields `active` and `observing`. `Observe` is one observer callback; `Disconnect` is the effect's cleanup.
- `ThemeToggle.ThemeState` has field `theme`, and `Toggle`.

The browser is replaced by parameters:

- **Intersection entries.** Each is a value with the target's id, `isIntersecting`, `intersectionRatio` and `getBoundingClientRect().top`.
- **`document.getElementById`.** The set of ids that resolve to an element.
- **`useTheme`'s lazy initialiser.** `typeof window`, the value in `localStorage` and the root's `dark` class are inputs.
- **Submitting.** A submit yields an `Outcome`: the toast it shows, and the URL it opens when it opens one.

The choice of active section follows the code exactly:

- The comparator has one policy. Sections whose `Math.max(0, top)` is below 120 come first, ordered by that clamped top. The rest are ordered by intersection ratio, largest first (home.tsx:79-95).
- Candidates are the entries with `isIntersecting` set (home.tsx:73).

## Model

| member | source | states |
|---|---|---|
| WhatsApp.FormatWaNumber | client/src/pages/home.tsx:129-131 | the result consists of ASCII digits only and is no longer than the input |
| WhatsApp.FormatWaNumberIsSubsequence | client/src/pages/home.tsx:129-131 | the digits kept are a subsequence of the input, in their original order |
| WhatsApp.FormatWaNumberAppend | client/src/pages/home.tsx:129-131 | formatting a concatenation is the concatenation of the formatted parts |
| WhatsApp.FormatWaNumberFixedPoints | client/src/pages/home.tsx:129-131 | a string is left unchanged if and only if it is all digits |
| WhatsApp.FormatWaNumberIdempotent | client/src/pages/home.tsx:129-131 | formatting twice is formatting once |
| WhatsApp.FormatWaNumberOfConfigured | client/src/pages/home.tsx:134 | the configured "+971504486615" formats to "971504486615" (no '+') |
| WhatsApp.BuildWaLinkForConfigured | client/src/pages/home.tsx:133-137 | every link goes to https://wa.me/971504486615 with `?text=` and the encoded message |
| WhatsApp.ParseLink | client/src/pages/home.tsx:136 | a link built from a digit string and a message parses back to exactly that number and message |
| WhatsApp.ParseWaLinkOfWaLink | client/src/pages/home.tsx:133-137 | for any destination number, the link parses back to the number's digits and the exact message |
| WhatsApp.ParseBuildWaLink | client/src/pages/home.tsx:133-137 | buildWaLink's link parses back to the configured number's digits and the exact message |
| WhatsApp.LinkDelimiters | client/src/pages/home.tsx:135-136 | the link holds no space, line break, '&' or '#'; its only '?' and only '=' are the ones that open the text parameter |
| WhatsApp.WaLinkDelimiters | client/src/pages/home.tsx:133-137 | the same for the link of any destination number: the message cannot leak into the rest of the URL |
| UriComponent.HexChar | client/src/pages/home.tsx:135 | the digit encodeURIComponent writes is an upper-case hexadecimal digit |
| UriComponent.HexValue | client/src/pages/home.tsx:135 | a hexadecimal digit of either case is read as a value below 16; anything else is rejected |
| UriComponent.HexRoundTrip | client/src/pages/home.tsx:135 | reading back a written hex digit gives its value |
| UriComponent.Utf8 | client/src/pages/home.tsx:135 | a code point has 1 to 4 UTF-8 bytes, and exactly one when it is ASCII |
| UriComponent.Escape | client/src/pages/home.tsx:135 | a byte becomes '%' followed by two upper-case hex digits |
| UriComponent.EncodeWellFormed | client/src/pages/home.tsx:135 | the encoded text is only unescaped characters and %HH triplets |
| UriComponent.EncodeChars | client/src/pages/home.tsx:135 | every character of the encoded text is unescaped or '%' |
| UriComponent.EncodeOmits | client/src/pages/home.tsx:135 | no character outside the unescaped set (other than '%') survives encoding |
| UriComponent.EncodeHasNoDelimiters | client/src/pages/home.tsx:135 | no space, line break, '&', '#', '?' or '=' survives encoding |
| UriComponent.EncodeOfUnescaped | client/src/pages/home.tsx:135 | text made of unescaped characters is copied unchanged |
| UriComponent.EncodeAppend | client/src/pages/home.tsx:135 | encoding works character by character: it distributes over concatenation |
| UriComponent.EncodeExamples | client/src/pages/home.tsx:135 | " " is "%20", a line break is "%0A", "A&B" is "A%26B", "é" is "%C3%A9" |
| UriComponent.DecodeOctets | client/src/pages/home.tsx:135 | a decoded UTF-8 sequence consumes whole %HH triplets, 3 to 12 characters of the input, never more than there are |
| UriComponent.EncodeCharDecodes | client/src/pages/home.tsx:135 | decoding the encoding of one character gives back that character and continues after it |
| UriComponent.Utf8Decodes | client/src/pages/home.tsx:135 | the escaped UTF-8 bytes of any character decode to that character, consuming three characters per byte |
| UriComponent.DecodeEncode | client/src/pages/home.tsx:135 | decodeURIComponent(encodeURIComponent(s)) is s for every string |
| ContactForm.LeadingTrimmable | client/src/pages/home.tsx:1482-1484 | counts exactly the white space and line terminators that begin the string |
| ContactForm.TrailingTrimmable | client/src/pages/home.tsx:1482-1484 | counts exactly the white space and line terminators that end the string |
| ContactForm.Trim | client/src/pages/home.tsx:1482-1484 | the result is a slice of the input that remains after cutting off a blank prefix and a blank suffix, and it is empty or neither starts nor ends with white space or a line terminator |
| ContactForm.TrimEmptyIffBlank | client/src/pages/home.tsx:1481-1485 | a field is in error (trimmed length 0) if and only if it is nothing but white space and line terminators |
| ContactForm.SubmitRejectsIffBlank | client/src/pages/home.tsx:1487-1493 | the submit aborts with "Please complete all fields." if and only if one of the three fields is blank |
| ContactForm.SubmitOpensComposedMessage | client/src/pages/home.tsx:1495-1499 | a submit that goes through shows "Opening WhatsApp…" and opens a link carrying exactly the composed message to the configured number |
| ContactForm.GreetingLinkCarriesGreeting | client/src/pages/home.tsx:503-505 | the WhatsApp buttons' link carries exactly the greeting to the configured number |
| ContactForm.Lines | client/src/pages/home.tsx:1495 | a message read line by line, split at each line break, has at least one line |
| ContactForm.ComposedLines | client/src/pages/home.tsx:1495 | with no line break in the fields, the message is four lines: the greeting, then "Name: ", "Contact: " and "Message: " each followed by its field exactly as typed |
| ActiveSection.ClampedTop | client/src/pages/home.tsx:81-82 | the clamped top is the top or 0, at least both |
| ActiveSection.PrecedesIsRankedBefore | client/src/pages/home.tsx:79-95 | the comparator puts a first (or ties) if and only if: both are near the top and a's top is lower or equal, or only a is near the top, or neither is and a's ratio is at least b's |
| ActiveSection.CompareAntisymmetric | client/src/pages/home.tsx:79-95 | swapping the arguments negates the comparator's value |
| ActiveSection.PrecedesReflexive | client/src/pages/home.tsx:79-95 | every candidate ties with itself |
| ActiveSection.PrecedesTotal | client/src/pages/home.tsx:79-95 | of any two candidates, one may go first |
| ActiveSection.PrecedesTransitive | client/src/pages/home.tsx:79-95 | "may go first" is transitive, so the comparator is consistent as sort requires |
| ActiveSection.StrictlyBeforeTransitive | client/src/pages/home.tsx:79-95 | "goes strictly first" chains with "may go first" |
| ActiveSection.Insert | client/src/pages/home.tsx:79 | insertion adds exactly the one element |
| ActiveSection.Sort | client/src/pages/home.tsx:79-95 | the sorted sequence is a permutation of the visible candidates |
| ActiveSection.InsertSorted | client/src/pages/home.tsx:79 | inserting into a sorted sequence keeps it sorted |
| ActiveSection.SortSorted | client/src/pages/home.tsx:79-95 | the result is ordered by the comparator |
| ActiveSection.FirstMinimumUnique | client/src/pages/home.tsx:79-97 | only one index can be the first minimum, so `visible[0]` is determined |
| ActiveSection.SortHead | client/src/pages/home.tsx:79-97 | `visible[0]` is the first entry that no other entry goes strictly before |
| ActiveSection.Visible | client/src/pages/home.tsx:72-78 | filtering never adds entries |
| ActiveSection.VisibleMembers | client/src/pages/home.tsx:72-78 | the candidates are exactly the intersecting entries, with their id, ratio and top |
| ActiveSection.VisibleAppend | client/src/pages/home.tsx:72-78 | the filter works entry by entry, so the candidates keep the batch's order and multiplicity, and "earlier" among candidates means earlier in the batch |
| ActiveSection.VisibleOne | client/src/pages/home.tsx:73-78 | one entry yields its (id, ratio, top) exactly when it intersects, and nothing otherwise |
| ActiveSection.NothingVisible | client/src/pages/home.tsx:72-78 | with no intersecting entry there is no candidate |
| ActiveSection.ReduceNothingVisible | client/src/pages/home.tsx:97-99 | a batch in which nothing intersects leaves the active id as it was |
| ActiveSection.ReduceInstallsIntersecting | client/src/pages/home.tsx:72-99 | the callback leaves the active id alone or installs the non-empty id of an intersecting entry |
| ActiveSection.ReduceSingleVisible | client/src/pages/home.tsx:97-99 | a single intersecting entry becomes active unless its id is empty |
| ActiveSection.ChosenPolicy | client/src/pages/home.tsx:79-97 | if some section is near the top, the winner is near the top with the least clamped top and all earlier such entries have strictly greater tops; otherwise it has the greatest ratio and all earlier entries strictly smaller ones |
| ActiveSection.ReduceOfTwo | client/src/pages/home.tsx:72-99 | of two intersecting entries (both ids non-empty) the first wins unless the comparator puts the second strictly first |
| ActiveSection.ReduceExampleByRatio | client/src/pages/home.tsx:93-94 | "story" at ratio 0.6 beats "work" at 0.3 when neither is near the top |
| ActiveSection.ReduceExampleByTop | client/src/pages/home.tsx:86-91 | "work" near the top beats "story" with a larger ratio |
| ActiveSection.ReduceExampleClamped | client/src/pages/home.tsx:81-87 | a section whose top is above the viewport counts as top 0 and wins |
| ActiveSection.InitialActive | client/src/pages/home.tsx:60 | the first configured id (even an empty one), or "home" when there is none |
| ActiveSection.InitialActiveOfNavigation | client/src/pages/home.tsx:1816-1820 | the page's tracker, built from the navigation ids (config.ts:24-32), starts on "home", one of those ids |
| ActiveSection.Tracker.constructor | client/src/pages/home.tsx:60-67 | the active id starts as the initial id; an observer is connected exactly when some id resolves to an element |
| ActiveSection.Tracker.Observe | client/src/pages/home.tsx:70-99 | while observing, the active id becomes the reducer's result and nothing else changes; it stays a configured id when the entries are configured sections |
| ActiveSection.Tracker.Disconnect | client/src/pages/home.tsx:109 | after cleanup no batch is delivered |
| ThemeToggle.FromSaved | client/src/pages/home.tsx:27-30 | a saved value is used if and only if it is "dark" or "light", and then it is that theme's name |
| ThemeToggle.FromSavedName | client/src/pages/home.tsx:27-30 | a theme's stored name is read back as that theme |
| ThemeToggle.InitialThemeFollowsSaved | client/src/pages/home.tsx:25-36 | with a window, a valid saved theme wins; otherwise the theme is dark exactly when the root has the "dark" class |
| ThemeToggle.Toggled | client/src/pages/home.tsx:48 | toggling always changes the theme |
| ThemeToggle.ToggledTwice | client/src/pages/home.tsx:48 | toggling twice restores the theme |
| ThemeToggle.ThemeState.constructor | client/src/pages/home.tsx:25-36 | the state starts at the initial theme |
| ThemeToggle.ThemeState.IsDark | client/src/pages/home.tsx:49 | `isDark` holds exactly when the theme's name is "dark" |
| ThemeToggle.ThemeState.Toggle | client/src/pages/home.tsx:48 | the theme becomes the other one and `isDark` flips |
| WorkGallery.TabsCoverAll | client/src/pages/home.tsx:1089-1090 | every tab has exactly one button and "All", the initial tab, comes first |
| WorkGallery.OfCategory | client/src/pages/home.tsx:1094 | the filter keeps only projects of the tab's category and never adds any |
| WorkGallery.OfCategoryCounts | client/src/pages/home.tsx:1094 | each project of the category is kept as often as it occurs; every other project is dropped |
| WorkGallery.OfCategoryIsSubsequence | client/src/pages/home.tsx:1094 | the kept projects keep their original order |
| WorkGallery.OfCategoryAppend | client/src/pages/home.tsx:1094 | filtering distributes over concatenation |
| WorkGallery.OfCategoryKeepsAll | client/src/pages/home.tsx:1094 | a list already of one category is unchanged by its filter |
| WorkGallery.CategoriesPartition | client/src/pages/home.tsx:1089-1095 | the three category tabs together show every project exactly once: their multisets add up to the projects' multiset (and so their lengths to the number of projects) |
| WorkGallery.FilteredIdempotent | client/src/pages/home.tsx:1092-1095 | applying a tab's filter again changes nothing |
| Testimonials.StarFills | client/src/pages/home.tsx:1393-1400 | there are always five stars |
| Testimonials.StarFillsBounded | client/src/pages/home.tsx:1393-1400 | each star is filled by a fraction from 0 to 1, and later stars no more than earlier ones |
| Testimonials.StarFillsSum | client/src/pages/home.tsx:1393-1400 | the filled area adds up to the rating clamped to 0..5 |
| Testimonials.StarFillsExample | client/src/pages/home.tsx:1381 | a 4.5 rating fills four stars and half of the fifth |

## Left out

- The rendering, the animations, the styling and the static content arrays (services, projects, team, testimonials): markup, not logic. Only the fields that the filter and the cards read are modelled, and the rating the stars read.
- The browser is not modelled: `IntersectionObserver`, `getBoundingClientRect`, `document.getElementById`, `localStorage`, the DOM class list, `toast` and `window.open`. Their inputs are parameters, and their effects are the `Outcome` of a submit.
- The observer's `threshold` list and `rootMargin` (home.tsx:101-105). They decide when the browser delivers a batch and what counts as intersecting; the model takes whatever batch arrives.
- The effect of `useTheme` that writes the class list and `localStorage` (home.tsx:38-46): browser I/O. Home's `MutationObserver` copy of the theme (home.tsx:1793-1813) is left out for the same reason.
- `scrollToId` (home.tsx:115-127): pure browser I/O, with scrolling arithmetic over values the model does not have.
- The Navbar's scrolled flag: a window scroll listener.
- The `useMemo`/`useEffect` dependency lists: the model has no re-render or re-subscription.
- The lone-surrogate URIError of `encodeURIComponent`: a Dafny `char` is a Unicode scalar value, so such input cannot be written.
- ActiveSection.Sort: the model proves that the result is sorted, that it is a permutation of the candidates, and that its head is the first minimum, which is all the callback reads. The real `Array.prototype.sort` is stable, and a stable sort under a total preorder has only one possible result. That this result equals the engine's whole sequence is not proved.
- ContactForm.ComposedLines: covers only fields with no line break. A field that holds one yields more lines.
- `client/src/config.js` is an older variant that home.tsx does not import (home.tsx:51 imports `@/config.ts`). Its brand name and labels differ. The constants copied are those of config.ts: the brand name, the number and the navigation ids.
- JavaScript numbers (`intersectionRatio`, `rect.top`, `rating`) are modelled as exact `real`s. Nothing the page reads is lost:
  - for finite doubles, `topA - topB` and `b.ratio - a.ratio` have the sign of the exact difference, and are zero only when the two values are equal;
  - `rating - Math.floor(rating)` is exact.
