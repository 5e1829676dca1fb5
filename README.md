# CRIFYM page script, modelled in Dafny

The model covers the rules in the site's page script `js/main.js`:

- **Sticky header** (`StickyHeader`). The header carries `header--scrolled` exactly while the page is scrolled more than 50 pixels down.
- **Mobile menu** (`MobileMenu`). There are three operations:
  - the hamburger toggle, which flips the open class of the mobile navigation and the active class of the button, locks or unlocks the body's scrolling and updates `aria-expanded`;
  - the close operation run when a menu link is clicked;
  - the resize handler, which closes the menu from a window width of 1024 pixels up.
- **Active navigation link** (`ActiveNav`). The current page is the last `/`-separated segment of the location's pathname, or `index.html` when that segment is empty. Every desktop and mobile link whose href ends in that segment gains its active class.
- **Contact form validation** (`FormValidation`, with `Text` and `Email`). On submit the handler does the following:
  - It removes every previous error message and error class.
  - It checks each required field in document order, on its trimmed value. A blank field gets "Este campo es obligatorio". A non-blank `type="email"` field that is not an address gets "Ingresa un correo electrónico válido".
  - When no field failed, it replaces the form with the success panel.
  - The address test is the pattern `^[^\s@]+@[^\s@]+\.[^\s@]+$`. It is modelled as a structural scan and proved to accept exactly the strings the pattern matches.

The page's DOM state is modelled by classes:

- `Menu`, `Header` and `Navigation` hold the classes and attributes the script toggles.
- `ContactForm` holds the form's fields, with their error class, and the list of error messages shown under them.

Pure rules are functions and lemmas. These include the whitespace set shared by `trim` and `\s`, the pattern, the last path segment and the message a field gets.

## Model

| member | source | states |
|---|---|---|
| Text.SkipSpaceSpec | js/main.js:157 | the forward scan of `trim` passes over white space only and stops at the first character that is not white space |
| Text.SkipSpaceBackSpec | js/main.js:157 | the backward scan of `trim` passes over white space only and stops just after the last character that is not white space |
| Text.TrimSpec | js/main.js:157 | `value.trim()` is the slice left once white space is cut from both ends; it neither starts nor ends with white space; it is empty exactly when the value is all white space |
| Text.TrimIdempotent | js/main.js:157 | trimming a trimmed value changes nothing |
| Email.AllPlainSpec | js/main.js:199 | the scan accepts exactly the runs of `[^\s@]` characters |
| Email.IndexOfSpec | js/main.js:199 | the '@' the predicate splits on is the first one in the string, or there is none |
| Email.DotFromSpec | js/main.js:199 | the domain scan finds a '.' exactly when one sits strictly inside the domain, as `[^\s@]+\.[^\s@]+` requires |
| Email.IsValidEmailMatchesPattern | js/main.js:198-201 | `isValidEmail` holds exactly when some placement of the literal '@' and '.' makes `^[^\s@]+@[^\s@]+\.[^\s@]+$` match the whole string |
| Email.IsValidEmailShape | js/main.js:198-201 | `isValidEmail` holds exactly when the string has one '@' and no white space, the '@' is not the first character, and the domain after it has a '.' that is neither its first nor its last character |
| Email.IsValidEmailRejects | js/main.js:198-201 | a string with no '@', with two or more, or with any white space is rejected |
| Email.Count | js/main.js:199 | the occurrence count of a character is zero exactly when the character is absent |
| FormValidation.ErrorForSpec | js/main.js:156-170 | a field gets a message exactly when it fails; a blank required field gets the "required" message (and, through the early return, never also the address one); only a non-blank required email field that is not an address gets the address message |
| FormValidation.ExpectedNotesSpec | js/main.js:156-170 | the messages the loop leaves are in field order, one per failing field, each carrying that field's message |
| FormValidation.NotesForExact | js/main.js:156-170 | a field that fails has exactly one message under it, and a field that passes has none |
| FormValidation.NoNotesIffAcceptable | js/main.js:144-173 | the loop leaves no message exactly when every required field passes, which is when `isValid` stays true |
| FormValidation.CheckedSpec | js/main.js:147-170 | after clearing and checking, exactly the failing fields carry `form-field--error`, and no field changes otherwise |
| FormValidation.ContactForm.ShowFieldError | js/main.js:185-191 | the field gains its error class and one message is appended for it; nothing else changes |
| FormValidation.ContactForm.ShowFormSuccess | js/main.js:206-217 | the form's content is replaced by the success panel: no field and no message remain |
| FormValidation.ContactForm.ClearErrors | js/main.js:147-153 | every message is removed and every field loses its error class; values are untouched |
| FormValidation.ContactForm.CheckField | js/main.js:156-170 | one iteration of the field loop: the flag is cleared exactly when the field fails, and the field is marked and gets its message exactly then |
| FormValidation.ContactForm.CheckFields | js/main.js:144-170 | after the clearing loops, the field loop marks exactly the fields whose check fails and leaves their messages in field order; the flag stays true exactly when no message was added |
| FormValidation.ContactForm.Submit | js/main.js:141-177 | the handler's flag is true exactly when every required field passes; the success panel then replaces the form; otherwise the failing fields, and only those, are marked, and one message per failing field appears in field order |
| ActiveNav.LastSegmentSpec | js/main.js:113 | `split('/').pop()` is the suffix after the last '/', holds no '/', and is the whole string when there is none |
| ActiveNav.LastSegmentUnique | js/main.js:113 | that characterization determines the segment uniquely |
| ActiveNav.LastSegmentAfterSlash | js/main.js:117 | an href's segment does not depend on the directories in front of it |
| ActiveNav.CurrentPage | js/main.js:113 | the current page is non-empty and free of '/'; a pathname ending in '/' (or empty) names `index.html`, and any other pathname names its last segment |
| ActiveNav.MarkHighlights | js/main.js:116-121 | marking each link on its own yields links with the same hrefs, active exactly when already active or matching the page |
| ActiveNav.HighlightedIdempotent | js/main.js:112-130 | highlighting again for the same page changes nothing |
| ActiveNav.HighlightedExactly | js/main.js:116-129 | a link that was not active is active afterwards exactly when its href's segment is the current page |
| ActiveNav.Navigation.SetActiveNavLink | js/main.js:112-130 | every desktop link, and then every mobile link, keeps its href and is active exactly when it already was or its href's segment is the current page |
| MobileMenu.AriaText | js/main.js:47 | `aria-expanded` is written as "true" exactly when the menu is open, and as "false" otherwise |
| MobileMenu.OverflowFor | js/main.js:44 | the body's overflow style is empty exactly when the menu is closed |
| MobileMenu.Menu.Toggle | js/main.js:39-48 | both classes flip; the returned state is the navigation's new open state; overflow and `aria-expanded` follow it; a consistent menu stays consistent |
| MobileMenu.Menu.Close | js/main.js:51-56 | the menu ends closed and consistent whatever its state before |
| MobileMenu.Menu.Resize | js/main.js:73-77 | at 1024 pixels and wider the menu is closed; below that nothing changes |
| MobileMenu.ToggleTwiceRestores | js/main.js:39-48 | toggling twice from a consistent state gives back that state |
| StickyHeader.IsScrolledMonotone | js/main.js:22 | scrolling further never unmarks the header, and exactly 50 pixels is not yet scrolled |
| StickyHeader.Header.HandleStickyHeader | js/main.js:21-27 | the header is marked exactly when the offset exceeds 50 pixels, whatever it was before |

## Left out

- Smooth scrolling for in-page anchors (js/main.js:83-105) is not modelled. It is layout geometry and a browser scroll animation. This includes its rule that an href of exactly `#` is ignored (line 88).
- The footer year (js/main.js:222-225) is not modelled. It reads the clock.
- DOM look-ups, listener registration and their null guards are not modelled: lines 12-15, 30, 59-66, 138-140, 145 and 207. The model starts from objects that exist.
- Running the header and navigation handlers once on load (lines 33 and 132) is the same operation as the one modelled, applied to the initial state.
- `e.preventDefault()` (line 142) is not modelled.
- The success panel's markup (lines 209-216) is not modelled. Only the fact that it replaces the form's fields and messages is kept.
- A message's position under its field's parent node is not modelled. A message is recorded against the index of its field.
- Messages with class `form-error` that were not put there by this handler are not modelled. The clearing loop would remove them as well.
- A navigation link without an href would make `getAttribute('href').split` throw. Links are modelled with a string href.
- The appointment-scheduling modal is not part of `js/main.js` and is not part of this model. This covers its time-slot rules, message composer and deep link.
- Strings are sequences of Unicode scalar values, not UTF-16 code units. The address pattern has no `u` flag, so the engine sees a supplementary character as two code units, neither of them white space nor '@'. It accepts and rejects the same strings either way.
- StickyHeader.Header.HandleStickyHeader: `window.scrollY` is a double. It is modelled as a real, so rounding is not represented.
