# Portfolio page script: a verified model of its UI logic

`script.js` drives a static portfolio page. Three pieces of it hold logic
that can be stated and proved, and the form rests on a fourth:

- The contact form. `validateField` trims a field's value. It rejects an
  empty value, and in the field named `email` it also rejects a value that
  fails the shape check `/^[^\s@]+@[^\s@]+\.[^\s@]+$/`. It clears the
  previous error and marks the field on failure. The submit handler
  validates every field, then either shows the correction banner or runs
  the simulated send behind a loading button.
- The active-section highlighter `updateActiveNavLink`. It finds the last
  section, in document order, that the scroll position has reached (100
  pixels early). Then it gives the `active` class to exactly the links whose
  `href` is `#` followed by that section's id.
- The mobile menu. This is the flag `isMenuOpen`, the `active` class on the
  menu and the toggle's icon. They are changed by the toggle, by the menu's
  links, by a click outside the menu, by the Escape key and by resizing to
  desktop width.
- Trimming and the `\s` class. The field check and the e-mail check both
  use them.

The model has five modules:
- `Text`: the ECMAScript whitespace set and `trim`.
- `Email`: the regular expression's language, a computed matcher and a
  proof that they agree.
- `ContactForm`: the field verdict as a function, plus a class `Form` for
  the inputs, banner and button that the handlers update in place.
- `Navigation`: a class over the sections and links, with the handler's two
  loops.
- `MobileMenu`: a class over the menu state, with the listeners as written
  and as evidently intended.

The page is represented abstractly:
- An input is a record of its name, value, default value, `error` class and
  error text.
- A section is its id and `offsetTop`; a link is its `href` and `active`
  class.
- The menu is its flag, class and icon.

The starting state comes from the page's markup, not from the script, and
is assumed. The status banner is hidden and the submit button shows its
idle look. The mobile menu lacks the `active` class and its toggle shows
the bars icon. The script itself only sets `isMenuOpen` to `false`
(script.js:45).

The outcome of the simulated send is a boolean parameter. The scroll
position and the window width are parameters, and so are the click target's
place and the key pressed.

## Model

| member | source | states |
|---|---|---|
| `Text.TrimStartMeaning` | script.js:146 | what is left after dropping leading whitespace is a suffix whose first character is not a space, and only spaces were dropped |
| `Text.TrimEndMeaning` | script.js:146 | what is left after dropping trailing whitespace is a prefix whose last character is not a space, and only spaces were dropped |
| `Text.TrimMeaning` | script.js:146 | `trim` yields a slice of the value with only whitespace outside it; the slice is empty exactly when the value is blank, and otherwise neither starts nor ends with a space |
| `Text.TrimUnique` | script.js:146 | those facts determine the trimmed value: any such slice equals `Trim(s)` |
| `Text.TrimIdempotent` | script.js:146 | trimming a trimmed value changes nothing |
| `Email.IsValidEmailMatchesPattern` | script.js:173-176 | the computed check accepts a string exactly when it reads A`@`B`.`C with A, B, C non-empty runs of characters that are neither whitespace nor `@` |
| `Email.ValidEmailSplitsAt` | script.js:173-176 | an accepted string splits into the pattern's three runs at its first `@` and at the last dot strictly inside its domain |
| `Email.ValidEmailMatchesPattern` | script.js:173-176 | every accepted string is in the pattern's language |
| `Email.PatternMatchIsValidEmail` | script.js:173-176 | every string of the pattern's language is accepted |
| `Email.ValidEmailHasOneAt` | script.js:174 | an accepted address has no whitespace and exactly one `@` |
| `Email.AcceptsPlainAddress` | script.js:174 | `a@b.c` is accepted |
| `Email.AcceptsDottedParts` | script.js:174 | dots in the local part and in the domain are accepted (`a.b@c.d.e`) |
| `Email.AcceptsDoubleDot` | script.js:174 | `a@b..c` is accepted, because the run before `\.` may itself end in a dot |
| `Email.RejectsMissingParts` | script.js:174 | `a@b`, `a@.c`, `a@b.` and `@b.c` are rejected |
| `Email.RejectsBadCharacters` | script.js:174 | a second `@` or a space is rejected |
| `ContactForm.FieldVerdictMeaning` | script.js:145-166 | a blank value is rejected as required whatever the field's name; a non-blank value in `email` is rejected as malformed exactly when its trimmed form is outside the pattern; every other value passes |
| `ContactForm.Checked` | script.js:150-171 | after validation a field keeps its name and value; it is marked exactly when it fails; its error text is empty exactly when it is not marked |
| `ContactForm.CheckedMessage` | script.js:155-162 | a checked field with a blank value shows "This field is required", whatever its name; a checked `email` field with a non-blank value outside the pattern shows "Please enter a valid email address" |
| `ContactForm.AllAcceptedIffNoneMarked` | script.js:197-202 | once every field is checked, the form is valid exactly when no field is marked, and every failing field is marked |
| `ContactForm.Form.constructor` | script.js:139-143 | a fresh form holds the page's inputs, with no loading transitions yet; the hidden banner and idle button are the assumed starting state of the markup |
| `ContactForm.Form.ShowFieldError` | script.js:168-171 | one field gains the `error` class and the message, and nothing else changes |
| `ContactForm.Form.ValidateField` | script.js:145-166 | the result is the verdict on that field; only that field changes, to its checked form; its mark equals the negated result, and its error text is empty exactly when the result is true |
| `ContactForm.Form.OnBlur` | script.js:182 | leaving a field validates it |
| `ContactForm.Form.OnInput` | script.js:185-189 | typing into a marked field re-validates it; an unmarked field takes the new value and stays unmarked |
| `ContactForm.Form.ValidateAll` | script.js:196-202 | every field is replaced by its checked form, none skipped, and the result is the conjunction of the verdicts |
| `ContactForm.Form.SetSubmitButtonLoading` | script.js:234-249 | the button shows the loading or the idle look (class, `disabled`, icon, caption), and the transition is logged |
| `ContactForm.Form.ShowFormStatus` | script.js:251-254 | the banner shows the given kind and message |
| `ContactForm.Form.HideFormStatus` | script.js:256-259 | the banner is hidden |
| `ContactForm.Form.ResetForm` | script.js:220 | every value returns to its default, and marks and texts stay |
| `ContactForm.Form.Submit` | script.js:193-232 | an invalid form leaves every field checked and shows the correction banner, and the button and loading log stay as they were; a valid form logs exactly one loading entry followed by one exit, ends with the button idle, and shows the success banner with the form reset or the send-error banner |
| `Navigation.CurrentSectionIdOfLast` | script.js:19-25 | when a section is the last in document order with `offsetTop - 100 <= pageYOffset`, the current id is its id |
| `Navigation.CurrentSectionIdOfNone` | script.js:19-32 | when no section is reached the current id is `''`, so the links compared against are those with a bare `#` |
| `Navigation.Navigation.constructor` | script.js:13-15 | the state holds the given sections and links |
| `Navigation.Navigation.FindCurrent` | script.js:19-25 | the forward scan that reassigns `current` ends with the current section's id |
| `Navigation.Navigation.UpdateActiveNavLink` | script.js:18-33 | afterwards the link list has the same length and hrefs, and each link is active exactly when its href is `#` followed by the current id |
| `MobileMenu.Menu.constructor` | script.js:45 | the flag starts false, as the script sets it; the missing class and the bars icon are the assumed starting state of the markup |
| `MobileMenu.Menu.Toggle` | script.js:48-55 | the flag flips, and the class and the icon follow the new flag |
| `MobileMenu.Menu.Close` | script.js:58-63 | flag and class both false, bars icon |
| `MobileMenu.Menu.OnDocumentClick` | script.js:74-78 | closes only when the flag is set and the target is outside both the menu and the toggle; otherwise nothing changes; agreement of flag, class and icon is preserved |
| `MobileMenu.Menu.OnToggleClick` | script.js:66 | a click on the toggle toggles; the document listener then leaves the menu alone |
| `MobileMenu.Menu.OnMobileLinkClick` | script.js:69-71 | a click on a menu link closes the menu |
| `MobileMenu.Menu.OnKeyDown` | script.js:349-360 | Escape on a visible menu clears the class and resets the icon; the flag never changes; an open menu in agreement ends out of agreement |
| `MobileMenu.Menu.OnResize` | script.js:336-346 | at width 768 or more the class is cleared and the icon reset; the flag never changes |
| `MobileMenu.Menu.OnKeyDownClosing` | script.js:349-360 | the intended Escape handler closes through `closeMobileMenu` and preserves agreement |
| `MobileMenu.Menu.OnResizeClosing` | script.js:336-346 | the intended resize handler closes through `closeMobileMenu` and preserves agreement |
| `MobileMenu.ReopenAfterEscape` | script.js:349-360 | as written: open, Escape, click the toggle, and the menu stays hidden |
| `MobileMenu.ReopenAfterEscapeClosing` | script.js:349-360 | as intended: the same clicks open the menu again |
| `MobileMenu.ReopenAfterResize` | script.js:336-346 | as written: open, resize to desktop width and back below it, click the toggle, and the menu stays hidden |
| `MobileMenu.ReopenAfterResizeClosing` | script.js:336-346 | as intended: the same steps open the menu again |

## Left out

- Scroll animations and skill bars (script.js:82-136): these are
  `IntersectionObserver` callbacks with floating-point thresholds and
  transition delays.
- Smooth scrolling (script.js:270-290), the navbar colour on scroll
  (script.js:313-320) and the body's `loading` class (script.js:323-333).
  These are browser effects with no logic to prove.
- `debounce` (script.js:293-303): a timer. The resize listener is modelled
  as the single call that the debounce finally makes.
- `ContactForm.Form.Submit`: the simulated send (script.js:262-266) is a
  1.5-second timer that always resolves, so as written the catch branch
  cannot be reached. The model still takes the outcome as a parameter and
  covers both branches.
- `ContactForm.Form.Submit`: the hiding of the banner that is scheduled five
  seconds later (script.js:228-230) is not part of the call. `HideFormStatus`
  models what that timer does.
- `ContactForm.Form.Submit`: it is modelled as one atomic step. Events that
  the browser could dispatch while the send is awaited (typing, a second
  submit) are not interleaved.
- `ContactForm.Form.ValidateField`: the error element is looked up by the id
  `<name>-error`. The model keeps one error text per field. This assumes that
  field names are distinct and that each has its element. A missing element
  would make the script throw; that is not modelled.
- `Navigation.Navigation.UpdateActiveNavLink`: it assumes that every link
  has an `href` attribute. A link without one never becomes active in the
  script.
- Numbers: `pageYOffset` is a real, not an IEEE double, and `offsetTop` is
  an integer.
- Whitespace: `Text.IsSpace` lists ECMAScript's WhiteSpace and
  LineTerminator code points as of current Unicode. Script strings are
  UTF-16 code units; the model's characters are Unicode scalar values, so
  lone surrogates cannot be represented.
- The accessibility helper `initAccessibility` (script.js:363-404): it
  creates a skip link, sets inline styles and moves focus on a 100 ms timer.
- The console message (script.js:410-414) and all DOM querying.

## Findings

| source | as written | input that shows it | evidently intended | confidence | as-written member | corrected member |
|---|---|---|---|---|---|---|
| script.js:349-360 | Escape removes the `active` class but leaves the closure flag `isMenuOpen` set | open the menu, press Escape, click the toggle: the click clears the stale flag and the menu stays hidden; only a second click opens it | Escape closes the menu through `closeMobileMenu`, and the next click reopens it | high; not executed | `MobileMenu.ReopenAfterEscape` | `MobileMenu.ReopenAfterEscapeClosing` |
| script.js:336-346 | resizing to 768 pixels or wider removes the class but leaves `isMenuOpen` set | open the menu, resize the window to 768 pixels or wider and back below 768, click the toggle: the menu stays hidden | a resize to desktop width closes the menu through `closeMobileMenu` | high; not executed | `MobileMenu.ReopenAfterResize` | `MobileMenu.ReopenAfterResizeClosing` |
