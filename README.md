# Optimum Glass page logic, modelled in Dafny

`script.js` is the client-side glue of a glass-repair company's marketing
site. Most of it drives the browser (scrolling, animations, analytics calls),
but a few parts of it make decisions or keep state. This project models
those parts with the DOM reduced to plain values, flags and texts, and
proves what they promise:

- **Quote-form field validation** (`validateField`, `validateForm`,
  `clearFormErrors`, the `blur`/`input` listeners). The model is in modules
  `Text` (white space and `trim`), `FieldValidation` (the verdict) and
  `QuoteForm` (the form's error classes and error texts). Each of the two
  regular expressions gets two definitions: the parses by which the pattern
  can match, and the hand-written check a reader would state. Lemmas prove
  the two agree on every string.
- **The quote modal and submission flow** (`openQuoteModal`,
  `closeQuoteModal`, the Escape key, `handleFormSubmit`,
  `showSuccessMessage`, the `?service=` preselection). These are the class
  `QuoteForm.QuoteModal`. A submission is split in two. `Submit` validates
  the form and sends the request. `CompleteSimulated` or `CompleteResponse`
  applies the outcome when it arrives.
- **The testimonial carousel** (`showTestimonial`, `changeTestimonial`,
  `currentTestimonial`). These are the class `Testimonials.Carousel`. Its
  `active` classes are boolean arrays.
- **The scroll-depth tracker** inside `initAnalytics`, as
  `ScrollDepth.Tracker`.
- **`throttle`**, as `RateLimit.Throttle`. The timer is an explicit expiry
  event.
- **The after-hours emergency banner**, as `EmergencyHours`.

Three behaviours of `script.js` deserve a note, and the model keeps all three:

- The phone pattern at script.js:182 counts characters, not digits: any ten
  characters from digits, white space, `-`, `(` and `)` pass, so ten hyphens
  are a valid phone number (`FieldValidation.PhoneCountsCharactersNotDigits`).
- `handleFormSubmit` has a development bypass at script.js:254-270: on
  `localhost`, `127.0.0.1` or a `file:` page the send is simulated and
  always succeeds; elsewhere the form is posted.
- `throttle` sets its flag only after the wrapped handler returns
  (script.js:500-503), so a handler that throws is never throttled
  (`RateLimit.ThrowingHandlerNeverThrottled`).

## Model

| member | source | states |
|---|---|---|
| `Text.TrimStartSpec` | script.js:158 | `trim`'s leading half drops exactly the leading run of white space and leaves a suffix that does not start with white space |
| `Text.TrimEndSpec` | script.js:158 | the trailing half drops exactly the trailing run of white space and leaves a prefix that does not end with white space |
| `Text.TrimSpec` | script.js:158 | the trimmed value is an infix of the raw value that neither starts nor ends with white space |
| `Text.TrimEmptyIff` | script.js:158-165 | the trimmed value is empty (`!value`) exactly when the raw value is all white space |
| `Text.TrimIdempotent` | script.js:158 | trimming a trimmed value changes nothing |
| `FieldValidation.IndexOf` | script.js:174 | the position found is the first `@` of the value, or the end when there is none |
| `FieldValidation.EmailFormatCorrect` | script.js:173-179 | the hand-written check "non-empty L without white space or `@`, then `@`, then D without white space or `@` with a `.` neither first nor last" accepts exactly what `/^[^\s@]+@[^\s@]+\.[^\s@]+$/` matches |
| `FieldValidation.EmailAccepted` | script.js:174 | `a@b.co` matches the email pattern |
| `FieldValidation.EmailWithoutDotRejected` | script.js:174 | `a@b` does not match the email pattern |
| `FieldValidation.EmailWithEmptyLabelRejected` | script.js:174 | `a@.co` does not match: the `.` may not follow the `@` directly |
| `FieldValidation.PhoneFormatCorrect` | script.js:181-187 | "an optional `+`, then at least ten characters, each a digit, white space, `-`, `(` or `)`" accepts exactly what the phone pattern matches, over all four of its parses |
| `FieldValidation.PhoneCountsCharactersNotDigits` | script.js:182 | ten hyphens pass the phone pattern, though they hold no digit; `469-7945` fails it |
| `FieldValidation.PhoneLocalFormatAccepted` | script.js:182 | `(469) 794-5717` passes the phone pattern |
| `FieldValidation.PhoneInternationalAccepted` | script.js:182 | `+1 469 794 5717` passes the phone pattern |
| `FieldValidation.CheckFieldCorrect` | script.js:157-189 | a blank value fails only when required, with 'This field is required.', and no format check runs; a non-blank `email` or `phone` value passes exactly when its pattern matches the trimmed value, otherwise with that field's message; any other non-blank value passes; the message is '' exactly when the value passes |
| `FieldValidation.CheckFieldIgnoresPadding` | script.js:158 | surrounding white space never changes the verdict |
| `QuoteForm.ServiceLabel` | script.js:618-627 | a label exists exactly for `auto`, `residential`, `commercial` and `emergency`; `emergency` gives 'Emergency Repair' |
| `QuoteForm.ServiceLabelInjective` | script.js:618-623 | distinct query values preselect distinct services |
| `QuoteForm.FirstError` | script.js:231-234 | the control focused is a flagged one and no earlier control is flagged; there is none exactly when no control is flagged |
| `QuoteForm.FormEntriesKeys` | script.js:245-246 | the entries have a key exactly for each non-empty control name |
| `QuoteForm.FormEntriesValues` | script.js:245-246 | each key holds the value of the last control with that name |
| `QuoteForm.Payload` | script.js:245-249 | the payload always has `form-name` = 'glass-quote-request', overriding any control of that name; its other keys are the named controls, each holding its last control's value |
| `QuoteForm.InvalidFormHasFlag` | script.js:229-235 | after a failed `validateForm` some control carries the `error` class, so there is always a field to focus |
| `QuoteForm.QuoteModal.ValidateField` | script.js:157-201 | the result is the control's verdict; the control's `error` flag becomes its negation; its error element's text becomes the verdict's message, if the page has that element |
| `QuoteForm.QuoteModal.ValidateForm` | script.js:203-215 | every required control is checked, with no stop at the first failure; the result is true exactly when all pass; each required control's flag and text mirror its verdict; other controls keep theirs |
| `QuoteForm.QuoteModal.ClearFormErrors` | script.js:217-224 | every error element is emptied and no control keeps the `error` class |
| `QuoteForm.QuoteModal.Blur` | script.js:142-144 | leaving a control re-validates it: its `error` flag becomes the negation of its verdict and its error element, if any, shows the verdict's message; no other control changes |
| `QuoteForm.QuoteModal.Input` | script.js:146-150 | typing updates the value and re-validates the control only while it shows an error, setting its flag and error text from the verdict on the new value; a control without an error keeps its flag and text |
| `QuoteForm.QuoteModal.Open` | script.js:102-115 | the form view is shown and the success view hidden; the values go back to their defaults; all errors are cleared; the modal is shown and page scrolling is locked |
| `QuoteForm.QuoteModal.Close` | script.js:129-133 | the modal is hidden and page scrolling is unlocked |
| `QuoteForm.QuoteModal.KeyDown` | script.js:509-517 | Escape closes a shown modal; nothing else changes anything |
| `QuoteForm.QuoteModal.ShowSuccessMessage` | script.js:302-308 | the success view replaces the form view |
| `QuoteForm.QuoteModal.Submit` | script.js:226-277 | an invalid form sends nothing, leaves the button untouched and focuses the first flagged control; either way every required control's flag and error text mirror its verdict and the others keep theirs, until the `blur` that the focus change fires (see Left out); a valid form sets the button to 'Sending...', disables it, keeps its original text and sends the payload (simulated on a development host) |
| `QuoteForm.QuoteModal.CompleteSimulated` | script.js:259-269 | on a development host the success view is shown and the button gets back its text and is enabled again |
| `QuoteForm.QuoteModal.CompleteResponse` | script.js:278-299 | the success view replaces the form only when `response.ok` (status 200 to 299); any other outcome alerts and leaves the views as they were; either way the button gets back its original text and is enabled |
| `QuoteForm.QuoteModal.ApplyServiceParam` | script.js:608-631 | a non-empty `service` value opens the modal and, when the select exists and the value is known, preselects its label; all `error` classes are dropped and every error element is emptied; an absent or empty value changes nothing |
| `Testimonials.Carousel.constructor` | script.js:13-15 | the page starts at testimonial index 0, with the `active` classes as the markup sets them on two distinct lists |
| `Testimonials.SelectionActive` | script.js:24-42 | the active set is `{i}` when `i` is in range and empty otherwise, so at most one element is active |
| `Testimonials.StepInRange` | script.js:44-52 | with at least one testimonial, one step of ±1 from an index in range stays in range; the last steps forward to 0, and 0 steps back to the last |
| `Testimonials.StepsModular` | script.js:17-21 | `k` calls of `changeTestimonial(d)` from index `i` land on `(i + d·k) mod n`, so repeated advancing cycles through every testimonial |
| `Testimonials.Carousel.ShowTestimonial` | script.js:24-42 | every testimonial and dot is deactivated, then testimonial `i` and dot `i` are activated where they exist |
| `Testimonials.Carousel.ChangeTestimonial` | script.js:44-54 | the index moves by `direction` and wraps at both ends; the new index is then shown |
| `Testimonials.Carousel.CurrentTestimonial` | script.js:65-67 | the index becomes the one-based argument minus one, with no range check, and is shown |
| `ScrollDepth.Tracker.constructor` | script.js:397-399 | tracking starts with `maxScroll` 0 and no tracked threshold, which already satisfies the invariant that the tracked thresholds are those up to `maxScroll` |
| `ScrollDepth.UpToMembers` | script.js:398-411 | a threshold is tracked at depth `m` exactly when it is one of 25, 50, 75 and 100 and no greater than `m` |
| `ScrollDepth.CrossedMembers` | script.js:409-411 | a scroll from depth `lo` to `hi` reports exactly the thresholds `t` with `lo < t <= hi` |
| `ScrollDepth.UpToIncreasing` | script.js:398-411 | the tracked thresholds are strictly increasing |
| `ScrollDepth.UpToThenCrossed` | script.js:406-421 | what is tracked at the old maximum, followed by what the new maximum crosses, is what is tracked at the new maximum |
| `ScrollDepth.TrackedDistinct` | script.js:397-422 | no threshold is ever tracked, and so reported, twice |
| `ScrollDepth.Tracker.OnScroll` | script.js:401-422 | `maxScroll` only grows; the reported thresholds are those the new maximum crosses, in order; they are appended to `trackedThresholds`, which stays equal to the thresholds up to `maxScroll` |
| `RateLimit.AtMostOncePerWindow` | script.js:495-506 | with no timer expiry in between, a throttled handler that returns runs at most once, and not at all if it starts throttled |
| `RateLimit.RunsBoundedByExpiries` | script.js:495-506 | over any event sequence in which the handler returns, it runs at most once more than the number of timer expiries |
| `RateLimit.ThrowingHandlerNeverThrottled` | script.js:500-503 | a handler that throws runs on every one of `n` calls, with no timer expiry at all, because the flag is set only after it returns |
| `RateLimit.Throttle.Invoke` | script.js:497-504 | a call runs the handler exactly when not throttled; the flag is set afterwards exactly when it was set before or the handler returned |
| `RateLimit.Throttle.constructor` | script.js:496 | the flag starts undefined, which is falsy, so the first call runs the handler |
| `RateLimit.Throttle.Expire` | script.js:503 | the timer clears the throttle |
| `EmergencyHours.BusinessHours` | script.js:635-636 | over the hours 0 to 23, an hour is not after hours exactly when it is from 7 to 18 |
| `EmergencyHours.Page.HandleEmergencyService` | script.js:634-653 | after hours, on a page with a header, one more banner is inserted, its styles are added and the hero is padded if present; otherwise nothing changes |

## Left out

- Smooth scrolling, IntersectionObserver animations, the hero animations, the header's scroll styling and the parallax effect are left out. They are browser layout and floating-point styling.
- `gtag` analytics events are left out. So are web vitals, page-load timing, the global error listener, the service-worker registration, `trackQuoteClick` and `trackFormSubmission`. They are fire-and-forget calls to foreign globals.
- `fetch`, `FormData` and `URLSearchParams` are modelled only as their effects. The payload is a map from names to values. The response is an HTTP status or a network failure. Encoding the body in the application/x-www-form-urlencoded format is not modelled.
- Every control is treated as a named text control with one value. `FormData`'s rules for disabled controls, buttons and unchecked boxes are not modelled.
- `alert` and `console` are left out. The alert after a failed send is modelled only as a boolean result of `CompleteResponse`.
- Timers become explicit events. The focus of the first input 100 ms after opening is left out. The 500 ms delay before the `?service=` preselection is treated as immediate. The eight-second auto-advance is a call of `ChangeTestimonial(1)`. The throttle's expiry is `Throttle.Expire`. The 1000 ms simulated send is `CompleteSimulated`.
- The scroll percentage is an integer input. `Math.round` of the scroll ratio is floating point and is left out. So are the NaN and Infinity it yields on a page that cannot scroll.
- The emergency banner's HTML and CSS are left out. They are static strings.
- `\s` and `trim` use the ECMAScript WhiteSpace and LineTerminator code points. The Unicode category Zs is listed as of current Unicode versions.
- Each control has its own error slot. The `<name>Error` lookup by id is not modelled, so two controls sharing a name cannot share one error element here.
- Only the four own keys of the `serviceMap` literal are modelled. A JavaScript object lookup also finds inherited names such as `constructor`, and that is not modelled.
- Setting the select's value does not check that an option with that label exists.
- Only the submit handler's focus is recorded. Focus from anywhere else is left out.
- QuoteForm.QuoteModal.Submit: on an invalid form, `firstError.focus()` (script.js:233) moves focus away from the control that had it. That fires its `blur` listener (script.js:142-144) and re-validates it inside the submit handler. The model leaves this to a separate `QuoteForm.QuoteModal.Blur` call on that control after `Submit`. Submit's clause that the controls other than the required ones keep their flags and error texts holds only before that call.
- Values are plain integers and strings. Non-integer numbers passed as a testimonial index or direction are not modelled.
- A missing modal, form, success view or submit button is not modelled. Those would throw in the source. The error elements, the service select, the header and the hero may each be absent.
- QuoteForm.QuoteModal.Submit: requires that no submission is in flight. While one is, the submit button is disabled and the browser fires no submit event, so a second overlapping submission is not modelled.
- An exception thrown by a throttled handler is modelled only by the `completes` flag of a call. Its propagation to the scroll listener is not modelled.
- QuoteForm.QuoteModal: one list of controls stands for four DOM queries. These are the `.form-input` elements (the listeners, `clearFormErrors` and the focus query, script.js:138, 220, 231), the `[required]` elements `validateForm` checks (script.js:205), the `.form-error` elements (script.js:219) and the `FormData` entries (script.js:245). The model therefore assumes every required element is a `.form-input` with its own error element. `QuoteForm.InvalidFormHasFlag` and the focus clause of `QuoteForm.QuoteModal.Submit` (`focused.Some?`) rest on that assumption. A required element without the `form-input` class would be flagged by `validateForm` but missed by the focus query, which the source guards with `if (firstError)` at script.js:232. The listeners and `clearFormErrors` would miss it too.
