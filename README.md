# Portfolio page behaviour, modelled in Dafny

A model of the logic inside `portfolio.js`, the script of a personal
portfolio page. The script is mostly browser plumbing. Four pieces of it
have exact behaviour, and those pieces are modelled and proved here:

- **Email validator** (`email.dfy`, module `Email`). `isValidEmail` tests the
  regular expression `^[^\s@]+@[^\s@]+\.[^\s@]+$`. It is modelled as a
  deterministic automaton over the characters (`Next`, `Run`,
  `IsValidEmail`). Its meaning is stated separately as a split around one
  `@` (`IsEmailShape`). The lemma `ValidIffShape` proves that the two agree
  on every string. `\s` is the ECMAScript set of white-space and
  line-terminator code points.
- **Contact form** (`contact_form.dfy`, module `Contact`). The submit handler
  first checks for empty fields, then checks the address. A submission that
  passes both goes through two phases. `Begin` sets the button to
  "Sending..." and disables it. When the simulated send fires, `Complete`
  resets the fields and restores the button. These are functions on a
  `Form` record. The success notice is shown by `ContactForm.OnSendComplete`. The class `ContactForm`
  keeps the same state in fields, plus the notices shown so far and the
  number of sends not yet completed. Its methods are proved against those
  functions.
- **Typewriter** (`typewriter.dfy`, module `Typing`). The class `Typewriter`
  holds the name, the title text and the index `i`. `Step` is one firing of
  the self-rescheduling callback. Its invariant is `text == name[..i]`, and
  the text is also tied to `Typed(name, steps)`, the text after a given
  number of firings.
- **Navigation** (`navigation.dfy`, module `Navigation`). State: the two
  `active` flags, the body's overflow style and the bar's `scrolled` flag.
  The three handlers are functions on a `NavState` record (`Toggled`,
  `Clicked`, `Scrolled`) and methods of the class `NavBar`.
  `ScrollDestination` computes where a link click scrolls to.

## Notes on the code

- The navigation initialiser checks only the bar, the menu button and the menu for presence, not the links (portfolio.js:37).
- A counter whose starting number is already at or above its target shows the target at once (portfolio.js:201-202). This covers an `<h3>150+</h3>` with no `data-target`, where `target` and `count` both come from the element text (portfolio.js:194-195). A counter that starts below its target stalls, because `count` never changes (portfolio.js:195). Its display stays at `ceil(count + target/200)` (for a `data-target` of 150 starting from "0+" that is "1+"), and `updateCount` reschedules itself every 1 ms forever. Counters are not modelled; see below.

## Model

| member | source | states |
|---|---|---|
| `Email.Next` | portfolio.js:217 | One character of the expression's automaton: an atom (not whitespace, not `@`) extends the local part or the domain, `@` ends the local part, `.` inside the domain marks a dot, anything else leads to `Dead`. Its meaning is proved by the per-state lemmas that `ValidIffShape` builds on. |
| `Email.Run` | portfolio.js:217 | The state reached after reading a string one character at a time from a given state. `DeadRun` proves that nothing leaves `Dead`, and `ValidIffShape` proves what a run from `Start` accepts. |
| `Email.IsValidEmail` | portfolio.js:216-218 | The run from `Start` ends in `Accept`, which stands for the anchored expression matching the whole string. `ValidIffShape` proves it equal to `IsEmailShape`. `ExactlyOneAt`, `WhitespaceRejected` and `Examples` give its consequences. |
| `Email.ValidIffShape` | portfolio.js:216-218 | The validator accepts a string exactly when it has an `@` at an index `at > 0` such that the part before it and the part after it hold no whitespace and no `@`, and the part after it has a `.` with a character on each side. |
| `Email.SplitForm` | portfolio.js:216-218 | `local + "@" + domain` is accepted iff `local` is non-empty, neither part holds whitespace or `@`, and `domain` has a `.` at an index `k` with `0 < k < |domain|-1`. |
| `Email.ExactlyOneAt` | portfolio.js:217 | An accepted string holds exactly one `@`, so strings with none or with several are rejected. |
| `Email.WhitespaceRejected` | portfolio.js:217 | A string with a whitespace character at any position is rejected. |
| `Email.Examples` | portfolio.js:217 | `"a@b.co"` is accepted. `""`, `"a@b"`, `"a.com"` and `"a@ b.com"` are rejected. |
| `Contact.Decide` | portfolio.js:146-153 | The submission is refused as incomplete iff some field is empty. It is refused for its address iff all fields are filled and the address lacks the `local@domain.tld` shape. Otherwise it is sent: name and message non-empty and the address of that shape. |
| `Contact.Rejection` | portfolio.js:146-153 | Every refusal is reported with an error notice. |
| `Contact.Begin` | portfolio.js:146-157 | The synchronous part of the handler: a refused submission leaves the form as it was, and an accepted one sets the button to "Sending..." and disables it, keeping the fields. `EmptyFieldRejected`, `BadEmailRejected`, `AcceptedThenReset` and `PhasesKeepCoherent` prove this. |
| `Contact.Complete` | portfolio.js:161-163 | The timeout body's state change: the fields are emptied, the label returns to "Send Message" and the button is enabled. `AcceptedThenReset`, `ResubmitAfterResetRejected` and `PhasesKeepCoherent` give its properties. |
| `Contact.EmptyFieldRejected` | portfolio.js:146-149 | With any field empty, the outcome is the "Please fill in all fields" error whatever the address. The form and button are unchanged. |
| `Contact.BadEmailRejected` | portfolio.js:150-153 | With all fields filled and an address the validator refuses, the outcome is the "Please enter a valid email address" error. The form and button are unchanged. |
| `Contact.AcceptedThenReset` | portfolio.js:155-164 | Valid input is sent. The pending state shows "Sending..." with the button disabled and the fields kept. Completion then leaves empty fields, the label "Send Message" and the button enabled. |
| `Contact.ResubmitAfterResetRejected` | portfolio.js:146-161 | Once the form has been reset, submitting again without typing is refused as incomplete. |
| `Contact.PhasesKeepCoherent` | portfolio.js:155-163 | Both phases keep the button disabled exactly while it shows "Sending...", and its label is always one of the two labels. |
| `Contact.ContactForm.constructor` | portfolio.js:130-137 | The assumed starting state that the handler runs from: the fields as typed, the label "Send Message", the button enabled, nothing pending and no notices. The script sets none of the button state at load; it comes from the markup. |
| `Contact.ContactForm.Submit` | portfolio.js:138-158 | Returns the handler's decision on the current fields. The new state is `Begin` of the old one. A refusal appends its error notice and schedules nothing. A send schedules one completion and shows no notice. Button coherence is kept. |
| `Contact.ContactForm.OnSendComplete` | portfolio.js:159-164 | Requires a scheduled send. Appends the success notice, resets the fields, restores the button and removes that send from the pending count. |
| `Typing.Typed` | portfolio.js:179-185 | After `k` firings the title is `name[..min(k, |name|)]`. |
| `Typing.TypedAppends` | portfolio.js:180-182 | While characters remain, a firing appends exactly `name[k]`. |
| `Typing.TypedStable` | portfolio.js:180 | From `|name|` firings on, the title is the whole name and further firings change nothing. |
| `Typing.HeroNameTakesThirteen` | portfolio.js:175 | The page's name has 13 characters. It is complete after exactly 13 firings and not before. |
| `Typing.Typewriter.constructor` | portfolio.js:175-177 | The title starts empty, with `i == 0` and the name fixed to the page's name. |
| `Typing.Typewriter.Step` | portfolio.js:179-185 | When `i < |name|`: appends `name[i]`, increments `i` and reschedules. Otherwise it changes nothing and does not reschedule. It keeps `i <= |name|` and `text == name[..i]`. |
| `Typing.Typewriter.RunToEnd` | portfolio.js:183-186 | The chain of firings ends with `text == name` and `i == |name|`. It fires once per remaining character plus one final firing that does nothing. |
| `Typing.TypeHeroName` | portfolio.js:168-186 | From page load, the typewriter ends with the title reading the page's name in full, after 14 firings: 13 characters and the firing that stops. |
| `Navigation.ScrollDestination` | portfolio.js:56-61 | The window scrolls only when the link's target section exists. It scrolls to `offsetTop - 70`. |
| `Navigation.Toggled` | portfolio.js:44-46 | The menu button's handler: both `active` flags flip, and the overflow becomes hidden when the menu is now active, else visible. `ToggleFlips` and `HandlersKeepSynced` prove its properties. |
| `Navigation.Clicked` | portfolio.js:53-55 | A link click's state change: both `active` flags cleared, overflow visible. `ClickCloses` and `HandlersKeepSynced` prove its properties. |
| `Navigation.Scrolled` | portfolio.js:66-68 | The scroll handler: `scrolled` is set iff the position exceeds 50, and nothing else changes. `ScrollDependsOnlyOnPosition` proves this. |
| `Navigation.ToggleFlips` | portfolio.js:42-47 | A toggle flips both `active` flags. Afterwards the overflow is hidden iff the menu is active, and visible otherwise. Two toggles restore the flags. |
| `Navigation.ClickCloses` | portfolio.js:53-55 | A link click clears both flags and makes the overflow visible, whatever the state before. Clicking twice equals clicking once. |
| `Navigation.HandlersKeepSynced` | portfolio.js:42-55 | Toggle and link click both keep the two `active` flags equal. They also keep "overflow hidden iff menu open". |
| `Navigation.ScrollDependsOnlyOnPosition` | portfolio.js:65-69 | After a scroll, `scrolled` holds iff the position exceeds 50. It depends only on the current position and changes nothing else. |
| `Navigation.NavBar.constructor` | portfolio.js:30-40 | The assumed starting state before any handler fires: menu closed, overflow not set, not scrolled. The script sets none of this at load; the flags come from the markup. |
| `Navigation.NavBar.ToggleMenu` | portfolio.js:42-47 | The new state is `Toggled` of the old one, and menu consistency is preserved. |
| `Navigation.NavBar.LinkClick` | portfolio.js:50-62 | The new state is `Clicked` of the old one and is menu-consistent. The returned destination is `ScrollDestination` of the target's offset. |
| `Navigation.NavBar.OnScroll` | portfolio.js:65-69 | The new state is `Scrolled` of the old one: `scrolled` iff the position exceeds 50. |

## Left out

- DOM lookups, listener registration and `FormData` extraction (portfolio.js:32-35, 141-144). These are host plumbing, so field values, section offsets and scroll positions are parameters or fields instead.
- Missing-element early returns (portfolio.js:37-40, 133-136, 171-174). The model covers only the case where the markup is present.
- A field missing from the form, where `FormData.get` returns `null`, is part of the markup contract and is not modelled.
- Timer delays: the 500 ms loader, the 2000 ms simulated send, the 1500 ms and 100 ms typewriter pacing, and the 3000 ms notification lifetime. Only the order of events is kept: `Submit` then `OnSendComplete`, and successive `Step` firings.
- The scroll reveal, skill bars and counter triggering (portfolio.js:72-85, 112-128, 205-212). They depend on visibility callbacks from the browser.
- The counter animation (portfolio.js:189-204). It uses floating-point division and `Math.ceil`. As written, `count` is a constant, so the display never moves past its first step. No convergence property exists to model.
- `initAnimations` class tagging and transition-delay strings (portfolio.js:87-110). These are static DOM annotation and float formatting.
- `showNotification`'s element creation, styling and timed removal (portfolio.js:221-239). A notice is only recorded in `ContactForm.notices`.
- Also left out: the loader and `no-js` handling (portfolio.js:3-13), the top-level `try/catch` (portfolio.js:17-27), the smooth scrolling behaviour and console logging.
- `this.reset()` restores each field's default value. The model assumes those defaults are empty.
- The browser refuses implicit submission while the submit button is disabled. The handler itself does not check the flag, so `Submit` may also run while a send is pending.
- JavaScript strings are sequences of UTF-16 code units, but the model's `string` holds Unicode scalar values. The validator's character classes give the same verdict either way.
- The `Typewriter` firing against a detached element is not modelled.
- `ContactForm`'s and `NavBar`'s constructors assume that the markup starts with the button labelled "Send Message" and enabled, neither menu element `active`, and the bar not `scrolled`. The script sets none of these at load. `Coherent` ("the label is one of the two labels") relies on this starting state.
