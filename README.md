# OLMA USA site script: a verified model of its stateful core

The site's only script, `js/main.js`, is mostly event wiring. This project models the parts of it whose behaviour can be stated exactly:

- **Contact form checks** (`contact_form.dfy`, module `ContactForm`). JavaScript's white-space class and `String.prototype.trim` are modelled, and so is the email rule `^[^\s@]+@[^\s@]+\.[^\s@]+$` as a plain string predicate. `EmailRuleIsPattern` proves that predicate equal to a literal reading of the pattern. The submit handler's early-return chain is `Submit`: blank fields are checked first, then the email, then the `YOUR_FORM_ID` placeholder in the form's `action`. `AfterSubmit` gives what the status line and the button show afterwards.
- **Particle network** (`particles.dfy`, module `Particles`):
  - The particle-count rule: 30 below a 768 px viewport, 60 otherwise.
  - `createParticles`, as a loop that builds the array from supplied random draws.
  - One `drawParticles` frame, as `ParticleField.Step`. It moves each particle in place. A coordinate below 0 snaps to exactly the far edge, and one above the edge snaps to exactly 0, so positions stay in `[0, w] x [0, h]`. The frame then returns, in drawing order, the pairs that get a connecting line.
  - The rule for drawing a line and its opacity `(1 - d/120) * 0.3`, as pure functions of the distance `d`.
- **Navigation** (`navigation.dfy`, module `Navigation`):
  - The sticky flag `scrollY > 50`.
  - `updateActiveLink`, in which every section whose `[top, top + height)` contains `scrollY + 100` replaces the active marks, so the last such section wins.
  - The hamburger, link and outside-click handlers. Each keeps `aria-expanded` equal to whether the menu is open.

Some things the code does, and the model with it:

- Every line drawn from particle `i` to a later particle `j` uses `i`'s position after this frame's move, but `j`'s position from before it. This is because `j` has not been moved yet when the pair is compared. `FrameLinksSound` and `FrameLinksComplete` state this.
- The edge handling is a snap to the opposite edge, not a wrap modulo the canvas size. A particle at `x = 99.9` moving by `+0.3` on a 100 px canvas lands at exactly `0`, not at `0.2` (`SnapIsNotModular`). The range is the closed `[0, w]`: a particle below 0 is put at exactly `w`.
- Velocities come out in `[-0.2, 0.2)` and radii in `[1, 3)`, because `Math.random()` is half-open.
- A form without an `action` attribute makes `action.indexOf` throw after the first two checks have passed. This is the outcome `Throws`.

JavaScript numbers are modelled as exact `real`s. Random numbers are inputs (`Draw`, five values in `[0, 1)` per particle). The navigation bar's DOM state and the particle animation's module variables are class fields (`NavBar`, `ParticleField`), with class-list membership as booleans and attributes as strings. The contact form's status line and submit button are a `FormView` value, which the pure `AfterSubmit` computes from the old view and the outcome.

The constructors give the state right after the script's declarations run. The script then does two more things on load, and a client of the model is expected to do them next. It calls `handleScroll()` once (js/main.js:286), which is `NavBar.HandleScroll` with the current `scrollY`. When reduced motion is not requested, it builds the first particles (js/main.js:267-271), which is `ParticleField.CreateParticles`, and starts the frames, each of which is `ParticleField.Step`.

## Model

| member | source | states |
|---|---|---|
| ContactForm.Trim | js/main.js:80-82 | The trimmed field is a contiguous piece of the input with only white space removed at either end. It neither starts nor ends with white space. It is empty exactly when the input is all white space. |
| ContactForm.IsValidEmail | js/main.js:139-141 | An accepted address has at least five characters, contains an `@` and does not start with one. |
| ContactForm.EmailRuleIsPattern | js/main.js:139-141 | `isValidEmail` (no white space, exactly one `@` with something before it, and a later dot that is neither next to the `@` nor last) holds exactly when the string splits into three non-empty `[^\s@]` runs around an `@` and a `.`. |
| ContactForm.EmailOfParts | js/main.js:139-141 | Every `local@host.tld` with non-empty `local`, `host` and `tld` free of white space and `@` is accepted. |
| ContactForm.IndexOfFrom | js/main.js:96 | The search returns the first position at or after `from` where the substring occurs, or -1 when it occurs nowhere there. |
| ContactForm.IndexOfFindsOccurrence | js/main.js:96 | `action.indexOf('YOUR_FORM_ID') !== -1` holds exactly when the placeholder occurs in `action`. |
| ContactForm.Submit | js/main.js:76-103 | The outcome is missing-fields iff some field is all white space. It is bad-email iff no field is blank and the trimmed email fails the rule. It is not-configured iff those pass and `action` contains the placeholder. It is a throw iff those pass and there is no `action`. Only otherwise is it sending, to `action`. |
| ContactForm.SendingPassedEveryCheck | js/main.js:84-103 | A submit that goes on to send has three non-blank trimmed fields, a trimmed email that matches the pattern, and no placeholder anywhere in `action`. |
| ContactForm.StatusMessage | js/main.js:84-98 | Each error outcome has its message, and every message is a non-empty sentence ending in a period. |
| ContactForm.AfterSubmit | js/main.js:84-103 | An error outcome puts its message and the error class on the status line and leaves the button alone. Only a sending outcome disables the button and sets its text to `Sending...`. |
| ContactForm.BlankFieldWins | js/main.js:84-87 | A blank field shows "Please fill in all required fields.", however bad the email or the endpoint. |
| Particles.ParticleCount | js/main.js:172 | The count is 30 exactly when the viewport is narrower than 768, and 60 otherwise. |
| Particles.Spawn | js/main.js:191-197 | A particle built from draws in `[0, 1)` lies in `[0, width) x [0, height)` (at 0 on an axis of zero extent), with velocities in `[-0.2, 0.2)` and radius in `[1, 3)`. |
| Particles.ParticleField.CreateParticles | js/main.js:187-199 | The old array is replaced by exactly `particleCount` particles, the `k`-th built from the `k`-th draw. All lie inside the region when the draws are in `[0, 1)`. |
| Particles.ParticleField.Resize | js/main.js:256-262 | A settled resize recomputes the count from the new viewport width and rebuilds exactly that many particles. |
| Particles.ParticleField.SetHeroVisible | js/main.js:248-250 | The visibility flag takes the observer's `isIntersecting`. |
| Particles.ParticleField.constructor | js/main.js:171-175 | The script starts with no particles, the count for the current viewport, and the hero visible. The first particles come from a separate `CreateParticles` call. |
| Particles.Snap | js/main.js:213-219 | On one axis with a non-negative extent, the new coordinate is in `[0, limit]`: exactly `limit` if the move went below 0, exactly 0 if it went above `limit`, and the plain sum otherwise. |
| Particles.Advance | js/main.js:211-219 | A frame changes only a particle's position: velocity and radius are kept. On a canvas of non-negative size the position ends inside `[0, w] x [0, h]`, wherever it started. |
| Particles.AdvanceAll | js/main.js:211-219 | Every particle is advanced on its own. Each keeps its velocity and radius, and on a canvas of non-negative size each ends inside `[0, w] x [0, h]`. |
| Particles.Move | js/main.js:212-219 | The position update inside the outer loop, with its four edge tests in source order, yields exactly the advanced particle. |
| Particles.SnapIsNotModular | js/main.js:216-217 | Overshooting the right edge by 0.2 lands at exactly 0, not at 0.2. |
| Particles.RowLinks | js/main.js:226-240 | The lines drawn from particle `i` all start at `i` and end at a later particle before the bound. They come in increasing order of the later particle. |
| Particles.FrameLinks | js/main.js:211-241 | The lines of a frame's first `n` particles join pairs `i < j` with `i < n`. They come in drawing order: by `i`, then by `j`. |
| Particles.ConnectRow | js/main.js:226-240 | The inner loop records exactly the row's links: one line to each later particle nearer than 120, in index order. |
| Particles.ParticleField.Step | js/main.js:201-244 | While the hero is hidden, nothing changes and nothing is drawn. Otherwise every particle is advanced in place, so the new array is `AdvanceAll` of the old one. The returned lines are exactly the frame's links, from moved `i` to not-yet-moved `j`. |
| Particles.FrameLinksSound | js/main.js:211-231 | Every drawn line joins a pair `i < j` that is nearer than 120. It runs from `i`'s moved position to `j`'s position before the frame. |
| Particles.FrameLinksComplete | js/main.js:226-231 | Every pair `i < j` nearer than 120, with `i` moved and `j` not yet moved, gets its line. |
| Particles.ConnectedIffNear | js/main.js:228-231 | For the non-negative square root `d` of the squared distance, `d < 120` holds exactly when the squared distance is below `120^2`. |
| Particles.Opacity | js/main.js:231-236 | A drawn line's opacity lies in `(0, 0.3]` and is 0.3 at distance 0. |
| Particles.OpacityDecreasing | js/main.js:232-236 | The opacity strictly decreases as the distance grows. |
| Particles.OpacityAtHalfDistance | js/main.js:231-236 | Particles 60 apart are connected, at opacity 0.15. |
| Navigation.MarksFor | js/main.js:64-70 | One covering section leaves a mark for every link, and marks only links whose href is `'#'` plus its id. Some link is marked exactly when such a link exists. |
| Navigation.ActiveAfter | js/main.js:59-72 | After the sweep there is a mark for every link, and the marks are either unchanged or those of some section that covers the probe. |
| Navigation.LastCovering | js/main.js:59-64 | Finds the last section whose `[top, top + height)` contains the probe point, or -1 when there is none. |
| Navigation.ActiveAfterLastCovering | js/main.js:55-73 | After the sweep, the active marks are those of the last covering section, or unchanged when no section covers the probe. |
| Navigation.ActiveLinksPointAtSection | js/main.js:64-70 | When a section covers the probe, a link is active afterwards iff its href is `'#'` plus the id of the last covering section. |
| Navigation.NoCoveringKeepsMarks | js/main.js:59-72 | With no covering section, the active marks are unchanged. |
| Navigation.NavBar.UpdateActiveLink | js/main.js:55-73 | The nested loops leave exactly the marks of the section-by-section replacement at `scrollY + 100`. |
| Navigation.NavBar.HandleScroll | js/main.js:18-25 | The sticky flag becomes `scrollY > 50`, and then the active links are updated. |
| Navigation.NavBar.ToggleMenu | js/main.js:30-34 | The hamburger click flips the menu and hamburger classes. `aria-expanded` becomes the menu's new state. |
| Navigation.NavBar.LinkClicked | js/main.js:37-43 | A link click closes the menu, and `aria-expanded` becomes "false". |
| Navigation.NavBar.DocumentClicked | js/main.js:46-52 | A click outside the nav closes an open menu. Any other click changes nothing. `aria-expanded` stays in step with the menu. |
| Navigation.NavBar.constructor | js/main.js:9-12 | Starts from the markup's initial state: not scrolled (no `nav--scrolled`), menu closed, `aria-expanded="false"`, no link active. The load-time `handleScroll()` is a separate `HandleScroll` call. |

## Left out

- The `fetch` submission, the server's reply and error-list joining, and the promise chain (js/main.js:105-131). These are network I/O and asynchronous plumbing. `AfterSubmit` stops where the request would be sent.
- Canvas drawing and sizing: `resizeCanvas`, `clearRect`, `arc`, `stroke` and the device-pixel ratio (js/main.js:177-185, 209, 221-238). The frame takes the logical canvas size `w x h` as input. The browser's integer truncation of `canvas.width` is not modelled, and neither is the text formatting of the opacity in the `rgba(...)` string.
- `Math.random()` and `Math.sqrt()`. Random values are inputs. Distances are handled through their squares or given as an input `d`.
- Particles.ConnectRow: tests `dx*dx + dy*dy < 120^2` instead of `sqrt(dx*dx + dy*dy) < 120`. `ConnectedIffNear` proves the two agree for exact reals. Rounding of doubles near the boundary is not captured.
- Floating-point rounding, `NaN` and infinities throughout: numbers are exact reals.
- Frame scheduling with `requestAnimationFrame`, the 200 ms resize debounce, the wiring of the `IntersectionObserver`, and the reduced-motion query that starts and stops the loop (js/main.js:203, 243, 246-282). These are event-loop scheduling. Only what their callbacks do to the state is modelled: `SetHeroVisible`, `Resize` and `CreateParticles`.
- The fade-in reveal (js/main.js:143-163): it only adds a class, with no logic.
- `nav.contains(e.target)` is a boolean input to `DocumentClicked`. The page markup (index.html) is not part of this model, so neither is which click reaches which handler through event bubbling.
- Navigation.NavBar.constructor: assumes the markup starts without `nav--scrolled`, with the menu closed, `aria-expanded="false"` and no active link, because index.html is not part of this model. The load-time `handleScroll()` (js/main.js:286) is not part of the constructor: a client calls `HandleScroll` next.
- Particles.ParticleField.constructor: does not build the first particles or start the frames (js/main.js:267-271). A client calls `CreateParticles` and then `Step` once per frame, and none of this happens when reduced motion is requested.
- The email rule works on Dafny characters (Unicode scalar values), not on UTF-16 code units. Every white-space character is a single code unit, so the rule's outcome is the same.
