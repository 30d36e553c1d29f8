# Valentine's card: the rose click progress and the "No" button, in Dafny

The page has two interactive widgets with discrete rules under their rendering.

- **The 3D rose** (`rose3d.js`, class `Rose3D`) has three coloured petals. Clicking a petal
  reveals that petal's plan, inserts its card into the plan list in chronological order and
  starts a fall animation. After the three petals, the rose body itself becomes clickable; that
  fourth click ends the sequence. A per-frame update removes the fall animations that have
  finished.
- **The "No" button** (`script.js`) counts its clicks. It shows a message chosen by the count,
  shrinks from 5 clicks on and fades from 10 on. The page-load handler re-initialises the rose
  when the stored answer is exactly `"true"` and the plan page is showing.

The model has four modules:

- `Common` (`common.dfy`) holds `Option`.
- `RoseModel` (`rose_model.dfy`) states the rose on values. `RoseState` holds every field the
  click logic touches. There is one step function per event (`PetalClick`, `MouseClick`,
  `FourthClick`, `MouseMove`, `InitStep`, `DisposeStep`, `ModelLoaded`, `PruneAnimations`), plus
  the card insertion (`FirstGreater`, `OrderedInsert`) and the pruning (`Remaining`). The
  invariant `Valid` says:
  - petal `i` carries plan `i`;
  - a petal is clickable exactly when it is unclicked;
  - `clickCount` is the number of clicked petals, plus one once the rose is clicked;
  - the revealed plans are the clicked petals' plans, each once;
  - the cards are those plans in index order;
  - every running animation belongs to a clicked petal.

  The lemmas prove that every event's step keeps `Valid`. `ModelLoaded` keeps it on an object
  without petals. `FourthClick` keeps it at count 3 on a loaded rose, the branch of `PetalClick`
  that takes it. The lemmas also prove the properties listed in the table below.
- `Rose` (`rose3d.dfy`) is the class `Rose3D`. Its fields are updated in place and each
  handler is a method. The JavaScript object keeps some of this state elsewhere: each petal's
  flags live in its mesh's `userData`, and the cards are the container's DOM children. The
  fields `roseLoaded` and `roseClicked` stand for "`roseMesh` is set" and its
  `userData.clicked`. The model gathers all of these as plain fields of the one object. Every method is proved to take the
  corresponding `RoseModel` step (`State() == Step(old(State()), …)`). Every event handler
  except `OnPetalClick` is also proved to keep `Valid`. For `OnPetalClick`, which
  `OnMouseClick` calls, the lemma `PetalClickKeepsValid` states that. The
  insertion loop of `revealPlan` (`for` with `break` and an `inserted` flag) is kept as a loop.
  So is the backward splice loop of `updateAnimations`.
- `Proposal` (`proposal.dfy`) covers `script.js`:
  - the class `NoButton`, whose `OnClick` is the click handler;
  - the message index and the shrink factor;
  - `LookAfter`, a closed form for what the button shows after `n` clicks;
  - the saved-answer check.

The ray cast is abstracted. A click or pointer move arrives as the first object the ray meets
among the candidates, or `None`. The candidates are every petal in `clickablePetals`, clicked or not,
plus the rose body only while `clickCount` is 3. A clicked petal in front therefore takes the
click, and the click is then ignored. A petal is named by its position in `clickablePetals`. `Date.now()`
arrives as an integer parameter `now`. Whether the page has the rose canvas and the card
container is fixed when the object is constructed.

The "No" counter itself is not capped. Only the message index derived from it is capped. The
counter has no guard and keeps growing after the button fades, and the model keeps that
behaviour.

## Model

| member | source | states |
|---|---|---|
| `RoseModel.FirstGreater` | rose3d.js:545-552 | The insertion position: every card before it has an index no greater than the new card's, and the card at it (if there is one) has a strictly greater index. |
| `RoseModel.OrderedInsertPosition` | rose3d.js:541-556 | Inserting the card equals splitting the container at any position with that property and putting the card there; the other cards keep their order. |
| `RoseModel.OrderedInsertKeepsSorted` | rose3d.js:541-556 | A container sorted by plan index stays sorted after the insertion. |
| `RoseModel.OrderedInsertAddsOne` | rose3d.js:541-556 | The container afterwards holds the old cards plus exactly the new one (as a multiset). |
| `Rose.Rose3D.RevealPlan` | rose3d.js:522-556 | Appends the plan to `revealedPlans`. With a container, the scanning loop leaves the cards equal to `OrderedInsert` of the old cards; without one it leaves them unchanged. Nothing else changes. |
| `RoseModel.ProgressReachesOne` | rose3d.js:589-610 | `min(elapsed / duration, 1)` is at most 1. It reaches 1 exactly when the elapsed milliseconds reach the duration. |
| `RoseModel.RemainingCount` | rose3d.js:587-613 | Pruning drops every finished entry. Every unfinished entry keeps its multiplicity. |
| `RoseModel.RemainingAppend` | rose3d.js:587-613 | Pruning distributes over concatenation, so the surviving entries keep their original relative order. |
| `Rose.Rose3D.RemoveFinished` | rose3d.js:587-613 | The backward walk that splices out each entry whose progress reached 1 leaves exactly `Remaining(old animations, now)`. |
| `Rose.Rose3D.UpdateAnimations` | rose3d.js:584-615 | The frame update changes only the animation list, to the unfinished entries, and keeps `Valid`. |
| `RoseModel.PruneKeepsValid` | rose3d.js:584-615 | Pruning keeps `Valid`. An entry survives exactly when it was present and not finished. |
| `RoseModel.ClickedTargetIgnored` | rose3d.js:375-387 | A petal click or mouse click on an object already marked clicked leaves the whole state unchanged. |
| `RoseModel.InvalidPlanIndexIgnored` | rose3d.js:395-400 | Outside the fourth-click case, a hit whose plan index is missing or at least 3 leaves the whole state unchanged. |
| `RoseModel.PetalClickEffect` | rose3d.js:402-420 | In a valid state, a click on unclicked petal `k` does all of this: marks it clicked and not clickable, leaves the other petals unchanged, adds 1 to the count, adds `k` to the clicked set, appends exactly `PetalPlans[k]`, inserts card `k` in order, starts one 2500 ms fall, clears the hover only if it was that petal, and leaves the rose flags unchanged. |
| `RoseModel.RoseClickAtThree` | rose3d.js:389-393 | In a valid state at count 3 with the rose loaded, a mouse click on the rose body sets the count to 4 and marks the rose clicked. Nothing else changes. |
| `RoseModel.RoseClickOnlyAtThree` | rose3d.js:365-393 | A mouse click that newly marks the rose clicked started at count 3. It ends at count 4 and reveals no plan and no card. A direct rose click at any other count changes nothing. |
| `RoseModel.ClickCountBounds` | rose3d.js:403-411 | In every valid state `clickCount` is in 0..4 and equals 4 exactly when the rose is clicked. At most three plans are revealed, with distinct indices. |
| `RoseModel.FourthClickKeepsValid` | rose3d.js:472-507 | In a valid state at count 3 with the rose loaded, the fourth click keeps `Valid`. |
| `RoseModel.PetalClickKeepsValid` | rose3d.js:383-420 | Resolving a click on any existing object keeps `Valid`. |
| `RoseModel.ResolvedPetalKeepsValid` | rose3d.js:402-420 | In a valid state the plan index of unclicked petal `k` is `k`, and resolving the petal keeps `Valid`. |
| `RoseModel.ClickedSetAfterClick` | rose3d.js:403-408 | Marking an unclicked petal clicked adds exactly its position to the clicked set, so the set grows by one, in step with the `clickCount++`. |
| `RoseModel.ClickedSetSize` | rose3d.js:403-408 | There are never more clicked petals than petals, fewer when some petal is unclicked, and exactly as many when all are clicked. |
| `RoseModel.ClickedSetWithin` | rose3d.js:389-408 | With at most three petals, at most three are clicked. Three clicked means there are exactly three petals and all are clicked. |
| `RoseModel.PetalsAfterClick` | rose3d.js:403-404 | After a petal is marked, every petal still carries its own plan index and is clickable exactly when unclicked. |
| `RoseModel.PlansAfterClick` | rose3d.js:403-411 | Appending the clicked petal's plan keeps the revealed plans equal to the clicked petals' plans, each once. |
| `RoseModel.CardsAfterClick` | rose3d.js:522-556 | Inserting the new plan's card keeps the cards sorted and equal, as a multiset, to the revealed plans' indices. Without a container there are still no cards. |
| `RoseModel.AnimationsAfterClick` | rose3d.js:413-414 | The new fall belongs to the petal just marked clicked, so every animation still belongs to a clicked petal. |
| `RoseModel.MouseClickKeepsValid` | rose3d.js:357-381 | A mouse click with any candidate hit, or none, keeps `Valid`. |
| `RoseModel.MouseClickCountStep` | rose3d.js:403-482 | A mouse click leaves the count unchanged or raises it by exactly 1. |
| `RoseModel.FourIsAbsorbing` | rose3d.js:472-506 | At count 4, no petal click and no mouse click changes anything. |
| `RoseModel.AllCardsInOrder` | rose3d.js:541-556 | Once all three plans are revealed (count at least 3), the cards read 0, 1, 2. |
| `RoseModel.HoverKeepsValid` | rose3d.js:334-350 | Remembering any existing object, or none, as hovered keeps `Valid`. |
| `RoseModel.MouseMoveKeepsValid` | rose3d.js:309-354 | Hover tracking keeps `Valid`. It remembers a selectable hit. When the ray meets nothing it forgets an unclicked hovered object. It changes nothing except the hovered object. |
| `RoseModel.InitDisposeFlags` | rose3d.js:59-83 | `init` is a no-op while initialised and idempotent. It sets the flag only when the canvas exists. After `dispose` the flag is false. Neither touches the click state, and both keep `Valid`. |
| `RoseModel.ModelLoadedKeepsValid` | rose3d.js:204-288 | Loading the model into an object with no petals yields three unclicked petals at count 0 and keeps `Valid`. |
| `RoseModel.InitialValid` | rose3d.js:39-57 | A freshly constructed object is valid. |
| `Rose.Rose3D.constructor` | rose3d.js:39-57 | The fields start empty: no petals, count 0, nothing revealed, not initialised. |
| `Rose.Rose3D.Init` | rose3d.js:59-83 | Takes the `InitStep` step and keeps `Valid`. |
| `Rose.Rose3D.Dispose` | rose3d.js:642-651 | Takes the `DisposeStep` step and keeps `Valid`. |
| `Rose.Rose3D.OnModelLoaded` | rose3d.js:166-209 | Remembers the rose body when the model has one, appends the petals, and keeps `Valid`. |
| `Rose.Rose3D.CreateClickablePetals` | rose3d.js:226-288 | The loop appends exactly three petals. Petal `i` carries plan index `i`, is clickable and is unclicked. |
| `Rose.Rose3D.OnMouseMove` | rose3d.js:302-355 | Takes the `MouseMove` step and keeps `Valid`. |
| `Rose.Rose3D.OnMouseClick` | rose3d.js:357-381 | Takes the `MouseClick` step and keeps `Valid`. |
| `Rose.Rose3D.OnPetalClick` | rose3d.js:383-420 | Takes the `PetalClick` step: already clicked, the fourth click, an invalid plan index, or the resolution of the petal. |
| `Rose.Rose3D.OnFourthClick` | rose3d.js:472-507 | Sets the count to 4 and marks the rose clicked. |
| `Rose.Rose3D.AnimatePetalFall` | rose3d.js:564-582 | Appends exactly one 2500 ms animation for the petal, starting at `now`. |
| `Proposal.TextIndex` | script.js:42-43 | The message index is always valid. It equals the count while the count is below 11, and it stays at the last message from 11 clicks on. |
| `Proposal.ShrinkFactor` | script.js:46-49 | The scale factor lies between 0.5 and 1. |
| `Proposal.ShrinkNonIncreasing` | script.js:46-49 | From 5 clicks on, the factor never increases. |
| `Proposal.ShrinkFloor` | script.js:46-49 | The factor is 1 at 5 clicks. It equals 0.5 exactly from 15 clicks on. |
| `Proposal.ShrinkStrictlyDecreasing` | script.js:46-49 | Between 5 and 15 clicks, more clicks give a strictly smaller factor. |
| `Proposal.ReplayIsLookAfter` | script.js:37-62 | Running the handler `n` times from the initial button gives the closed form `LookAfter(n)`, so the display depends only on the count. |
| `Proposal.LookThresholds` | script.js:41-61 | After `n` clicks: a scale is set exactly when `n >= 5`, and it lies in [0.5, 1]. Opacity is `'0.3'` and the cursor is `'not-allowed'` exactly when `n >= 10`. The text is the last message exactly when `n >= 11`. |
| `Proposal.NoButton.constructor` | script.js:20-34 | The counter starts at 0 and the button shows the first message with no style set. |
| `Proposal.NoButton.OnClick` | script.js:37-62 | Every click adds exactly 1 to the counter, with no guard. It updates text, scale, opacity and cursor by the thresholds, and it keeps the button equal to `LookAfter(count)`. |
| `Proposal.ReinitOnlyAfterYes` | script.js:102-116 | After the "Yes" handler's write, a reload re-initialises the rose exactly when the plan page is active. Any stored value other than exactly `"true"`, or no stored value, does not re-initialise it. |

## Left out

- Three.js scene, camera, lights, renderer, orbit controls, window resize and rendering: foreign library calls. `requestAnimationFrame` scheduling is reduced to calls of `UpdateAnimations` with the current time.
- Fetching the OBJ model over the network: I/O. The load result is the parameter `roseFound` (whether a mesh named "rose" exists). The loader's own callback and the loading manager's completion callback are combined into one event, in that order.
- Raycasting geometry and mouse coordinates: the hit is a parameter restricted to the candidates.
- Petal geometry, colours, positions and hover scale/glow: floating-point graphics. So are the fall trajectory, rotation, opacity and the removal from the scene.
- The rose glow `setInterval` oscillation: float stepping on a timer with no effect on the click logic.
- DOM side effects: the counter text, the subtitle changes at count 3, the audio element, scrolling, card HTML and its fade-in timeout, the loading screen, the "shrinking" CSS class and its timeout, and console logging.
- The card container is assumed to start empty and to receive only plan cards, so every child has a numeric `data-plan-index`.
- `Rose.Rose3D.OnModelLoaded`: requires that no petals exist yet, i.e. one model load per object. In the code, `dispose` followed by `init` loads the model again. That load appends three more petals. When the new model has a rose mesh, `roseMesh` becomes that fresh mesh, whose clicked flag is unset. Meanwhile `clickCount` and `revealedPlans` are kept. So the invariant and the 0..4 bound are proved for a single load only. Re-registering event listeners on a second `init` is not modelled either.
- `Plan`: keeps only `index`, `time` and `title`. The `emoji`, `info` and `detail` fields of the plan table only fill the card's HTML, and they are left out with the rest of the DOM.
- Petal identity: petals are values in `clickablePetals`, and `hoveredPetal` names a petal by its position. Aliasing between mesh objects is not modelled.
- `planIndex` is a natural number or absent. A negative index cannot arise because petals get 0, 1 and 2, and it is not modelled.
- Animation durations are positive (always 2500 ms), so the NaN/Infinity cases of dividing by a zero duration are not modelled.
- `Proposal.ShrinkFactor`: computed in exact reals. JavaScript's double rounding of `(n - 5) * 0.05` is not modelled, and neither are the exact decimal digits the `scale(…)` string would show.
- `Proposal.NoButton.constructor`: the button's initial text comes from the page's HTML, which is not part of this model. It is assumed to be the first message, "No".
- `localStorage` access and the clock: storage is a map, and the ISO date of the "Yes" handler is a parameter. The "Yes" handler's page switch, confetti, and the `initRose` polling with `setTimeout` are left out.
- All of confetti.js: random initialisation, float physics and canvas drawing.
