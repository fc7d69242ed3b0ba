# MathBubbles game core, modelled in Dafny

MathBubbles is a browser arcade game. Numbered bubbles rise up a canvas, and the player taps two whose numbers sum to the displayed target. The pair then pops and scores points. This project models the game-state core of `js/game.js` and proves properties of it.

The model has two modules.

**`Bubbles`** (`bubble.dfy`) covers one bubble:
- `BubbleState` is the value of a bubble's fields at one moment.
- Pure rules say how a bubble is spawned (`Spawned`, `SpawnValue`), stepped by one frame (`Stepped`, `Steps`) and hit-tested (`Hits`).
- The `Bubble` class is the object the game mutates in place. Its constructor, `Update` and `IsClicked` correspond to the source's.

**`Game`** (`game.dfy`) covers the session:
- The page's global variables become the fields of the `GameState` class: score, target, the active flag, the bubble list, the selection list, the spawn interval, the last spawn time and the speed factor.
- Its methods are the tap handler, the frame step, the deferred deselection after a wrong pair, `startGame`, `endGame` and `updateTarget`.
- Each method is proved against pure functions on bubble states:
  - `TopHit` is the bubble a tap acts on.
  - `Survivors` and `Surviving` are what remains after a frame.
  - `AnyEscapes` says whether a frame ends the game.
  - `RolledTarget` and `SpawnRateFor` are the random target roll and the spawn interval.
- Lemmas relate these functions to their independent descriptions.

`GameState.Valid()` is kept by every operation. It states:
- the score moves in steps of 20;
- the target stays in [10, 50];
- the spawn interval stays in [800, 1500] ms;
- the live bubbles are distinct, well formed and still visible;
- the selection list holds, once each, exactly the live bubbles that are selected and not popping.

Environment inputs become parameters:
- **Randomness:** every `Math.random()` result is a real in [0, 1).
- **`Math.sin`:** a `real -> real` function.
- **The clock:** the frame time, and `performance.now()` at game start.
- **The canvas size:** its width and height.
- **Tap coordinates:** already relative to the canvas.

Positions, speeds, times and the speed factor are exact reals. Opacity and pop scale are counted in integer tenths, so 10 means 1.0.

### Behaviour to note

- **Hit test:** a tap acts on the topmost bubble, the one with the highest list index, that it hits and that is not popping. A hit means the distance is strictly below the radius. There is no margin and no nearest-centre choice.
- **No timer and no bubble kinds:** the game has no countdown timer, every bubble is a plain numbered bubble, and there is no difficulty mode.
- **Selection size:** the selection is not bounded at two. After a wrong pair, the list is cleared only by the callback 200 ms later. Until then, further taps can push a third bubble or more.
- **Game over:** the game ends in the first frame in which any bubble that is not popping has risen more than its radius above the top edge.
- **Target re-roll:** the target is re-rolled after a match only when the new score is a multiple of 50. Scores move in steps of 20, so this happens every 100 points (`RerollEveryHundred`).

## Model

| member | source | states |
|---|---|---|
| Bubbles.SpawnValue | js/game.js:36 | For a target of at least 2, the number of a new bubble lies in [1, target - 1] |
| Bubbles.EveryValueDrawable | js/game.js:36 | Every number in [1, target - 1] is produced by some random draw, so the range is exact |
| Bubbles.Spawned | js/game.js:31-43 | A new bubble is well formed. Its radius is in [35, 55). It starts one radius below the bottom edge, with a number in [1, target - 1] and a speed in [0.5, 1) times the speed factor. It starts unselected and not popping, at full opacity and scale |
| Bubbles.Stepped | js/game.js:81-91 | One frame of `update`. Radius, number, speed and flags never change, and a well-formed bubble stays well formed |
| Bubbles.PoppingFades | js/game.js:82-86 | Over n frames a popping bubble keeps its position, number and flags, fades by n tenths and grows by n tenths. So it reaches opacity 0 after ten frames |
| Bubbles.RisingBubble | js/game.js:87-90 | Over n frames a bubble that is not popping rises by exactly n times its speed. Its number, flags, opacity and scale do not change |
| Bubbles.Hits | js/game.js:93-96 | The hit test on a bubble state, by squared distance. A hit lies strictly within the radius along each axis |
| Bubbles.HitsIffCloserThanRadius | js/game.js:93-96 | The squared-distance test agrees with the source's test: the distance from the tap to the centre is strictly below the radius |
| Bubbles.Bubble.constructor | js/game.js:31-43 | The new object holds exactly the spawned state and is well formed |
| Bubbles.Bubble.Update | js/game.js:81-91 | The object's new state is the one-frame step of its old state, and it stays well formed |
| Bubbles.Bubble.IsClicked | js/game.js:93-96 | `isClicked` on the object's current fields. A click lies strictly within the radius along each axis |
| Game.RolledTarget | js/game.js:204 | A rolled target lies in [10, 50] |
| Game.EveryTargetDrawable | js/game.js:204 | Every target in [10, 50] is produced by some random draw |
| Game.SpawnRateFor | js/game.js:181 | The spawn interval is at least 800 ms, and at most 1500 ms for a non-negative score |
| Game.SpawnRateNeverRises | js/game.js:181 | A higher score never gives a longer spawn interval |
| Game.SpawnRateFloor | js/game.js:181 | The interval is exactly 800 ms precisely from a score of 1400 on |
| Game.RerollEveryHundred | js/game.js:140-155 | For scores in steps of 20, the re-roll test `score % 50 == 0` holds exactly at multiples of 100 |
| Game.Without | js/game.js:129 | Filtering a bubble out keeps exactly the other entries. It keeps a distinct list distinct and shortens it by one when the bubble was in it |
| Game.TopHit | js/game.js:124-126 | The index found is -1 or a tappable bubble (hit and not popping), and no bubble above it is tappable |
| Game.TopHitUnique | js/game.js:124-126 | Any index with those two properties is TopHit's, so the backward search with `break` finds exactly TopHit |
| Game.Survivors | js/game.js:184-198 | The bubble states after one frame: each stepped once, in order, without those at opacity 0 or below. Never longer than before |
| Game.SurvivorsAreVisibleSteps | js/game.js:184-198 | A state remains after a frame exactly when it is the step of some earlier state and is still visible |
| Game.AnyEscapes | js/game.js:189-192 | Whether the frame calls `endGame`: some bubble, after its step, is not popping and has `y < -radius` |
| Game.AnyEscapesIffSome | js/game.js:189-192 | A frame ends the game exactly when some bubble, after its step, is not popping and is more than its radius above the top edge |
| Game.Surviving | js/game.js:184-198 | The bubble objects after one frame: the same objects in the same order, minus those whose step leaves opacity at 0 or below. Never longer than before |
| Game.SurvivingMembers | js/game.js:194-197 | A bubble object stays in the list exactly when its step leaves it at positive opacity |
| Game.SurvivingDistinct | js/game.js:194-197 | Splicing bubbles out keeps the list free of duplicates |
| Game.ViewsOfSurviving | js/game.js:184-198 | Once every object has stepped, the states of the objects left are exactly the surviving states |
| Game.Advance | js/game.js:185-186 | Stepping the bubble at one index of a list of distinct bubbles leaves the others unchanged |
| Game.GameState.constructor | js/game.js:10-17 | The initial values of the globals: score 0, target 10, inactive, empty lists, interval 1500, last spawn 0, speed 1 |
| Game.GameState.UpdateTarget | js/game.js:203-212 | The target becomes the rolled value, which lies in [10, 50] |
| Game.GameState.StartGame | js/game.js:214-227 | Score 0, speed 1, interval 1500, both lists empty, a freshly rolled target, the last spawn time set to now, the game active and valid |
| Game.GameState.EndGame | js/game.js:229-233 | The game is no longer active |
| Game.GameState.SpawnBubble | js/game.js:107-109 | Exactly one fresh bubble is appended, holding the spawned state for the current target and speed. The rest of the list is unchanged |
| Game.GameState.TapEffect | js/game.js:126-164 | The effect of a tap on the bubble at index i. Its flag flips and the selection is toggled. A two-entry selection summing to the target pops both, adds 20, empties the selection, adds 0.02 to the speed and re-rolls the target when the new score is a multiple of 50. No other flag and no other field changes |
| Game.GameState.HandleClick | js/game.js:117-167 | If the game is inactive or the tap hits no tappable bubble, nothing changes. Otherwise exactly TapEffect at TopHit's index holds. Either way the bubble list, active flag and spawn timing are untouched and the state stays valid |
| Game.GameState.ClickAt | js/game.js:124-166 | From the index the search found: nothing changes at -1, and TapEffect holds otherwise |
| Game.GameState.TapBubble | js/game.js:126-164 | TapEffect holds for the tapped bubble: its flag flips and the selection is toggled. A two-entry selection summing to the target pops both, adds 20, empties the selection, adds 0.02 to the speed and re-rolls the target when the score is a multiple of 50. Otherwise score, target and all popping flags are unchanged and no other flag changes |
| Game.GameState.Toggle | js/game.js:127-134 | The tapped bubble's flag flips. The selection loses that bubble if it was selected and gains it at the end if not |
| Game.GameState.PopPair | js/game.js:136-155 | The two selected bubbles start popping and stay selected. No other popping flag changes. Score +20, selection emptied, speed +0.02, target re-rolled exactly when the new score is a multiple of 50 |
| Game.GameState.PopSelected | js/game.js:140-143 | Every bubble in the selection starts popping, no other bubble's popping flag changes, and the score grows by 10 per selected bubble |
| Game.GameState.ClearSelection | js/game.js:158-161 | Every bubble in the selection when the callback runs is deselected, the list is emptied and no other bubble's flag changes |
| Game.GameState.Update | js/game.js:172-201 | An inactive game is unchanged. Otherwise a bubble is pushed exactly when more than the interval has passed, which updates the last spawn time and interval. The list then becomes the surviving objects: the old ones and the pushed one, in order, minus those that faded out. Their states are the survivors of the frame, and the game stays active exactly when no bubble escapes |
| Game.GameState.MaybeSpawn | js/game.js:177-182 | A bubble is pushed onto the end of the unchanged old list exactly when `time - lastSpawn > spawnRate`. The time is then recorded and the interval re-derived from the score. Otherwise the list, the time and the interval are unchanged |
| Game.GameState.StepBubbles | js/game.js:184-198 | The list becomes the old objects, in order, minus those whose step leaves opacity at or below 0. Their states are the survivors. The game ends exactly when some bubble escapes. Validity is kept |
| Game.GameState.SelectionSurvives | js/game.js:184-198 | A frame never removes a selected bubble that is not popping, and the selection still lists exactly the selected, non-popping survivors |
| Game.GameState.ValidAfterStep | js/game.js:184-198 | After the frame loop the state is valid again and its bubble states are the survivors |
| Game.GameState.StepAt | js/game.js:185-197 | One pass of the frame loop steps one more bubble. It calls EndGame when that bubble escapes and splices it out when it has faded, so the handled suffix grows by one and the game-over flag still agrees with AnyEscapes |

## Left out

- Rendering is not modelled: `draw`, gradients, fonts, colours and `clearRect`. Neither are `resize` and the DOM text, class and screen updates. They carry no game state.
- `handleVibrate` and `navigator.vibrate` are device calls with no effect on the game state.
- `requestAnimationFrame` and `setTimeout` scheduling are not modelled. The frame step (`Update`) and the deferred deselection (`ClearSelection`) are methods the environment may call at any point. The target-pulse timeout only touches the DOM.
- Reading the tap position from mouse or touch events and `getBoundingClientRect` is not modelled. The tap arrives as canvas coordinates.
- `Math.random`, `Math.sin`, `performance.now()` and the frame time are parameters.
- `Math.sqrt` in the hit test is replaced by a squared-distance comparison. `Bubbles.HitsIffCloserThanRadius` shows the two agree.
- `sw.js` is not part of this model. It holds service-worker caching only.
- Bubbles.Stepped: opacity and scale move in exact tenths. With IEEE doubles, ten subtractions of 0.1 from 1 leave a tiny positive opacity, so the browser removes a popping bubble one frame later than the model does.
- The model does not capture IEEE double rounding in positions, speeds, `gameSpeed += 0.02` or the spawn-interval arithmetic. They are exact reals.
