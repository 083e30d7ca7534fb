# RandomTextHelper in Dafny

A model of `RandomTextHelper`, the helper behind the "random animation text" label of the
RandomAnimationText library. The helper owns a template with `%s` placeholders and a list of
randomization rules. On every tick of the UI thread's queue it redraws the label's text: the
template with freshly generated strings spliced over the placeholders. It can be started,
stopped, paused and resumed, and it saves its animation state into the view's saved-state
chain (and from there into a parcel).

Files:

- `substitution.dfy` (module `Substitution`): the rules and what the generator may return for
  them, the literal `%s` search, `replaceFirst`, the rule loop of `getDrawTextRandom` as a
  function (`Substitute`), a reference definition of filling the placeholders left to right
  (`Fill`), and the lemmas that relate the two.
- `saved_state.dfy` (module `SavedState`): the saved-state chain (`Parcelable`), a parcel class
  with typed writes and reads, `RandomSavedState.writeToParcel` and its parcel constructor, and
  the parcel round trip.
- `random_text_helper.dfy` (module `RandomText`): the host label (`Host`: enabled flag and text),
  the pending-tick marker (`Tick`), and the class `RandomTextHelper` with the fields `template`,
  `drawText`, `isFinish`, `delayMillis`, `host`, `rules` and `pending`. Its methods change these
  fields in place. `DrawTextRandom` is the rule loop, proved against `Substitute`.
- `wrappers.dfy` (module `Wrappers`): `Option`.

Inputs that the helper gets from code this model does not contain:

- `parsed: seq<Rule>` is what `RandomString.parseParams(rules)` returns. `RandomString` is not
  part of this model.
- `generated: seq<string>` holds one string per rule, as `RandomStringUtils` would draw it.
  `Generated(rules, generated)` says each has exactly the rule's length and only characters of
  its class: ASCII letters, ASCII digits, or both.

A Java `null` string (`mTemplate` and `mDrawText` before they are set, an absent attribute) is
modelled as `""`. The two are interchangeable here because such a value only comes back through
`TextUtils.isEmpty` (`startTextAnimation`, `onDraw`) or `null == x ? "" : x` (text measurement).
Elsewhere a null template or draw text is only copied. The rule loop starts from the template,
but a template that was never set comes with no rules (`setTemplate` sets both), so the loop
hands it back as it is. The saved state copies the draw text, and `writeString` and
`readString` carry it through the parcel unchanged.

The property that matters most is about the substitution. When the template holds no `%%s`,
every rule has positive length and there are at least as many rules as placeholders, `getDrawTextRandom`
returns the template with its placeholders filled in order, and no `%s` is left
(`DrawTextFillsTemplate`). Other `%` signs are harmless: `"Load: %s%"` keeps its trailing `%`
(`LoadExample`). Generated strings hold no `%` and are inserted only where a `%s` was, so only
a `%` directly before a placeholder can meet one. That is the `%%s` case. The `%` before the placeholder, followed by a
generated string that begins with `s`, forms a new placeholder, because the search restarts at
index 0 for every rule. The next rule then consumes that new placeholder instead of the next
one of the template (`RescanConsumesFormedPlaceholder`: `"%%s"` with `"sab"`, `"xyz"` gives
`"xyzab"`).

`resumeAnimation` is modelled as the code has it: it does not run the tick itself, it replaces any
pending tick by one posted with zero delay, so the redraw happens when the queue next runs it.

## Model

| member | source | states |
|---|---|---|
| `Substitution.GeneratedArePlain` | RandomAnimationText/randomhelper/src/main/java/com/azoft/random/RandomTextHelper.java:122-134 | a generated string never contains `%`; it is empty exactly when its rule's length is 0 |
| `Substitution.FirstPlaceholder` | RandomAnimationText/randomhelper/src/main/java/com/azoft/random/RandomTextHelper.java:32 | the literal pattern `%s` is found exactly when it occurs, and then at its leftmost occurrence |
| `Substitution.ReplaceFirst` | RandomAnimationText/randomhelper/src/main/java/com/azoft/random/RandomTextHelper.java:138 | the first `%s` is replaced by the generated string taken literally; the text before and after it is kept; a string without `%s` is unchanged |
| `Substitution.Substitute` | RandomAnimationText/randomhelper/src/main/java/com/azoft/random/RandomTextHelper.java:118-142 | a template without `%s` comes out of the rule loop unchanged, whatever is generated |
| `Substitution.FirstPlaceholderAfterInert` | RandomAnimationText/randomhelper/src/main/java/com/azoft/random/RandomTextHelper.java:138 | inert text (no `%s`, not ending in `%`) in front of a string shifts where `%s` is found by its length, and neither adds nor hides one |
| `Substitution.SubstituteAfterInert` | RandomAnimationText/randomhelper/src/main/java/com/azoft/random/RandomTextHelper.java:120-139 | an inert prefix (no `%s`, not ending in `%`) passes through the whole rule loop untouched |
| `Substitution.SubstituteIsFill` | RandomAnimationText/randomhelper/src/main/java/com/azoft/random/RandomTextHelper.java:118-142 | on a template without `%%s` and generated strings without `%`, the rule loop as written equals filling the placeholders left to right, with empty strings skipped |
| `Substitution.FillLeavesNoPlaceholder` | RandomAnimationText/randomhelper/src/main/java/com/azoft/random/RandomTextHelper.java:118-142 | on a template without `%%s`, with at least as many non-empty `%`-free generated strings as placeholders, no `%s` is left in the fill |
| `Substitution.DrawTextFillsTemplate` | RandomAnimationText/randomhelper/src/main/java/com/azoft/random/RandomTextHelper.java:118-142 | a template without `%%s` and k placeholders, at least k rules, every rule of positive length: the draw text is the in-order fill of the template and holds no `%s` |
| `Substitution.RescanConsumesFormedPlaceholder` | RandomAnimationText/randomhelper/src/main/java/com/azoft/random/RandomTextHelper.java:138 | `"%%s"` with `"sab"` then `"xyz"` yields `"xyzab"`, while filling left to right would give `"%sab"` |
| `Substitution.LoadExample` | RandomAnimationText/randomhelper/src/main/java/com/azoft/random/RandomTextHelper.java:118-142 | `"Load: %s%"` with a 2-digit numeric rule gives `"Load: " + d2 + "%"`: the trailing `%` survives and no `%s` is left |
| `Substitution.ScoreExample` | RandomAnimationText/randomhelper/src/main/java/com/azoft/random/RandomTextHelper.java:118-142 | `"Score: %s/%s"` with a 2-digit and a 3-digit numeric rule gives `"Score: " + d2 + "/" + d3` and no `%s` |
| `SavedState.Decoding` | RandomAnimationText/randomhelper/src/main/java/com/azoft/random/RandomTextHelper.java:224-229 | reading always yields a `RandomSavedState`; the cursor moves past the 4 entries when they are there |
| `SavedState.DecodingEncoding` | RandomAnimationText/randomhelper/src/main/java/com/azoft/random/RandomTextHelper.java:224-237 | reading at the position where the state was written gives back the parent state, `isFinish`, `delayMillis` and `drawText`, and moves the cursor 4 entries on |
| `SavedState.WriteToParcel` | RandomAnimationText/randomhelper/src/main/java/com/azoft/random/RandomTextHelper.java:232-237 | appends the parent state, int 1/0 for finished, the long delay and the text, in that order |
| `SavedState.CreateFromParcel` | RandomAnimationText/randomhelper/src/main/java/com/azoft/random/RandomTextHelper.java:224-229 | reads parent, int, long, string in the written order; "finished" is exactly `1 == readInt()` |
| `SavedState.ParcelRoundTrip` | RandomAnimationText/randomhelper/src/main/java/com/azoft/random/RandomTextHelper.java:224-243 | a saved state written to a fresh parcel and created from it again is the same state |
| `RandomText.RandomTextHelper.constructor` | RandomAnimationText/randomhelper/src/main/java/com/azoft/random/RandomTextHelper.java:34-41 | a new helper: empty template, text and rules, not finished, delay 0, no tick pending |
| `RandomText.RandomTextHelper.Init` | RandomAnimationText/randomhelper/src/main/java/com/azoft/random/RandomTextHelper.java:43-70 | a missing host fails and changes nothing else; template and rules are set only when both attributes are non-empty; with autoStart the first tick is posted with the OLD delay; afterwards the host is enabled exactly when finished and the delay is 70 |
| `RandomText.RandomTextHelper.SetDelayMillis` | RandomAnimationText/randomhelper/src/main/java/com/azoft/random/RandomTextHelper.java:78-80 | sets the delay and nothing else |
| `RandomText.RandomTextHelper.SetTemplate` | RandomAnimationText/randomhelper/src/main/java/com/azoft/random/RandomTextHelper.java:82-86 | template and rule list are exactly the new ones; no earlier rule survives; nothing else changes |
| `RandomText.RandomTextHelper.StartTextAnimation` | RandomAnimationText/randomhelper/src/main/java/com/azoft/random/RandomTextHelper.java:93-105 | returns false and changes nothing when the template or the rule list is empty, with or without a host; otherwise returns true, running, host disabled, a fresh substitution drawn, exactly one tick pending with the current delay |
| `RandomText.RandomTextHelper.StartTextAnimationWith` | RandomAnimationText/randomhelper/src/main/java/com/azoft/random/RandomTextHelper.java:88-91 | sets template and rules, then behaves as `StartTextAnimation` on them |
| `RandomText.RandomTextHelper.StopAnimation` | RandomAnimationText/randomhelper/src/main/java/com/azoft/random/RandomTextHelper.java:107-112 | finished, host enabled, draw text is the host's text; a pending tick is not cancelled |
| `RandomText.RandomTextHelper.DrawTextRandom` | RandomAnimationText/randomhelper/src/main/java/com/azoft/random/RandomTextHelper.java:118-142 | the loop computes the rule-by-rule substitution; on a template without `%%s`, with every rule of positive length and at least as many rules as placeholders, it is the in-order fill, with no `%s` left |
| `RandomText.RandomTextHelper.RunTick` | RandomAnimationText/randomhelper/src/main/java/com/azoft/random/RandomTextHelper.java:167-179 | with a host bound: finished: no tick pending, text unchanged; running: text redrawn and exactly one tick pending with the current delay; `isFinish` never changes |
| `RandomText.RandomTextHelper.PauseAnimation` | RandomAnimationText/randomhelper/src/main/java/com/azoft/random/RandomTextHelper.java:210-212 | no tick pending afterwards, and only the pending tick changes, so repeating it changes nothing |
| `RandomText.RandomTextHelper.ResumeAnimation` | RandomAnimationText/randomhelper/src/main/java/com/azoft/random/RandomTextHelper.java:205-208 | exactly one tick pending, with zero delay; `isFinish` unchanged |
| `RandomText.RandomTextHelper.OnSaveInstanceState` | RandomAnimationText/randomhelper/src/main/java/com/azoft/random/RandomTextHelper.java:181-190 | the saved state chains the parent state with text, finished flag and delay; the host's enabled flag becomes `isFinish` |
| `RandomText.RandomTextHelper.OnRestoreInstanceState` | RandomAnimationText/randomhelper/src/main/java/com/azoft/random/RandomTextHelper.java:192-203 | a saved state restores text, finished flag and delay and returns its parent state; any other state is returned as is and nothing changes |
| `RandomText.RecreateThroughParcel` | RandomAnimationText/randomhelper/src/main/java/com/azoft/random/RandomTextHelper.java:181-203 | save, parcel, restore into another helper: same text, finished flag and delay, and the original parent state comes back |

## Left out

- Drawing and measurement (`onDraw`, `getWidthMeasureDrawText`, `getHeightMeasureDrawText`, `getDrawX`, `getDrawY`, `setTypeface`, the `Paint` set up in `init`): float text metrics and rendering only.
- `isFinish()` is not a separate member: it only reads the field, which the model exposes as `isFinish`.
- `requestLayout` and `invalidate` calls on the host: layout requests with no effect on the modelled state.
- The timing of the UI thread's `Handler`: only the at most one pending tick and its delay are kept. No clock, no queue order.
- `RandomStringUtils` and `RandomString.parseParams`: not part of this model. Their results are the inputs `generated` and `parsed`. A negative rule length, which would make the generator throw, cannot occur (`length: nat`).
- The byte layout of `Parcel` and of the framework's saved-state base class. The parent state is one opaque parcel entry. Reads and writes use separate positions, where Android shares one data position.
- The `default` branch of the switch in `getDrawTextRandom` (a null string, skipped): the three rule kinds are the only ones modelled.
- `RandomText.RandomTextHelper.Init`: the `IllegalArgumentException` for a missing host is the result `ok == false`. The host field is still assigned, as in the source.
- `RandomText.RandomTextHelper.StartTextAnimation`: the generated strings must conform to the rules even when the call refuses to start and draws nothing.
- `RandomText.RandomTextHelper.RunTick`: the tick is modelled as the queue taking the posted callback off and then running it. Any pending tick is gone before `run` begins.
- `RandomText.RandomTextHelper.RunTick`: a tick without a bound host is not modelled (it requires a host). In the source such a tick, posted by `resumeAnimation` before init, fails with a `NullPointerException` on the host: a finished helper at `invalidate`, a running one after drawing the new text and before posting the next tick.
- `RandomText.RandomTextHelper.StopAnimation`, `RandomText.RandomTextHelper.OnSaveInstanceState`: a call before init has bound a host is not modelled (both require a host). In the source `stopAnimation` then sets the finished flag and fails with a `NullPointerException` on the host; `onSaveInstanceState` fails the same way after building the saved state.
- `RandomText.RandomTextHelper.StartTextAnimation`, `RandomText.RandomTextHelper.StartTextAnimationWith`: a start with a non-empty template and rules but no host is not modelled; in the source it sets `mIsFinish` to false and then fails with a `NullPointerException`.
