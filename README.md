# Dark-Eye colour inversion engine, in Dafny

This project models the core of the content script `content.js` of the
Dark-Eye browser extension. That core is the part that decides, per element,
whether its text or background colour is wrong for a dark page, and rewrites
the wrong ones as inverted colours. It has four parts:

- **Colour text codec** (`color_codec.dfy`, `decimal.dfy`). This covers
  `extractRGB`, `invertColor` and the `rgbaRegexp` default-colour test, with
  the JavaScript they rely on written out: `split(",")`, the `/[^0-9.]/g`
  strip, `Number(...)` on digit-and-point text (the empty text is 0, two
  points or a point alone is NaN), truthiness of the fourth value, `pop`,
  `reduce`, `Math.min((255 - v) + 20, 255)`, and the two output templates.
  `getComputedStyle` reports a colour as a `Color` (three channels 0..255 and
  an optional exact decimal alpha), and `Serialize` writes one out as
  `rgb(r, g, b)` or `rgba(r, g, b, a)`.
- **`switchScheme`** (`switch_scheme.dfy`). For each entry of the
  `colorProperties` table it reads the computed colour. `color` (goal 765) is
  rewritten when its channel sum is below 400. `background-color` (goal 0)
  is rewritten when its sum is above 300. The `rgbaRegexp` branch is switched
  off, because `changeDefault` is `false` in both entries. A rewrite stores
  the inverted colour in the element's inline style with priority
  `important`. The element is a class whose `style` field the method
  updates.
- **`checkWebState`** (`web_state.dfy`). This is a majority vote of
  "bright" (sum > 250) against "dark" sums. A tie is not bright.
- **The `setUp` protocol** (`setup.dfy`). It covers the observer being
  armed before the sweep, the insertion-ordered `Set` of pending elements,
  `isDone`, the single drain of the set, and then direct transformation of
  inserted elements and their descendants. It appears twice: as a pure
  state machine (`Step`/`Run`), and as a class `Engine` whose methods update
  `isDone`, the set and the log of `switchScheme` calls, each proved against
  `Step`.

## Behaviour of the code worth knowing

- The code reads only `rgb(...)`/`rgba(...)` text, split at commas. A
  channel sum is the only measure of brightness.
- Nothing stops an element being transformed twice. An element that is swept
  and later re-inserted is passed to `switchScheme` again
  (`Setup.SweptThenReinserted`).
- A zero alpha is falsy in `invertColor`, so the result is opaque
  `rgb(...)`:
  - Transparent text `rgba(0, 0, 0, 0)` (sum 0 < 400) becomes opaque white.
  - A transparent white background `rgba(255, 255, 255, 0)` (sum 765 > 300)
    becomes the opaque `rgb(20, 20, 20)`.
  `Inverted` states the rule: an alpha is kept exactly when it is non-zero.
  `Scheme.TransparentWhiteBackground` shows the background case.
- Only the sweep filters out `SCRIPT` elements. A script element that a
  mutation record reports is transformed like any other element.

## Model

| member | source | states |
|---|---|---|
| Decimal.NatToString | content.js:111-113 | the text of a natural number is non-empty digits with no leading zero unless the number is 0, the form `${v}` writes |
| Decimal.IntToString | content.js:111-113 | the `${v}` text of an integer channel: for a non-negative value, digits with no leading zero (other than `"0"` itself) that read back as the value; for a negative one, a minus sign and the digits of its magnitude, again without a leading zero |
| Decimal.DigitsOfNat | content.js:92 | `Number(...)` reads back the decimal text of every natural number, so a channel written into a colour text is read back as itself |
| Decimal.NatToStringInjective | content.js:111-113 | distinct channel values are written as distinct texts |
| ColorCodec.Split | content.js:92 | `split(",")` always yields at least one piece, so `reduce` without an initial value never meets an empty array |
| ColorCodec.SplitAppend | content.js:92 | splitting `a + sep + b` gives the pieces of `a` followed by the pieces of `b` |
| ColorCodec.Strip | content.js:92 | after `replace(/[^0-9.]/g, "")` only digits and points remain |
| ColorCodec.StripKeeps | content.js:92 | a text made only of digits and points passes the strip unchanged |
| ColorCodec.StripDrops | content.js:92 | a text with no digit or point strips to the empty text, which `Number` reads as 0 |
| ColorCodec.ParseNumber | content.js:92 | a number read from digit-and-point text is in canonical form (no trailing fraction zeros) |
| ColorCodec.ParseNumberText | content.js:103-111 | `Number` of the text `${x}` of an alpha is that alpha again, so the alpha passes through `invertColor` unchanged |
| ColorCodec.Values | content.js:92 | no contract of its own; the `split(",").map(val => Number(val.replace(...)))` chain (also content.js:101), whose meaning on computed colours is stated by `ColorCodec.ValuesOfSerialize` |
| ColorCodec.ValuesOfSerialize | content.js:92 | splitting, stripping and numbering a computed colour text gives exactly its three channels and, if present, its alpha |
| ColorCodec.WithoutAlpha | content.js:93 | no contract of its own; `if (splitRGB[3]) splitRGB.pop()`, whose effect on computed colours is stated by `ColorCodec.ReduceChannelValues` |
| ColorCodec.ReduceSum | content.js:93-94 | no contract of its own; the pop and `reduce`, whose value on computed colours is stated by `ColorCodec.ReduceChannelValues` |
| ColorCodec.ReduceChannelValues | content.js:93-94 | on a computed colour's values, the pop and reduce give r + g + b whether its alpha is truthy, zero or absent |
| ColorCodec.ExtractRGB | content.js:91-95 | no contract of its own; `ColorCodec.ExtractSerialized` states its meaning on computed colours |
| ColorCodec.InvertValues | content.js:103-114 | no contract of its own; the alpha test, channel map and templates, whose value on computed colours is stated by `ColorCodec.InvertSerialized` |
| ColorCodec.InvertColor | content.js:98-116 | no contract of its own; `ColorCodec.InvertSerialized` and `ColorCodec.Inverted` state its meaning |
| ColorCodec.IsDefaultColor | content.js:4 | no contract of its own; `ColorCodec.DefaultColorIff` states what it matches |
| ColorCodec.ExtractSerialized | content.js:91-95 | `extractRGB` of any computed colour is r + g + b: a truthy alpha is popped, a zero alpha adds nothing |
| ColorCodec.InvertChannel | content.js:106 | an inverted channel is at most 255 and at least 20; channels up to 20 map to 255, and from 20 on a channel and its inversion add up to 275 |
| ColorCodec.Inverted | content.js:103-114 | every inverted channel is at least 20, a channel up to 20 becomes 255, and the alpha is kept exactly when it is present and non-zero |
| ColorCodec.InvertSerialized | content.js:98-116 | `invertColor` of a computed colour text is the text of its inverted colour: `rgba(...)` with the original alpha when the alpha is truthy, `rgb(...)` otherwise |
| ColorCodec.SerializeInjective | content.js:111-113 | distinct colours have distinct texts |
| ColorCodec.DefaultColorIff | content.js:4 | `rgbaRegexp` matches a computed colour exactly when it is opaque black or transparent black |
| ColorCodec.InvertedTwice | content.js:106 | on channels of at least 20 with a truthy or absent alpha, inverting twice gives the colour back |
| Scheme.ColorProperties | content.js:7-10 | the table: `color` with goal 765 and `background-color` with goal 0, both with `changeDefault` false |
| Scheme.Fires | content.js:127-139 | no contract of its own; the `switch (colorGoal)` test, whose meaning on the table is stated by `Scheme.NewValueOfComputed` |
| Scheme.NewValue | content.js:127-139 | no contract of its own; what one entry writes, stated by `Scheme.NewValueOfComputed` |
| Scheme.Restyle | content.js:125-131 | no contract of its own; one entry of the loop, stated by `Scheme.RestyleEffect` |
| Scheme.Restyled | content.js:122-141 | no contract of its own; the loop over the table as a function, stated by `Scheme.SwitchSchemeEffect` |
| Scheme.SwitchScheme | content.js:119-142 | the inline style after `switchScheme` is the table-ordered restyling of the old style by the computed colours |
| Scheme.NewValueOfComputed | content.js:127-139 | for each table entry, a value is written exactly when the goal-0 sum exceeds 300 or the goal-765 sum is below 400, and it is the inverted colour |
| Scheme.RestyleEffect | content.js:125-139 | one entry writes the important inverted colour to its own property when its test passes, leaves the style unchanged otherwise, and never touches another property |
| Scheme.SwitchSchemeEffect | content.js:119-142 | after a pass, `color` is the important inverse iff its sum is below 400, `background-color` iff its sum is above 300, and every other declaration is as it was |
| Scheme.TransparentBackgroundKept | content.js:9 | a transparent background stays untouched with `changeDefault` false; with it true it would become opaque white |
| Scheme.BlackTextInverted | content.js:134-137 | black text is rewritten to `rgb(255, 255, 255)` |
| Scheme.TransparentWhiteBackground | content.js:103-113 | a transparent white background, `rgba(255, 255, 255, 0)`, is rewritten to the opaque `rgb(20, 20, 20)` |
| Scheme.BackgroundBoundary | content.js:129 | a background of sum exactly 300 is kept; one of sum 301 is inverted |
| WebState.BrightCount | content.js:81-84 | the bright tally never exceeds the number of sums; `WebState.BrightCountIsPositions` states its meaning |
| WebState.DarkCount | content.js:81-84 | the dark tally never exceeds the number of sums; `WebState.CountsPartition` states its meaning |
| WebState.CheckWebState | content.js:78-88 | the result is true iff strictly more sums are above 250 than not |
| WebState.CountsPartition | content.js:81-84 | every sum is counted as bright or dark, exactly once |
| WebState.BrightIffMajority | content.js:86-87 | bright iff more than half the sums are bright; a tie, or no sums at all, is dark |
| WebState.BrightCountIsPositions | content.js:82 | the bright tally is the number of positions holding a sum above 250 |
| Setup.Add | content.js:61 | no contract of its own; `set.add`, whose meaning is stated by `Setup.AddAllSpec` |
| Setup.AddAll | content.js:72 | no contract of its own; `forEach(set.add)`, whose meaning is stated by `Setup.AddAllSpec` |
| Setup.OnNodeAdded | content.js:53-63 | no contract of its own; the callback on one node, stated by `Setup.CollectingMutation` and `Setup.SteadyMutation` |
| Setup.Step | content.js:47-74 | no contract of its own; one protocol event, whose effects are stated by `Setup.RunSetUp`, `Setup.NothingLost` and the `Engine` methods |
| Setup.Descendants | content.js:59 | `node.querySelectorAll('*')` holds only elements; `Setup.DescendantsMembers` states that it holds all of them |
| Setup.ElementsOfMembers | content.js:59 | walking a list of trees finds an element iff it lies in one of the trees |
| Setup.DescendantsMembers | content.js:59 | `node.querySelectorAll('*')` holds exactly the elements strictly below `node` |
| Setup.Swept | content.js:69-71 | no contract of its own; `querySelectorAll("body *")` without `SCRIPT`, whose members are stated by `Setup.WithoutScriptsMembers` |
| Setup.OnNodesAdded | content.js:53 | no contract of its own; `addedNodes.forEach`, stated by `Setup.CollectingMutation` and `Setup.SteadyMutation` |
| Setup.AddAllSpec | content.js:61 | adding to a `Set` keeps the old members first, adds each new node once, and never duplicates |
| Setup.WithoutScriptsMembers | content.js:69-71 | the sweep filter keeps exactly the non-`SCRIPT` nodes |
| Setup.TopElementsMembers | content.js:55 | the callback keeps exactly the element nodes of a record |
| Setup.CollectingMutation | content.js:53-62 | before `isDone`, a record's element nodes are added to the set and nothing is transformed |
| Setup.SteadyMutation | content.js:57-59 | after `isDone`, each inserted element and then its descendants are transformed, and the set is unchanged |
| Setup.ExpandMembers | content.js:58-59 | a node is transformed directly iff it is an inserted element or a descendant of one |
| Setup.UnobservedRun | content.js:67 | records arriving before the observer is attached are lost: any run of them changes nothing |
| Setup.StepKeeps | content.js:44-74 | no event removes a node from the set or from the transformed log |
| Setup.StepAdmits | content.js:55-72 | an element delivered by an observed record, or collected by the sweep, joins the set or is transformed |
| Setup.NothingLost | content.js:67-72 | arming the observer before the sweep loses nothing: in any run, every element delivered while observing and every swept element ends up in the set or transformed |
| Setup.DrainedAfterFinish | content.js:73-74 | after the drain, everything delivered before it has been transformed |
| Setup.RunSetUp | content.js:44-74 | `setUp` ends observing, done, and with the set drained once into `switchScheme` in insertion order |
| Setup.SetUpTransformsEachOnce | content.js:67-74 | each early-reported element and each non-`SCRIPT` element under `body` is transformed exactly once, and nothing else is |
| Setup.SweptThenReinserted | content.js:57-74 | an element swept by `setUp` and reported again by a later record is transformed twice |
| Setup.LaterInsertions | content.js:57-59 | a mutation after `setUp` transforms its elements and their descendants after everything drained, leaving the set alone |
| Setup.Engine.constructor | content.js:44-45 | the set starts empty and `isDone` false |
| Setup.Engine.Observe | content.js:67 | attaching the observer changes nothing else |
| Setup.Engine.OnMutation | content.js:47-65 | the callback loop's new state is the `Step` of the old one on that record, and the set stays duplicate-free |
| Setup.Engine.SweepOne | content.js:70-72 | one swept element joins the set unless it is a `SCRIPT` element, and the set stays duplicate-free |
| Setup.Engine.Sweep | content.js:69-72 | the sweep loop adds the non-`SCRIPT` elements under `body` to the set in document order |
| Setup.Engine.Finish | content.js:73-74 | `isDone` becomes true and the set is passed to `switchScheme` in order |
| Setup.SetUp | content.js:44-74 | with no early record, a fresh engine ends up having transformed exactly the swept elements, each once, in document order |

## Left out

- Activation through `chrome.storage.local` (content.js:17): the model starts after the extension has been found active.
- The injected stylesheet for `html, body` (content.js:19-26): it is a fixed text with no logic.
- The `readyState` polling and the 3000 ms fallback (content.js:30-43): timers and document loading are outside a functional model. The protocol starts after the promise resolves.
- The real `MutationObserver`, asynchronous delivery and `subtree` reporting: a mutation record is an event given to the model. The browser delivers records as microtasks after the synchronous code at content.js:67-74. So the early-record case of `SetUpEvents` is a superset of what can happen, and `Setup.SetUp` covers the case that does happen.
- `getComputedStyle` and the CSS cascade: computed colours are a function given to `Scheme.SwitchScheme`. The effect of an inline write on later computed values (inheritance) is not modelled.
- Node identity: two nodes are the same when they are equal as values (`id` tells them apart). The DOM tree is a value, not a mutable structure. As a result, a DOM node reported in an early record and swept later with different children counts as two nodes, where the JavaScript `Set` would hold it once. "Exactly once" in `Setup.SetUpTransformsEachOnce` holds per node value.
- The protocol records the order of `switchScheme` calls. It does not thread an `Element` through them.
- ExtractRGB: gives `None` when a summed value has a fraction or a field is NaN. JavaScript would add fractions as floating point, and a NaN sum makes both comparisons false, which the `None` case matches. Computed channels are always integers.
- InvertColor: gives `None` for fewer than three or more than four values, and for fractional channels. JavaScript would write `undefined` or a fractional channel into the text.
- Floating point in general: numbers are exact decimals, and exponent notation is not modelled.
- `popup.js` (the on/off toggle stored as `isActive` in `chrome.storage.local`) and `background.js` (a relay that fetches stylesheet text for `fetchCss` messages and sends back the text or an error) are not part of this model.
