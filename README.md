# Educator map viewer — verified model of the page logic

The viewer is a browser page that hands its map, layers, renderers and
widgets to the ArcGIS JavaScript SDK. Around that configuration, `app.js`
holds a few pieces of logic of its own, and this project models them in
Dafny and proves what they promise:

- **Colour decoding** (`HexColor`): `hexToRgb` turns `#RRGGBB` into three
  channels and `f` wraps them in a fill symbol for the glacial-geology
  renderer. The model follows the steps of ECMAScript's `parseInt(_, 16)` (up to
  its final conversion to a double), `String.prototype.replace` and `slice`,
  so it also covers malformed input
  (NaN channels, a sign, leading white space, a `0x` prefix). Positions are
  counted in Unicode scalar values, not UTF-16 code units (see "Left out").
- **Segment selection** (`TrailClick`): a map click picks the first hit-test
  result on the top trail layer. It acts only when that hit's `Segment`
  attribute is truthy.
- **Educator panel** (`Educator`): `setActiveTab` sets the flags of the tab
  buttons and panels in place. `updateSegmentPanel` always switches to the
  segments tab. It then fills the segment regions from the inline
  name→record table, or shows the "no content" line. The activities region
  is rebuilt from a default captured once at startup.
- **Sidebar** (`Sidebar`): the collapse toggle, the header button and the
  welcome modal's teachers' button.
- **Focus mode** (`FocusMode`): the focus button swaps the layer opacities,
  the POI marker size and the trail widths between the focus values and the
  values saved at startup.

Each stateful piece is a class whose methods are proved against a pure
function of the old state (`Render`, `Toggle`, `HeaderClick`, `Expand`,
`Toggled`). The lemmas about those functions state the properties below.
`Dom` holds `String(bool)` as written into ARIA attributes. `Wrappers`
holds `Option`, which stands for `undefined`, `null` or `NaN`.

The table in `app.js:184-331` is a literal object with two entries, "New Hope"
and "Kettlebowl". Each entry has six HTML-string fields: `overview`,
`bedrock`, `glacial`, `pois`, `conceptsHtml` and `activitiesHtml`. The panel
assigns them verbatim, with no fetch and no wrapping. The model takes the
table as a constructor parameter of the panel.

## Model

| member | source | states |
|---|---|---|
| `HexColor.ParseInt16` | app.js:75 | `parseInt(s, 16)`, taken as an exact integer, yields NaN or a value strictly between `-16^(n-1)` and `16^n` for an input of length `n` |
| `HexColor.IndexOf` | app.js:75 | the search inside `replace`: the index of the first occurrence, no occurrence before it, and the length exactly when there is none |
| `HexColor.ReplaceFirst` | app.js:75 | `replace("#", "")` removes exactly the first `#`, and leaves a string without `#` as it is |
| `HexColor.Slice` | app.js:75 | `slice(from, to)` is the part between the bounds clamped to the length, and empty when the bounds cross or start past the end |
| `HexColor.SliceJoin` | app.js:75 | adjacent slices join into the slice spanning both, so the three channel slices tile the first six characters |
| `HexColor.HexToRgb` | app.js:75 | every channel is NaN or lies in -15..255, whatever the input |
| `HexColor.ColorCodeChannels` | app.js:75 | for six hex digits, optionally after `#`, r, g and b are the base-16 values of digits 0-1, 2-3 and 4-5 |
| `HexColor.SlicesOfCode` | app.js:75 | on a well-formed code, `hexToRgb` parses the slices [0,2), [2,4), [4,6) of its six digits |
| `HexColor.DigitChannels` | app.js:75 | each digit pair of six hex digits parses to its byte value |
| `HexColor.DecodeEncode` | app.js:75 | decoding the `#RRGGBB` code of three bytes gives back those bytes |
| `HexColor.EncodeDecode` | app.js:75 | re-encoding a decoded code gives the same digits, upper-cased, after `#` |
| `HexColor.Fill` | app.js:71-74 | the fill's first three colour components equal `hexToRgb(hex)` |
| `HexColor.FillStyleIsConstant` | app.js:73 | two fills differ only in their r, g, b channels: the kind, the alpha 0.9 and the outline do not depend on the input |
| `HexColor.FillOfColorCode` | app.js:71-75 | the fill of a well-formed code carries its three bytes |
| `HexColor.GlacialPaletteDecodes` | app.js:55-65 | every colour literal of the glacial renderer is well formed, so each unit's fill has three byte channels |
| `TrailClick.FindTrailHit` | app.js:481 | `find` returns the first hit whose graphic lies on the top trail layer, or nothing when no hit does |
| `TrailClick.SelectedSegment` | app.js:481-487 | a name is selected iff the first trail hit has a truthy `Segment`, and then it is exactly that name |
| `TrailClick.OnlyFirstTrailHitCounts` | app.js:481-486 | hits before the first trail hit and every hit after it are ignored |
| `TrailClick.MissSelectsNothing` | app.js:481-482 | a click with no hit on the trail layer selects nothing |
| `Dom.BoolAttr` | app.js:168 | `String(b)` is `"true"` exactly when `b` holds |
| `Educator.NoContentMessage` | app.js:348 | the no-content line starts with its fixed prefix, ends with `".`, and is the name's length plus the fixed parts long |
| `Educator.NoContentMessageNames` | app.js:348 | the no-content line embeds the segment name verbatim after its fixed prefix |
| `Educator.NoContentMessageInjective` | app.js:348 | different unknown names give different no-content lines |
| `Educator.SegmentActivities` | app.js:370-375 | the activities template opens with the header naming the segment, closes with the template's tail, and its length is the sum of its five parts |
| `Educator.SegmentActivitiesLayout` | app.js:370-375 | a known segment's activities open with the header naming it, then hold the record's activities, and end with the captured default |
| `Educator.Render` | app.js:342-377 | unknown name: intro names it, details hidden, activities reset to the default, the other regions unchanged; known name: intro empty, details shown, title is the name, regions are the record's fields, activities are header, record, separator, default |
| `Educator.RenderIdempotent` | app.js:342-377 | showing a segment twice gives the same regions as showing it once |
| `Educator.RenderKnownForgetsPrior` | app.js:358-376 | for a known segment the regions do not depend on what was shown before |
| `Educator.RenderKnownOverrides` | app.js:358-376 | after any click, clicking a known segment gives what that click alone gives |
| `Educator.UnknownAfterKnownKeepsDetails` | app.js:347-366 | an unknown segment after a known one keeps the known one's hidden title and overview, and names the unknown one in the intro |
| `Educator.RenderSettlesActivities` | app.js:352-375 | the activities are always the default or one segment's activities over the default, never content stacked from several clicks |
| `Educator.TabsExclusive` | app.js:164-174 | with distinct tab names and panel ids, at most one button is active, at most one panel is visible, and the visible one is `eduTab-<name>` |
| `Educator.EducatorPanel.constructor` | app.js:157-162 | the default activities are the activities region's initial HTML, or empty when that element is missing |
| `Educator.EducatorPanel.SetActiveTab` | app.js:164-174 | each button's active flag and `aria-selected` equal `edutab == name`; each panel is hidden iff its id differs from `eduTab-<name>` |
| `Educator.EducatorPanel.ClickTabButton` | app.js:176-181 | clicking a tab button makes that button active and shows its tab |
| `Educator.EducatorPanel.UpdateSegmentPanel` | app.js:342-377 | the segments tab is always shown, and the regions become `Render` of the old regions |
| `Educator.EducatorPanel.HandleMapClick` | app.js:479-489 | the panel changes only when a segment is selected, and then exactly as `updateSegmentPanel` of that name |
| `Educator.UpdateTwiceIsUpdateOnce` | app.js:342-377 | two updates with the same name leave the same tabs and regions as one |
| `Sidebar.Toggle` | app.js:386-391 | the toggle flips `collapsed`; `aria-expanded` becomes its negation and the text "Show" when collapsed, "Hide" otherwise |
| `Sidebar.Expand` | app.js:395-397 | the header and teachers' buttons open the sidebar and label it open |
| `Sidebar.HeaderClick` | app.js:393-403 | the header button never collapses; on an open sidebar it only scrolls the body to the top |
| `Sidebar.ToggleTwice` | app.js:386-389 | two toggles restore a labelled state exactly |
| `Sidebar.ToggleTwiceRelabels` | app.js:386-389 | two toggles of a mislabelled state keep `collapsed` but correct the label |
| `Sidebar.HeaderClickIdempotentWhenOpen` | app.js:393-402 | on an open sidebar a second header click changes nothing more |
| `Sidebar.HandlersKeepLabelled` | app.js:386-403 | every handler keeps the toggle button's label consistent with `collapsed` |
| `Sidebar.SidebarUi.OnToggleClick` | app.js:386-391 | the listener's effect is `Toggle` of the old state |
| `Sidebar.SidebarUi.OnHeaderClick` | app.js:393-403 | the listener's effect is `HeaderClick` of the old state |
| `Sidebar.SidebarUi.OnWelcomeTeachers` | app.js:422 | the teachers' button opens the sidebar like the header button |
| `FocusMode.CapturedPoiSize` | app.js:444 | the size captured with a fallback of 12: the size itself when present and non-zero, 12 when missing, NaN or 0, and never 0 |
| `FocusMode.ClickResizesPoi` | app.js:444-466 | from a settled look each click changes the POI size: focusing adds 4 to the saved size, leaving focus takes it back |
| `FocusMode.Restyle` | app.js:455-474 | each trail entry keeps its value and colour, gets the width chosen by its value, and connecting routes keep the dash style |
| `FocusMode.RestyleOverrides` | app.js:455-474 | a later rewrite of the trail entries overrides an earlier one completely |
| `FocusMode.Toggled` | app.js:448-476 | a click flips `focusOn`; focused: opacities 0.25/0.18, POI size `ORIGINALS.poiSize + 4`, widths 3.2 and 3.6; unfocused: the saved values |
| `FocusMode.ToggleTwice` | app.js:448-476 | two clicks restore opacities, POI size, trail widths and label exactly |
| `FocusMode.StartupSettled` | app.js:441-446 | the saved POI size is 11, and the startup look agrees with the unfocused values |
| `FocusMode.ClicksParity` | app.js:448-476 | after an even number of clicks the look is back; after an odd number it is the toggled one |
| `FocusMode.FocusController.constructor` | app.js:440-446 | focus mode starts off, with the saved opacities 0.85/0.65, POI size 11 and the trail entries as built |
| `FocusMode.FocusController.OnClick` | app.js:448-476 | the listener's effect is `Toggled` of the old look |

## Left out

- ArcGIS configuration: the map, view, layers, renderers, popup templates and widgets (app.js:14-148, 426-437). The SDK that consumes them is not part of this model; of it, the model keeps the colour literals fed to `f` (app.js:55-65), the trail renderer's entries (app.js:98-101), the initial opacities 0.85 of the glacial and 0.65 of the bedrock layer (app.js:51, 39), the POI marker size 11 (app.js:114) and the identity of the `sectionsTop` layer (app.js:92) that the click test compares against.
- `view.hitTest` (app.js:480) is the SDK's asynchronous spatial test; the model starts from its list of results.
- `syncPadding`, the `ResizeObserver` and the window `resize` listener (app.js:379-407): they depend on browser layout widths.
- `getComputedStyle` for the POI colours (app.js:115-116), the POI popup template (app.js:121-129), and the welcome modal (app.js:409-424) apart from the teachers' button's effect on the sidebar.
- The prose of the segment table (app.js:184-331): records are opaque strings and the table is a parameter.
- Table lookup is own-key lookup in a map; a name such as "constructor", which a JavaScript object inherits, is not modelled.
- Region contents are the strings assigned; the browser's HTML parsing and serialisation of `innerHTML` are not modelled.
- Only the activities list element is null-checked in the source; the other region elements and the tab buttons' `data-edutab` are taken to be present and to hold strings; a `Segment` attribute, when present, is taken to be a string (a missing or null one is modelled).
- `HexColor.Slice` and `HexColor.IndexOf` count positions in Unicode scalar values, while JavaScript's `slice` and `replace` count UTF-16 code units: a character outside the Basic Multilingual Plane before a digit shifts the slices, so the channels of such an input differ from the browser's (`"😀FFFF".slice(4,6)` is `"FF"` in JavaScript but `"F"` here). Every colour literal of the page is ASCII.
- `HexColor.ParseInt16` returns the integer 0 where `parseInt` returns `-0` for a negative zero.
- `HexColor.ParseInt16` returns the exact integer where `parseInt` converts its result to a double, which rounds values above 2^53 (`"FFFFFFFFFFFFFF"` gives 16^14 in JavaScript, 16^14 - 1 here); the slices of at most two characters that `hexToRgb` parses never get there.
- The smooth scroll of the sidebar body is modelled as its target position, 0.
- The focus button's initial label comes from the page markup, which is not part of this model; it is taken to be "Focus Trail".
- The focus handler rebuilds renderer clones; only the entries' value, colour, width and dash style, and the POI marker size, are modelled.
