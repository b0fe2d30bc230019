/** The "Focus Trail" button (app.js:439-476): each click flips `focusOn`,
    relabels the button, and either dims the geology layers, enlarges the
    POI markers and widens the trail lines, or puts back the values saved at
    startup. Opacities, sizes and widths are the program's literals, held as
    reals; only assignment and the `+ 4` on the POI size act on them. */
module FocusMode {
  import opened Wrappers

  /** One unique-value entry of the trail renderer: the `Status` value it
      matches and its line symbol's colour, width and dash style. */
  datatype LineInfo = LineInfo(value: string, color: seq<real>, width: real, style: Option<string>)

  const ConnectingRoute := "Connecting Route"

  /** The trail renderer's entries as the layer is built (app.js:98-101). */
  const StartupTrailInfos: seq<LineInfo> := [
    LineInfo("Ice Age Trail", [240.0, 170.0, 0.0, 1.0], 2.8, None),
    LineInfo(ConnectingRoute, [68.0, 68.0, 68.0, 1.0], 2.6, Some("dash"))
  ]

  /** `(symbol && Number(symbol.size)) || 12`: a missing symbol, a zero or a
      NaN size falls back to 12. */
  function CapturedPoiSize(size: Option<real>): (r: real)
    ensures size.Some? && size.value != 0.0 ==> r == size.value
    ensures size.None? || size.value == 0.0 ==> r == 12.0
    ensures r != 0.0
  {
    if size.Some? && size.value != 0.0 then size.value else 12.0
  }

  /** The values `ORIGINALS` saves (app.js:441-446). */
  datatype Originals = Originals(glacialOpacity: real, bedrockOpacity: real, poiSize: real, trailWidthIAT: real, trailWidthCR: real)

  const Saved := Originals(0.85, 0.65, CapturedPoiSize(Some(11.0)), 2.8, 2.6)

  const FocusGlacialOpacity := 0.25
  const FocusBedrockOpacity := 0.18
  const FocusWidthCR := 3.2
  const FocusWidthOther := 3.6

  /** What the click handler writes: the focus flag, the button's text, the
      two geology opacities, the POI marker size and the trail entries. */
  datatype Look = Look(focusOn: bool, buttonText: string, glacialOpacity: real, bedrockOpacity: real,
                       poiSize: real, trailInfos: seq<LineInfo>)

  function ButtonText(focusOn: bool): string {
    if focusOn then "Show Full Geology" else "Focus Trail"
  }

  function WidthCR(focusOn: bool): real {
    if focusOn then FocusWidthCR else Saved.trailWidthCR
  }

  function WidthOther(focusOn: bool): real {
    if focusOn then FocusWidthOther else Saved.trailWidthIAT
  }

  /** `after` is `before` after the handler's per-entry rewrite: same value
      and colour, the width chosen by the value, and the dash style forced on
      connecting routes while other entries keep theirs. */
  predicate Restyled(after: LineInfo, before: LineInfo, widthCR: real, widthOther: real) {
    && after.value == before.value && after.color == before.color
    && after.width == (if before.value == ConnectingRoute then widthCR else widthOther)
    && after.style == (if before.value == ConnectingRoute then Some("dash") else before.style)
  }

  /** The `uniqueValueInfos.map(...)` of the click handler. */
  function Restyle(infos: seq<LineInfo>, widthCR: real, widthOther: real): (r: seq<LineInfo>)
    ensures |r| == |infos|
    ensures forall i :: 0 <= i < |infos| ==> Restyled(r[i], infos[i], widthCR, widthOther)
  {
    if infos == [] then []
    else
      var u := infos[0];
      var isCR := u.value == ConnectingRoute;
      [u.(width := if isCR then widthCR else widthOther, style := if isCR then Some("dash") else u.style)]
        + Restyle(infos[1..], widthCR, widthOther)
  }

  /** A later rewrite overrides an earlier one completely. */
  lemma {:induction false} RestyleOverrides(infos: seq<LineInfo>, a: real, b: real, c: real, d: real)
    ensures Restyle(Restyle(infos, a, b), c, d) == Restyle(infos, c, d)
  {
    if infos != [] {
      var mid := Restyle(infos, a, b);
      assert mid[1..] == Restyle(infos[1..], a, b);
      RestyleOverrides(infos[1..], a, b, c, d);
    }
  }

  /** A look is settled when every written value agrees with its focus flag
      (the entries are a fixed point of the rewrite for that flag). */
  predicate Settled(s: Look) {
    && s.buttonText == ButtonText(s.focusOn)
    && s.glacialOpacity == (if s.focusOn then FocusGlacialOpacity else Saved.glacialOpacity)
    && s.bedrockOpacity == (if s.focusOn then FocusBedrockOpacity else Saved.bedrockOpacity)
    && s.poiSize == (if s.focusOn then Saved.poiSize + 4.0 else Saved.poiSize)
    && s.trailInfos == Restyle(s.trailInfos, WidthCR(s.focusOn), WidthOther(s.focusOn))
  }

  /** The focus button's click handler on the look. */
  function Toggled(s: Look): (t: Look)
    ensures t.focusOn == !s.focusOn && Settled(t)
    ensures t.focusOn ==> t.glacialOpacity == 0.25 && t.bedrockOpacity == 0.18 && t.poiSize == Saved.poiSize + 4.0
    ensures !t.focusOn ==> t.glacialOpacity == Saved.glacialOpacity && t.bedrockOpacity == Saved.bedrockOpacity && t.poiSize == Saved.poiSize
    ensures t.trailInfos == Restyle(s.trailInfos, WidthCR(t.focusOn), WidthOther(t.focusOn))
  {
    var on := !s.focusOn;
    RestyleOverrides(s.trailInfos, WidthCR(on), WidthOther(on), WidthCR(on), WidthOther(on));
    if on then
      Look(on, ButtonText(on), FocusGlacialOpacity, FocusBedrockOpacity, Saved.poiSize + 4.0,
           Restyle(s.trailInfos, FocusWidthCR, FocusWidthOther))
    else
      Look(on, ButtonText(on), Saved.glacialOpacity, Saved.bedrockOpacity, Saved.poiSize,
           Restyle(s.trailInfos, Saved.trailWidthCR, Saved.trailWidthIAT))
  }

  /** From a settled look every click visibly resizes the POI markers:
      focusing enlarges them by 4 and leaving focus shrinks them back. */
  lemma ClickResizesPoi(s: Look)
    requires Settled(s)
    ensures Toggled(s).poiSize == (if s.focusOn then s.poiSize - 4.0 else s.poiSize + 4.0)
    ensures Toggled(s).poiSize != s.poiSize
  {
  }

  /** Two clicks give back any settled look exactly. */
  lemma ToggleTwice(s: Look)
    requires Settled(s)
    ensures Toggled(Toggled(s)) == s
  {
    var f := s.focusOn;
    RestyleOverrides(s.trailInfos, WidthCR(!f), WidthOther(!f), WidthCR(f), WidthOther(f));
  }

  /** The page as loaded: unfocused, with the layers' own values. The
      button's initial label comes from the page markup and is taken to be
      the unfocused one. */
  const Startup := Look(false, ButtonText(false), 0.85, 0.65, 11.0, StartupTrailInfos)

  /** The startup values are exactly the saved ones, so the page starts settled. */
  lemma StartupSettled()
    ensures Settled(Startup)
    ensures Saved.poiSize == 11.0
  {
    var r := Restyle(StartupTrailInfos, Saved.trailWidthCR, Saved.trailWidthIAT);
    assert Restyled(r[0], StartupTrailInfos[0], Saved.trailWidthCR, Saved.trailWidthIAT);
    assert Restyled(r[1], StartupTrailInfos[1], Saved.trailWidthCR, Saved.trailWidthIAT);
    assert r == StartupTrailInfos;
  }

  /** `k` clicks. */
  function Clicks(s: Look, k: nat): Look {
    if k == 0 then s else Toggled(Clicks(s, k - 1))
  }

  /** After an even number of clicks a settled look is back; after an odd
      number it is the focused (or unfocused) counterpart. */
  lemma {:induction false} ClicksParity(s: Look, k: nat)
    requires Settled(s)
    ensures Clicks(s, 2 * k) == s
    ensures Clicks(s, 2 * k + 1) == Toggled(s)
  {
    if k > 0 {
      ClicksParity(s, k - 1);
      assert Clicks(s, 2 * k) == Toggled(Toggled(Clicks(s, 2 * (k - 1))));
      ToggleTwice(s);
    }
  }

  /** The layers and the button the handler writes. */
  class FocusController {
    var focusOn: bool
    var buttonText: string
    var glacialOpacity: real
    var bedrockOpacity: real
    var poiSize: real
    var trailInfos: seq<LineInfo>

    function Snapshot(): Look
      reads this
    {
      Look(focusOn, buttonText, glacialOpacity, bedrockOpacity, poiSize, trailInfos)
    }

    constructor ()
      ensures Snapshot() == Startup
    {
      focusOn, buttonText := false, ButtonText(false);
      glacialOpacity, bedrockOpacity, poiSize := 0.85, 0.65, 11.0;
      trailInfos := StartupTrailInfos;
    }

    /** `focusBtn`'s click listener (app.js:448-476). */
    method OnClick()
      modifies this
      ensures Snapshot() == Toggled(old(Snapshot()))
    {
      focusOn := !focusOn;
      buttonText := ButtonText(focusOn);
      if focusOn {
        glacialOpacity := FocusGlacialOpacity;
        bedrockOpacity := FocusBedrockOpacity;
        poiSize := Saved.poiSize + 4.0;
        trailInfos := Restyle(trailInfos, FocusWidthCR, FocusWidthOther);
      } else {
        glacialOpacity := Saved.glacialOpacity;
        bedrockOpacity := Saved.bedrockOpacity;
        poiSize := Saved.poiSize;
        trailInfos := Restyle(trailInfos, Saved.trailWidthCR, Saved.trailWidthIAT);
      }
    }
  }
}
