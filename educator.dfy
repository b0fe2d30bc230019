/** The educator sidebar's panel (app.js:156-377): the tab strip that
    `setActiveTab` drives and the segment regions that `updateSegmentPanel`
    fills from the inline segment table. Region contents are the strings the
    program assigns; HTML parsing and serialisation are not modelled. */
module Educator {
  import opened Dom
  import TrailClick

  /** One entry of the segment table; every field is an HTML fragment. */
  datatype Record = Record(
    overview: string, bedrock: string, glacial: string,
    pois: string, conceptsHtml: string, activitiesHtml: string)

  /** The segment regions: the intro line, whether the details block is
      hidden, and the text or HTML of the title, overview, bedrock, glacial,
      POI, concepts and activities regions. */
  datatype Regions = Regions(
    intro: string, detailsHidden: bool, title: string,
    overview: string, bedrock: string, glacial: string,
    pois: string, concepts: string, activities: string)

  /** What the panel fixes at startup: the table, whether the activities list
      element exists, and the activities HTML captured before any segment
      was shown (app.js:157-158). */
  datatype Config = Config(content: map<string, Record>, hasActivitiesList: bool, defaultActivities: string)

  const SegmentsTab := "segments"

  /** The id of the panel that belongs to tab `name`. */
  function PanelId(name: string): string {
    "eduTab-" + name
  }

  const NoContentPrefix := "No custom educator content is available yet for \""

  /** The intro line shown for a segment without a table entry. */
  function NoContentMessage(n: string): (m: string)
    ensures |m| == |NoContentPrefix| + |n| + 2
    ensures m[..|NoContentPrefix|] == NoContentPrefix && m[|m| - 2..] == "\"."
  {
    NoContentPrefix + n + "\"."
  }

  /** The message names the segment, verbatim, right after its fixed prefix. */
  lemma NoContentMessageNames(n: string)
    ensures var m := NoContentMessage(n);
            |m| == |NoContentPrefix| + |n| + 2 && m[|NoContentPrefix|..|NoContentPrefix| + |n|] == n
  {
    var m := NoContentMessage(n);
    assert m == NoContentPrefix + n + "\".";
    assert m[|NoContentPrefix|..|NoContentPrefix| + |n|] == (NoContentPrefix + n)[|NoContentPrefix|..];
  }

  /** So different segments give different messages. */
  lemma NoContentMessageInjective(a: string, b: string)
    requires NoContentMessage(a) == NoContentMessage(b)
    ensures a == b
  {
    NoContentMessageNames(a);
    NoContentMessageNames(b);
  }

  const Indent := "          "
  const Separator := "<hr style=\"margin: 10px 0; border-color: rgba(255,255,255,0.12);\" />"

  /** The header line that names the segment in the activities region. */
  function ActivitiesHeader(n: string): string {
    "\n" + Indent + "<p><strong>Recommended activities for " + n + ":</strong></p>" + "\n" + Indent
  }

  /** What follows the default activities: a line break and the template's
      closing indentation. */
  const ActivitiesTail := "\n        "

  /** What separates the record's activities from the default ones. */
  const ActivitiesMiddle := "\n" + Indent + Separator + "\n" + Indent

  /** The activities region for a known segment: the header naming it, the
      record's activities, the separator, then the default activities. */
  function SegmentActivities(n: string, rec: Record, base: string): (s: string)
    ensures |s| == |ActivitiesHeader(n)| + |rec.activitiesHtml| + |ActivitiesMiddle| + |base| + |ActivitiesTail|
    ensures s[..|ActivitiesHeader(n)|] == ActivitiesHeader(n)
    ensures s[|s| - |ActivitiesTail|..] == ActivitiesTail
  {
    ActivitiesHeader(n) + rec.activitiesHtml + ActivitiesMiddle + base + ActivitiesTail
  }

  /** Where the parts of a five-part concatenation sit. */
  lemma ConcatParts(a: string, b: string, c: string, d: string, e: string)
    ensures var s := a + b + c + d + e;
            && s[..|a|] == a
            && s[|a|..|a| + |b|] == b
            && |s| - |e| - |d| >= |a| + |b|
            && s[|s| - |e| - |d|..|s| - |e|] == d
  {
    var s := a + b + c + d + e;
    assert s == (a + b) + (c + d + e);
    assert s[..|a| + |b|] == a + b;
    assert s == (a + b + c) + d + e;
  }

  /** The record's activities and the default activities both appear
      verbatim, in that order, and the region opens with the header. */
  lemma SegmentActivitiesLayout(n: string, rec: Record, base: string)
    ensures var s := SegmentActivities(n, rec, base);
            var h := |ActivitiesHeader(n)|;
            var e := |s| - |ActivitiesTail|;
            && s[..h] == ActivitiesHeader(n)
            && s[h..h + |rec.activitiesHtml|] == rec.activitiesHtml
            && h + |rec.activitiesHtml| <= e - |base|
            && s[e - |base|..e] == base
  {
    ConcatParts(ActivitiesHeader(n), rec.activitiesHtml, ActivitiesMiddle, base, ActivitiesTail);
  }

  /** `updateSegmentPanel` on the regions (app.js:342-377): an unknown name
      shows the no-content line, hides the details and resets the
      activities; a known name fills every region from its record. */
  function Render(cfg: Config, v: Regions, n: string): (w: Regions)
    ensures n !in cfg.content ==>
      && w.intro == NoContentMessage(n) && w.detailsHidden
      && w.activities == (if cfg.hasActivitiesList then cfg.defaultActivities else v.activities)
      && w.title == v.title && w.overview == v.overview && w.bedrock == v.bedrock
      && w.glacial == v.glacial && w.pois == v.pois && w.concepts == v.concepts
    ensures n in cfg.content ==>
      var rec := cfg.content[n];
      && w.intro == "" && !w.detailsHidden && w.title == n
      && w.overview == rec.overview && w.bedrock == rec.bedrock && w.glacial == rec.glacial
      && w.pois == rec.pois && w.concepts == rec.conceptsHtml
      && w.activities == (if cfg.hasActivitiesList then SegmentActivities(n, rec, cfg.defaultActivities) else v.activities)
  {
    if n !in cfg.content then
      v.(intro := NoContentMessage(n), detailsHidden := true,
         activities := if cfg.hasActivitiesList then cfg.defaultActivities else v.activities)
    else
      var rec := cfg.content[n];
      Regions("", false, n, rec.overview, rec.bedrock, rec.glacial, rec.pois, rec.conceptsHtml,
              if cfg.hasActivitiesList then SegmentActivities(n, rec, cfg.defaultActivities) else v.activities)
  }

  /** Showing a segment twice is showing it once: nothing accumulates,
      because the activities are rebuilt from the startup snapshot. */
  lemma RenderIdempotent(cfg: Config, v: Regions, n: string)
    ensures Render(cfg, Render(cfg, v, n), n) == Render(cfg, v, n)
  {
  }

  /** For a known segment the result does not depend on what was shown before. */
  lemma RenderKnownForgetsPrior(cfg: Config, v: Regions, u: Regions, n: string)
    requires n in cfg.content && cfg.hasActivitiesList
    ensures Render(cfg, v, n) == Render(cfg, u, n)
  {
  }

  /** After any sequence of clicks the last known segment wins. */
  lemma RenderKnownOverrides(cfg: Config, v: Regions, a: string, b: string)
    requires b in cfg.content && cfg.hasActivitiesList
    ensures Render(cfg, Render(cfg, v, a), b) == Render(cfg, v, b)
  {
    RenderKnownForgetsPrior(cfg, Render(cfg, v, a), v, b);
  }

  /** An unknown segment after a known one keeps the known one's (hidden)
      details and names the unknown one in the intro line. */
  lemma UnknownAfterKnownKeepsDetails(cfg: Config, v: Regions, a: string, b: string)
    requires a in cfg.content && b !in cfg.content
    ensures var w := Render(cfg, Render(cfg, v, a), b);
            w.title == a && w.overview == cfg.content[a].overview && w.detailsHidden
            && w.intro == NoContentMessage(b)
  {
  }

  /** The activities region holds the default, or one segment's activities
      followed by the default: never content stacked from several clicks. */
  ghost predicate ActivitiesFor(cfg: Config, v: Regions, n: string) {
    n in cfg.content && v.activities == SegmentActivities(n, cfg.content[n], cfg.defaultActivities)
  }

  ghost predicate ActivitiesSettled(cfg: Config, v: Regions) {
    v.activities == cfg.defaultActivities || exists n :: ActivitiesFor(cfg, v, n)
  }

  lemma RenderSettlesActivities(cfg: Config, v: Regions, n: string)
    requires cfg.hasActivitiesList
    ensures ActivitiesSettled(cfg, Render(cfg, v, n))
    ensures n in cfg.content ==> ActivitiesFor(cfg, Render(cfg, v, n), n)
  {
    if n in cfg.content {
      assert ActivitiesFor(cfg, Render(cfg, v, n), n);
    }
  }

  /** The tab flags `setActiveTab(name)` leaves (app.js:164-174): each
      button is active and `aria-selected` exactly when its tab is `name`,
      and each panel is hidden exactly when its id is not `eduTab-name`. */
  ghost predicate TabsShow(buttonTabs: seq<string>, active: seq<bool>, selected: seq<string>,
                           panelIds: seq<string>, hidden: seq<bool>, name: string) {
    && |active| == |buttonTabs| && |selected| == |buttonTabs| && |hidden| == |panelIds|
    && (forall i :: 0 <= i < |buttonTabs| ==> active[i] == (buttonTabs[i] == name) && selected[i] == BoolAttr(buttonTabs[i] == name))
    && (forall j :: 0 <= j < |panelIds| ==> hidden[j] == (panelIds[j] != PanelId(name)))
  }

  /** With distinct tab names and panel ids the tabs are mutually exclusive:
      at most one button is active and at most one panel is visible, the
      visible one belongs to `name`, and a button named `name` is active. */
  lemma TabsExclusive(buttonTabs: seq<string>, active: seq<bool>, selected: seq<string>,
                      panelIds: seq<string>, hidden: seq<bool>, name: string)
    requires TabsShow(buttonTabs, active, selected, panelIds, hidden, name)
    requires forall i, k :: 0 <= i < k < |buttonTabs| ==> buttonTabs[i] != buttonTabs[k]
    requires forall i, k :: 0 <= i < k < |panelIds| ==> panelIds[i] != panelIds[k]
    ensures forall i, k :: 0 <= i < |active| && 0 <= k < |active| && active[i] && active[k] ==> i == k
    ensures forall i, k :: 0 <= i < |hidden| && 0 <= k < |hidden| && !hidden[i] && !hidden[k] ==> i == k
    ensures forall j :: 0 <= j < |hidden| && !hidden[j] ==> panelIds[j] == PanelId(name)
    ensures forall i :: 0 <= i < |buttonTabs| && buttonTabs[i] == name ==> active[i] && selected[i] == "true"
  {
  }

  /** The DOM of the educator panel. The tab buttons and panels are fixed
      collections of elements whose flags change in place; the segment
      regions are the elements `updateSegmentPanel` writes. */
  class EducatorPanel {
    const config: Config
    const buttonTabs: seq<string>
    const panelIds: seq<string>
    const buttonActive: array<bool>
    const buttonSelected: array<string>
    const panelHidden: array<bool>

    var intro: string
    var detailsHidden: bool
    var title: string
    var overview: string
    var bedrock: string
    var glacial: string
    var pois: string
    var concepts: string
    var activities: string

    ghost predicate Valid() {
      && buttonActive.Length == |buttonTabs|
      && buttonSelected.Length == |buttonTabs|
      && panelHidden.Length == |panelIds|
      && buttonActive != panelHidden
    }

    function View(): Regions
      reads this
    {
      Regions(intro, detailsHidden, title, overview, bedrock, glacial, pois, concepts, activities)
    }

    /** The tab strip shows `name`. */
    ghost predicate Shows(name: string)
      reads buttonActive, buttonSelected, panelHidden
    {
      TabsShow(buttonTabs, buttonActive[..], buttonSelected[..], panelIds, panelHidden[..], name)
    }

    /** The page as loaded: the table, the tab elements with their initial
        flags, and the initial regions; the default activities are captured
        from the initial activities region when that element exists. */
    constructor (content: map<string, Record>, buttonTabs: seq<string>, panelIds: seq<string>,
                 active: seq<bool>, selected: seq<string>, hidden: seq<bool>,
                 initial: Regions, hasActivitiesList: bool)
      requires |active| == |buttonTabs| && |selected| == |buttonTabs| && |hidden| == |panelIds|
      ensures Valid() && View() == initial
      ensures config == Config(content, hasActivitiesList, if hasActivitiesList then initial.activities else "")
      ensures this.buttonTabs == buttonTabs && this.panelIds == panelIds
      ensures buttonActive[..] == active && buttonSelected[..] == selected && panelHidden[..] == hidden
      ensures fresh(buttonActive) && fresh(buttonSelected) && fresh(panelHidden)
    {
      config := Config(content, hasActivitiesList, if hasActivitiesList then initial.activities else "");
      this.buttonTabs := buttonTabs;
      this.panelIds := panelIds;
      buttonActive := new bool[|active|](i requires 0 <= i < |active| => active[i]);
      buttonSelected := new string[|selected|](i requires 0 <= i < |selected| => selected[i]);
      panelHidden := new bool[|hidden|](i requires 0 <= i < |hidden| => hidden[i]);
      intro, detailsHidden, title := initial.intro, initial.detailsHidden, initial.title;
      overview, bedrock, glacial := initial.overview, initial.bedrock, initial.glacial;
      pois, concepts, activities := initial.pois, initial.concepts, initial.activities;
    }

    /** `setActiveTab`: one pass over the buttons, one over the panels. */
    method SetActiveTab(name: string)
      requires Valid()
      modifies buttonActive, buttonSelected, panelHidden
      ensures Valid() && Shows(name)
    {
      for i := 0 to buttonActive.Length
        invariant forall k :: 0 <= k < i ==> buttonActive[k] == (buttonTabs[k] == name)
        invariant forall k :: 0 <= k < i ==> buttonSelected[k] == BoolAttr(buttonTabs[k] == name)
      {
        var isActive := buttonTabs[i] == name;
        buttonActive[i] := isActive;
        buttonSelected[i] := BoolAttr(isActive);
      }
      for j := 0 to panelHidden.Length
        modifies panelHidden
        invariant forall k :: 0 <= k < j ==> panelHidden[k] == (panelIds[k] != PanelId(name))
      {
        var isMatch := panelIds[j] == PanelId(name);
        panelHidden[j] := !isMatch;
      }
    }

    /** The click handler of tab button `i` (app.js:176-181). */
    method ClickTabButton(i: nat)
      requires Valid() && i < |buttonTabs|
      modifies buttonActive, buttonSelected, panelHidden
      ensures Valid() && Shows(buttonTabs[i]) && buttonActive[i]
    {
      SetActiveTab(buttonTabs[i]);
    }

    /** `updateSegmentPanel(n)`: always switch to the segments tab, then
        render the regions for `n`. */
    method UpdateSegmentPanel(n: string)
      requires Valid()
      modifies this, buttonActive, buttonSelected, panelHidden
      ensures Valid() && Shows(SegmentsTab)
      ensures View() == Render(config, old(View()), n)
    {
      SetActiveTab(SegmentsTab);
      ghost var w := Render(config, View(), n);
      if n !in config.content {
        intro := NoContentMessage(n);
        detailsHidden := true;
        if config.hasActivitiesList {
          activities := config.defaultActivities;
        }
        assert View() == w;
        return;
      }
      var rec := config.content[n];
      intro := "";
      detailsHidden := false;
      title := n;
      overview := rec.overview;
      bedrock := rec.bedrock;
      glacial := rec.glacial;
      pois := rec.pois;
      concepts := rec.conceptsHtml;
      if config.hasActivitiesList {
        activities := SegmentActivities(n, rec, config.defaultActivities);
      }
      assert View() == w;
    }

    /** The map click handler once the hit test has answered: the panel
        changes only when the selection rule yields a segment name. */
    method HandleMapClick(hits: seq<TrailClick.Hit>)
      requires Valid()
      modifies this, buttonActive, buttonSelected, panelHidden
      ensures Valid()
      ensures TrailClick.SelectedSegment(hits).None? ==>
        View() == old(View()) && unchanged(buttonActive, buttonSelected, panelHidden)
      ensures TrailClick.SelectedSegment(hits).Some? ==>
        Shows(SegmentsTab) && View() == Render(config, old(View()), TrailClick.SelectedSegment(hits).value)
    {
      var selected := TrailClick.SelectedSegment(hits);
      if selected.Some? {
        UpdateSegmentPanel(selected.value);
      }
    }
  }

  /** Two updates with the same name leave the same tabs and regions as one. */
  method UpdateTwiceIsUpdateOnce(p: EducatorPanel, n: string)
    requires p.Valid()
    modifies p, p.buttonActive, p.buttonSelected, p.panelHidden
    ensures p.Valid() && p.Shows(SegmentsTab)
    ensures p.View() == Render(p.config, old(p.View()), n)
  {
    p.UpdateSegmentPanel(n);
    p.UpdateSegmentPanel(n);
    RenderIdempotent(p.config, old(p.View()), n);
  }
}
