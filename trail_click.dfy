/** The rule by which a map click selects a trail segment (app.js:479-489).
    The map engine's hit test is not modelled; its answer is a sequence of
    hits, front first, and the rule takes the first hit on the trail layer
    and acts only when that hit's `Segment` attribute is truthy. */
module TrailClick {
  import opened Wrappers

  /** The layers a hit can come from; `OtherLayer` covers the basemap and
      anything else the engine reports. */
  datatype Layer = BedrockGeology | GlacialGeology | SectionsHalo | SectionsTop | PoiLayer | Parking | OtherLayer

  /** A hit graphic: its layer and its `Segment` attribute, `None` when the
      attributes object or the attribute is missing or null. */
  datatype Graphic = Graphic(layer: Layer, segment: Option<string>)

  /** One hit-test result; `graphic` is `None` when the result has none. */
  datatype Hit = Hit(graphic: Option<Graphic>)

  /** The predicate handed to `find`: a graphic on the top trail layer. */
  predicate OnTrail(h: Hit) {
    h.graphic.Some? && h.graphic.value.layer == SectionsTop
  }

  /** JavaScript truthiness of a string attribute. */
  predicate Truthy(segment: Option<string>) {
    segment.Some? && segment.value != ""
  }

  /** `i` is the hit `find` returns: on the trail, and no earlier hit is. */
  ghost predicate FirstOnTrail(hits: seq<Hit>, i: int) {
    0 <= i < |hits| && OnTrail(hits[i]) && forall j :: 0 <= j < i ==> !OnTrail(hits[j])
  }

  /** `Array.prototype.find` with `OnTrail`, returning the index found. */
  function FindTrailHit(hits: seq<Hit>): (r: Option<nat>)
    ensures r.Some? ==> FirstOnTrail(hits, r.value)
    ensures r.None? ==> forall j :: 0 <= j < |hits| ==> !OnTrail(hits[j])
  {
    if hits == [] then None
    else if OnTrail(hits[0]) then Some(0)
    else
      match FindTrailHit(hits[1..])
      case None => None
      case Some(i) => Some(i + 1)
  }

  /** The segment name the click handler passes to the panel, if any. */
  function SelectedSegment(hits: seq<Hit>): (r: Option<string>)
    ensures r.Some? <==> exists i :: FirstOnTrail(hits, i) && Truthy(hits[i].graphic.value.segment)
    ensures r.Some? ==> r.value != "" && exists i :: FirstOnTrail(hits, i) && hits[i].graphic.value.segment == r
  {
    match FindTrailHit(hits)
    case None => None
    case Some(i) =>
      var segment := hits[i].graphic.value.segment;
      if Truthy(segment) then segment else None
  }

  /** Only one hit index can be the one `find` returns. */
  lemma FirstOnTrailUnique(hits: seq<Hit>, i: int, k: int)
    requires FirstOnTrail(hits, i) && FirstOnTrail(hits, k)
    ensures i == k
  {
  }

  /** Hits in front of the first trail hit are ignored, and so is every hit
      behind it: a later trail hit with a name is not used when the first
      trail hit has none. */
  lemma {:induction false} OnlyFirstTrailHitCounts(front: seq<Hit>, h: Hit, back: seq<Hit>)
    requires forall j :: 0 <= j < |front| ==> !OnTrail(front[j])
    requires OnTrail(h)
    ensures SelectedSegment(front + [h] + back) == if Truthy(h.graphic.value.segment) then h.graphic.value.segment else None
  {
    var hits := front + [h] + back;
    assert FirstOnTrail(hits, |front|);
    var r := FindTrailHit(hits);
    if r.Some? {
      FirstOnTrailUnique(hits, r.value, |front|);
    }
  }

  /** A click whose hits miss the trail layer selects nothing. */
  lemma MissSelectsNothing(hits: seq<Hit>)
    requires forall j :: 0 <= j < |hits| ==> !OnTrail(hits[j])
    ensures SelectedSegment(hits) == None
  {
  }
}
