/**
 * Scoring profiles: a constant table of named category weightings, and the
 * three-way precedence that picks the weights for one request.
 */
module Scoring {
  import opened Wrappers

  /** One `category: weight` entry of a weights object, in insertion order. */
  datatype WeightEntry = WeightEntry(category: string, weight: real)
  type Weights = seq<WeightEntry>

  datatype Profile = Profile(id: string, name: string, description: string, weights: Weights)

  const ScoringProfiles: seq<Profile> := [
    Profile("balanced", "Balanced Essentials",
      "Even emphasis on hospitals, libraries, and retail.",
      [WeightEntry("Hospital", 0.4), WeightEntry("Library", 0.3), WeightEntry("Retail", 0.3)]),
    Profile("healthcare", "Health & Safety",
      "Prioritises quick access to hospitals and urgent care.",
      [WeightEntry("Hospital", 0.65), WeightEntry("Library", 0.1), WeightEntry("Retail", 0.25)]),
    Profile("families", "Family Friendly",
      "Highlights libraries and daily retail needs.",
      [WeightEntry("Hospital", 0.3), WeightEntry("Library", 0.45), WeightEntry("Retail", 0.25)])
  ]

  /** The sum of the weights, accumulated in entry order. */
  function TotalWeight(weights: Weights): real
  {
    if |weights| == 0 then 0.0 else TotalWeight(weights[..|weights| - 1]) + weights[|weights| - 1].weight
  }

  /** `profiles.find((profile) => profile.id === id)`: the first profile with that id. */
  function FindProfile(profiles: seq<Profile>, id: Option<string>): (r: Option<Profile>)
    ensures r.Some? ==> r.value in profiles && id == Some(r.value.id)
    ensures r.None? <==> forall i :: 0 <= i < |profiles| ==> id != Some(profiles[i].id)
    ensures r.Some? ==> exists i :: 0 <= i < |profiles| && profiles[i] == r.value
                          && forall j :: 0 <= j < i ==> id != Some(profiles[j].id)
  {
    if |profiles| == 0 then None
    else if id == Some(profiles[0].id) then Some(profiles[0])
    else
      var r := FindProfile(profiles[1..], id);
      assert forall j :: 1 <= j < |profiles| ==> profiles[1..][j - 1] == profiles[j];
      if r.Some? then
        var i :| 0 <= i < |profiles[1..]| && profiles[1..][i] == r.value
                 && forall j :: 0 <= j < i ==> id != Some(profiles[1..][j].id);
        assert profiles[i + 1] == r.value;
        r
      else r
  }

  /**
   * Custom weights win when present and non-empty; otherwise the profile
   * named `profileId`; otherwise the first (balanced) profile.
   */
  function ResolveWeights(profileId: Option<string>, customWeights: Option<Weights>): (w: Weights)
    ensures customWeights.Some? && |customWeights.value| > 0 ==> w == customWeights.value
    ensures !(customWeights.Some? && |customWeights.value| > 0) ==>
      exists i :: 0 <= i < |ScoringProfiles| && w == ScoringProfiles[i].weights
  {
    if customWeights.Some? && |customWeights.value| > 0 then customWeights.value
    else match FindProfile(ScoringProfiles, profileId)
      case Some(p) => p.weights
      case None => ScoringProfiles[0].weights
  }

  /** The built-in profile ids are pairwise distinct, so a lookup by id is unambiguous. */
  lemma ProfileIdsDistinct()
    ensures forall i, j :: 0 <= i < j < |ScoringProfiles| ==> ScoringProfiles[i].id != ScoringProfiles[j].id
  {
  }

  /** Every built-in weight is non-negative and each profile's weights sum to 1. */
  lemma ProfileWeightsNormalised()
    ensures forall i, k :: 0 <= i < |ScoringProfiles| && 0 <= k < |ScoringProfiles[i].weights| ==>
      ScoringProfiles[i].weights[k].weight >= 0.0
    ensures forall i :: 0 <= i < |ScoringProfiles| ==> TotalWeight(ScoringProfiles[i].weights) == 1.0
  {
    forall i | 0 <= i < |ScoringProfiles| ensures TotalWeight(ScoringProfiles[i].weights) == 1.0 {
      var w := ScoringProfiles[i].weights;
      assert w[..2][..1] == w[..1] && w[..3][..2] == w[..2] && w[..3] == w;
      assert TotalWeight(w[..1]) == w[0].weight;
      assert TotalWeight(w[..2]) == w[0].weight + w[1].weight;
    }
  }

  /** Without usable custom weights, a known profile id selects that profile's weights. */
  lemma NamedProfileSelected(i: int, customWeights: Option<Weights>)
    requires 0 <= i < |ScoringProfiles|
    requires customWeights.None? || |customWeights.value| == 0
    ensures ResolveWeights(Some(ScoringProfiles[i].id), customWeights) == ScoringProfiles[i].weights
  {
    ProfileIdsDistinct();
  }

  /** Without usable custom weights, an unknown or absent id falls back to the balanced profile. */
  lemma UnknownProfileFallsBack(profileId: Option<string>, customWeights: Option<Weights>)
    requires customWeights.None? || |customWeights.value| == 0
    requires forall i :: 0 <= i < |ScoringProfiles| ==> profileId != Some(ScoringProfiles[i].id)
    ensures ResolveWeights(profileId, customWeights) == ScoringProfiles[0].weights
    ensures ScoringProfiles[0].id == "balanced"
  {
  }
}
