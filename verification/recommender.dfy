/** Preset recommendation: the first framework of a fixed priority list that
    was detected, else the docker, headless and generic fallbacks in turn. */
module Recommender {
  import opened Wrappers
  import opened Classifier

  /** The frameworks that win over every fallback, most preferred first. */
  const Priority: seq<string> := ["angular", "ionic", "next", "react", "laravel"]

  /** `frameworks.some((fw) => fw.id === id)` */
  predicate Present(frameworks: seq<FrameworkMatch>, id: string) {
    exists k :: 0 <= k < |frameworks| && frameworks[k].id == id
  }

  /** The first identifier of `ids` that is present. */
  function FirstPresent(frameworks: seq<FrameworkMatch>, ids: seq<string>): (r: Option<string>)
    ensures r.None? <==> forall i :: 0 <= i < |ids| ==> !Present(frameworks, ids[i])
    ensures r.Some? ==> exists i :: (0 <= i < |ids| && ids[i] == r.value && Present(frameworks, r.value)
      && forall j :: 0 <= j < i ==> !Present(frameworks, ids[j]))
  {
    if ids == [] then None
    else if Present(frameworks, ids[0]) then Some(ids[0])
    else
      var r := FirstPresent(frameworks, ids[1..]);
      assert forall i :: 1 <= i < |ids| ==> ids[i] == ids[1..][i - 1];
      if r.Some? then
        var i :| 0 <= i < |ids| - 1 && ids[1..][i] == r.value && Present(frameworks, r.value)
          && forall j :: 0 <= j < i ==> !Present(frameworks, ids[1..][j]);
        assert ids[i + 1] == r.value;
        r
      else r
  }

  /** `choosePreset(frameworks, hasDockerOnly, hasHeadlessFallback)` */
  function ChoosePreset(frameworks: seq<FrameworkMatch>, hasDockerOnly: bool, hasHeadlessFallback: bool): (r: string)
    ensures r != ""
    ensures r in Priority ==> Present(frameworks, r)
    ensures forall i :: 0 <= i < |Priority| && Priority[i] == r ==> forall j :: 0 <= j < i ==> !Present(frameworks, Priority[j])
    ensures (exists i :: 0 <= i < |Priority| && Present(frameworks, Priority[i])) ==> r in Priority
    ensures (forall i :: 0 <= i < |Priority| ==> !Present(frameworks, Priority[i])) ==>
      r == (if hasDockerOnly then "docker" else if hasHeadlessFallback then "headless" else "generic")
  {
    match FirstPresent(frameworks, Priority)
    case Some(id) => id
    case None => if hasDockerOnly then "docker" else if hasHeadlessFallback then "headless" else "generic"
  }

  /** Every preset the recommender can name. */
  const Presets: set<string> := {"angular", "ionic", "next", "react", "laravel", "docker", "headless", "generic"}

  lemma ChoosePresetKnown(frameworks: seq<FrameworkMatch>, hasDockerOnly: bool, hasHeadlessFallback: bool)
    ensures ChoosePreset(frameworks, hasDockerOnly, hasHeadlessFallback) in Presets
  {
  }

  /** Only which priority identifiers are present matters: neither the
      order of the detected frameworks nor any other entry changes the
      recommendation. */
  lemma {:induction false} PresenceDetermines(f1: seq<FrameworkMatch>, f2: seq<FrameworkMatch>, ids: seq<string>)
    requires forall i :: 0 <= i < |ids| ==> (Present(f1, ids[i]) <==> Present(f2, ids[i]))
    ensures FirstPresent(f1, ids) == FirstPresent(f2, ids)
  {
    if ids != [] {
      assert forall i :: 0 <= i < |ids| - 1 ==> ids[1..][i] == ids[i + 1];
      PresenceDetermines(f1, f2, ids[1..]);
    }
  }

  lemma ChoosePresetByPresence(f1: seq<FrameworkMatch>, f2: seq<FrameworkMatch>, hasDockerOnly: bool, hasHeadlessFallback: bool)
    requires forall i :: 0 <= i < |Priority| ==> (Present(f1, Priority[i]) <==> Present(f2, Priority[i]))
    ensures ChoosePreset(f1, hasDockerOnly, hasHeadlessFallback) == ChoosePreset(f2, hasDockerOnly, hasHeadlessFallback)
  {
    PresenceDetermines(f1, f2, Priority);
  }
}
