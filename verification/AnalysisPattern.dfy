// The checks an analysis pattern passes before a feature ledger is built from it
// (services/agent-server/recall/analysis_pattern.go).
module AnalysisPattern {
  import opened Wrappers
  import opened FeatureLedgers

  datatype PatternError =
    | NoFeatures
    | MissingId(index: nat)
    | MissingBehavior(index: nat)
    | MissingVerification(index: nat)
    | DuplicateId(index: nat)
    | NoTemplate

  predicate Complete(f: Feature) {
    f.id != "" && f.behavior != "" && f.verification != ""
  }

  ghost predicate UniqueIds(features: seq<Feature>) {
    forall i, j :: 0 <= i < j < |features| ==> features[i].id != features[j].id
  }

  /** Nothing is wrong with the features so far. */
  ghost predicate Sound(features: seq<Feature>) {
    (forall i :: 0 <= i < |features| ==> Complete(features[i])) && UniqueIds(features)
  }

  ghost predicate Accepted(features: seq<Feature>, template: string) {
    features != [] && Sound(features) && template != ""
  }

  /** The error names the first fault: everything checked before it is in order. */
  ghost predicate Explains(features: seq<Feature>, template: string, err: PatternError) {
    match err
    case NoFeatures => features == []
    case MissingId(i) => i < |features| && Sound(features[..i]) && features[i].id == ""
    case MissingBehavior(i) => i < |features| && Sound(features[..i]) && features[i].id != "" && features[i].behavior == ""
    case MissingVerification(i) =>
      && i < |features| && Sound(features[..i])
      && features[i].id != "" && features[i].behavior != "" && features[i].verification == ""
    case DuplicateId(i) =>
      && i < |features| && Sound(features[..i]) && Complete(features[i])
      && exists j :: 0 <= j < i && features[j].id == features[i].id
    case NoTemplate => features != [] && Sound(features) && template == ""
  }

  /** Accepts exactly the complete patterns with unique feature ids, and otherwise names the first fault. */
  method CheckPattern(features: seq<Feature>, template: string) returns (err: Option<PatternError>)
    ensures err.None? <==> Accepted(features, template)
    ensures err.Some? ==> Explains(features, template, err.value)
  {
    if |features| == 0 {
      return Some(NoFeatures);
    }
    var seen: set<string> := {};
    for i := 0 to |features|
      invariant Sound(features[..i])
      invariant forall id :: id in seen <==> exists j :: 0 <= j < i && features[j].id == id
    {
      var f := features[i];
      assert features[..i + 1] == features[..i] + [f];
      if f.id == "" {
        assert !Complete(features[i]);
        return Some(MissingId(i));
      }
      if f.behavior == "" {
        assert !Complete(features[i]);
        return Some(MissingBehavior(i));
      }
      if f.verification == "" {
        assert !Complete(features[i]);
        return Some(MissingVerification(i));
      }
      if f.id in seen {
        return Some(DuplicateId(i));
      }
      seen := seen + {f.id};
    }
    assert features[..|features|] == features;
    err := if template == "" then Some(NoTemplate) else None;
  }
}
