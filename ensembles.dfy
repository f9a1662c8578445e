/** A trained ensemble regressor, seen from the outside: its member
    estimators, each a prediction function on one feature vector, and the
    ensemble's own combined prediction. Training and the members' insides
    are not part of this model. */
module Ensembles {

  datatype Ensemble = Ensemble(members: seq<seq<real> -> real>, aggregate: seq<real> -> real)

  /** What the members predict for `datum`, in member order. */
  function MemberPredictions(model: Ensemble, datum: seq<real>): (r: seq<real>)
    ensures |r| == |model.members|
    ensures forall i :: 0 <= i < |r| ==> r[i] == model.members[i](datum)
  {
    seq(|model.members|, i requires 0 <= i < |model.members| => model.members[i](datum))
  }

  /** `pred_range`: a zero-filled array with one slot per member, slot i set
      to member i's prediction. */
  method PredRange(model: Ensemble, datum: seq<real>) returns (preds: seq<real>)
    ensures preds == MemberPredictions(model, datum)
  {
    var n := |model.members|;
    var slots := new real[n](_ => 0.0);
    var i := 0;
    while i < n
      invariant 0 <= i <= n
      invariant forall j :: 0 <= j < i ==> slots[j] == model.members[j](datum)
    {
      slots[i] := model.members[i](datum);
      i := i + 1;
    }
    preds := slots[..];
  }
}
