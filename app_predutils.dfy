/** The predictor service's helpers. Models are loaded per drug from disk;
    here loading is a function from drug name to ensemble passed in by the
    caller. */
module AppPredUtils {
  import opened Common
  import opened Ensembles

  /** One drug with the predictions of all its members. */
  datatype RangeRecord = RangeRecord(drug: string, log10DR: seq<real>)

  /** The two parallel columns `predict_norange` returns. */
  datatype Columns = Columns(drug: seq<string>, log10DR: seq<real>)

  /** `predict_withrange` as written: the append stands after the loop, so
      only the record of the last drug is returned, and with no drugs the
      record variable was never bound. */
  method PredictWithRange(drugs: seq<string>, load: string -> Ensemble, datum: seq<real>) returns (r: Result<seq<RangeRecord>>)
    ensures |drugs| == 0 ==> r == Fail(NameError)
    ensures |drugs| > 0 ==> r.Ok? && |r.value| == 1
    ensures |drugs| > 0 ==> r.value[0].drug == drugs[|drugs| - 1]
    ensures |drugs| > 0 ==> r.value[0].log10DR == MemberPredictions(load(drugs[|drugs| - 1]), datum)
  {
    var allPredictions: seq<RangeRecord> := [];
    var data: Option<RangeRecord> := None;
    var i := 0;
    while i < |drugs|
      invariant 0 <= i <= |drugs|
      invariant i == 0 <==> data.None?
      invariant i > 0 ==> data == Some(RangeRecord(drugs[i - 1], MemberPredictions(load(drugs[i - 1]), datum)))
    {
      var drug := drugs[i];
      var model := load(drug);
      var prange := PredRange(model, datum);
      data := Some(RangeRecord(drug, prange));
      i := i + 1;
    }
    if data.None? {
      return Fail(NameError);
    }
    allPredictions := allPredictions + [data.value];
    r := Ok(allPredictions);
  }

  /** `predict_norange`: for every drug, in order, its name and its model's
      combined prediction. */
  method PredictNoRange(drugs: seq<string>, load: string -> Ensemble, datum: seq<real>) returns (preds: Columns)
    ensures preds.drug == drugs
    ensures |preds.log10DR| == |drugs|
    ensures forall i :: 0 <= i < |drugs| ==> preds.log10DR[i] == load(drugs[i]).aggregate(datum)
  {
    preds := Columns([], []);
    for i := 0 to |drugs|
      invariant preds.drug == drugs[..i]
      invariant |preds.log10DR| == i
      invariant forall j :: 0 <= j < i ==> preds.log10DR[j] == load(drugs[j]).aggregate(datum)
    {
      var drug := drugs[i];
      var mdl := load(drug);
      var pred := mdl.aggregate(datum);
      preds := preds.(drug := preds.drug + [drug], log10DR := preds.log10DR + [pred]);
    }
  }
}
