/** `fetch_cost_optimization_hub_recommendations` (theOGagent.py:89-138):
    one flat record per Cost Optimization Hub recommendation, passed through
    a DataFrame and back. The `list_recommendations` call is the input. */
module CostOptimizationHub {
  import opened Values
  import opened Frames

  /** A recommendation as the SDK returns it: field name to value. */
  type Item = map<string, Value>

  /** `rec.get(field, default)` */
  function Get(rec: Item, field: string, default: Value): Value {
    if field in rec then rec[field] else default
  }

  /** The output labels, in the order of the dict literal of lines 119-133. */
  const Labels: seq<string> := [
    "Recommendation ID", "Resource Type", "Resource ID",
    "Estimated Monthly Savings ($)", "Estimated Savings Percentage",
    "Estimated Monthly Cost ($)", "Implementation Effort",
    "Is Resource Restart Needed", "Is Rollback Possible",
    "Top Recommended Action", "Current Resource Summary",
    "Recommended Resource Summary", "Currency"]

  /** The SDK field each label is read from, position by position. */
  const SourceFields: seq<string> := [
    "recommendationId", "currentResourceType", "resourceId",
    "estimatedMonthlySavings", "estimatedSavingsPercentage",
    "estimatedMonthlyCost", "implementationEffort",
    "restartNeeded", "rollbackPossible",
    "actionType", "currentResourceSummary",
    "recommendedResourceSummary", "currencyCode"]

  /** What a label holds when its field is missing: 0.0 for the two dollar
      amounts, "N/A" for everything else. */
  function DefaultFor(name: string): Value {
    if name == "Estimated Monthly Savings ($)" || name == "Estimated Monthly Cost ($)" then Num(0.0)
    else NotAvailable
  }

  const NoRecommendations: string := "No recommendations found."

  /** The dict literal of lines 119-133 for one recommendation. */
  function MapItem(rec: Item): Row {
    [("Recommendation ID", Get(rec, "recommendationId", NotAvailable)),
     ("Resource Type", Get(rec, "currentResourceType", NotAvailable)),
     ("Resource ID", Get(rec, "resourceId", NotAvailable)),
     ("Estimated Monthly Savings ($)", Get(rec, "estimatedMonthlySavings", Num(0.0))),
     ("Estimated Savings Percentage", Get(rec, "estimatedSavingsPercentage", NotAvailable)),
     ("Estimated Monthly Cost ($)", Get(rec, "estimatedMonthlyCost", Num(0.0))),
     ("Implementation Effort", Get(rec, "implementationEffort", NotAvailable)),
     ("Is Resource Restart Needed", Get(rec, "restartNeeded", NotAvailable)),
     ("Is Rollback Possible", Get(rec, "rollbackPossible", NotAvailable)),
     ("Top Recommended Action", Get(rec, "actionType", NotAvailable)),
     ("Current Resource Summary", Get(rec, "currentResourceSummary", NotAvailable)),
     ("Recommended Resource Summary", Get(rec, "recommendedResourceSummary", NotAvailable)),
     ("Currency", Get(rec, "currencyCode", NotAvailable))]
  }

  /** No label is used twice, so no field of the literal overwrites another. */
  lemma LabelsDistinct()
    ensures Distinct(Labels)
  {
  }

  /** Every record has the thirteen labels, in the order of the literal. */
  lemma MapItemKeys(rec: Item)
    ensures Keys(MapItem(rec)) == Labels
  {
  }

  /** Position i of a record holds label i and what `rec.get` gives for
      SDK field i, with that label's default. */
  lemma MapItemAt(rec: Item, i: nat)
    requires i < |Labels|
    ensures MapItem(rec)[i] == (Labels[i], Get(rec, SourceFields[i], DefaultFor(Labels[i])))
  {
  }

  /** Looking up label i finds SDK field i when the recommendation has it,
      and the label's default when it does not. */
  lemma MapItemField(rec: Item, i: nat)
    requires i < |Labels|
    ensures Lookup(MapItem(rec), Labels[i]) == Some(Get(rec, SourceFields[i], DefaultFor(Labels[i])))
  {
    MapItemKeys(rec);
    LabelsDistinct();
    MapItemAt(rec, i);
    LookupAt(MapItem(rec), i);
  }

  /** Fields outside the thirteen are ignored. */
  lemma MapItemIgnoresOtherFields(rec: Item, rec': Item)
    requires forall f :: f in SourceFields ==> (f in rec <==> f in rec') && (f in rec ==> rec[f] == rec'[f])
    ensures MapItem(rec) == MapItem(rec')
  {
    var a, b := MapItem(rec), MapItem(rec');
    forall i | 0 <= i < |Labels| ensures a[i] == b[i] {
      assert SourceFields[i] in SourceFields;
      assert Get(rec, SourceFields[i], DefaultFor(Labels[i])) == Get(rec', SourceFields[i], DefaultFor(Labels[i]));
      MapItemAt(rec, i);
      MapItemAt(rec', i);
    }
    assert |a| == |b|;
  }

  /** A recommendation with only an id and a saving: the saving is copied,
      the cost defaults to 0.0 and the action to "N/A". */
  lemma MapItemExample(id: string, saving: real)
    ensures var r := MapItem(map["recommendationId" := Str(id), "estimatedMonthlySavings" := Num(saving)]);
      Lookup(r, "Recommendation ID") == Some(Str(id)) &&
      Lookup(r, "Estimated Monthly Savings ($)") == Some(Num(saving)) &&
      Lookup(r, "Estimated Monthly Cost ($)") == Some(Num(0.0)) &&
      Lookup(r, "Top Recommended Action") == Some(NotAvailable)
  {
    var rec := map["recommendationId" := Str(id), "estimatedMonthlySavings" := Num(saving)];
    MapItemField(rec, 0);
    MapItemField(rec, 3);
    MapItemField(rec, 5);
    MapItemField(rec, 9);
  }

  /** What the function returns for the recommendations the call listed. */
  function HubReport(items: seq<Item>): ToolOutput {
    if items == [] then Message(NoRecommendations)
    else Records(seq(|items|, i requires 0 <= i < |items| => MapItem(items[i])))
  }

  /** Lines 113-138, with `response.get('items', [])` as the input. The
      DataFrame round trip of lines 135-137 hands the records back unchanged,
      since all of them share the same thirteen labels. */
  method FetchHub(response: Option<seq<Item>>) returns (out: ToolOutput)
    ensures out == HubReport(response.GetOr([]))
  {
    var recommendations := response.GetOr([]);
    var data: seq<Row> := [];
    for i := 0 to |recommendations|
      invariant data == seq(i, j requires 0 <= j < i => MapItem(recommendations[j]))
    {
      data := data + [MapItem(recommendations[i])];
    }
    if data != [] {
      var df := FromRecords(data);
      HubRoundTrip(recommendations);
      out := Records(ToRecords(df));
    } else {
      out := Message(NoRecommendations);
    }
  }

  /** Lines 135-137: the DataFrame built from the records hands them back
      unchanged, since all of them share the same thirteen labels. */
  lemma HubRoundTrip(items: seq<Item>)
    ensures var data := seq(|items|, i requires 0 <= i < |items| => MapItem(items[i]));
      ToRecords(FromRecords(data)) == data
  {
    var data := seq(|items|, i requires 0 <= i < |items| => MapItem(items[i]));
    AllKeyedByLabels(items);
    LabelsDistinct();
    UniformRoundTrip(data, Labels);
  }

  /** The records of a whole listing all share the thirteen labels. */
  lemma AllKeyedByLabels(items: seq<Item>)
    ensures forall i :: 0 <= i < |items| ==> Keys(MapItem(items[i])) == Labels
  {
    forall i | 0 <= i < |items| ensures Keys(MapItem(items[i])) == Labels {
      MapItemKeys(items[i]);
    }
  }

  /** The message comes back exactly when nothing was listed; otherwise one
      record per recommendation, in order, each keyed by the thirteen labels. */
  lemma HubReportShape(items: seq<Item>)
    ensures HubReport(items).Message? <==> items == []
    ensures HubReport(items).Message? ==> HubReport(items).text == NoRecommendations
    ensures HubReport(items).Records? ==>
      |HubReport(items).rows| == |items| &&
      forall i :: 0 <= i < |items| ==> Keys(HubReport(items).rows[i]) == Labels
  {
    forall i | 0 <= i < |items| ensures Keys(MapItem(items[i])) == Labels {
      MapItemKeys(items[i]);
    }
  }
}
