/** `fetch_optimized_trusted_advisor_data` (theOGagent.py:33-84): flatten the
    flagged resources of every cost-optimisation check into rows, drop the
    columns that carry one value only, and sort by the first savings column. */
module TrustedAdvisor {
  import opened Values
  import opened Text
  import opened Frames

  /** One entry of the `checks` list `describe_trusted_advisor_checks` returns. */
  datatype Check = Check(id: string, name: string, category: string, metadata: Option<seq<string>>)

  /** One entry of a check result's `flaggedResources` list. */
  datatype Resource = Resource(resourceId: Option<string>, status: Option<string>, metadata: Option<seq<Value>>)

  /** The `result` object `describe_trusted_advisor_check_result` returns. */
  datatype CheckResult = CheckResult(flaggedResources: Option<seq<Resource>>)

  // ---------------------------------------------------------------------
  // Line 44: the cost checks
  // ---------------------------------------------------------------------

  predicate IsCostCheck(c: Check) {
    Contains(Lower(c.category), "cost")
  }

  /** `[check for check in checks if 'cost' in check['category'].lower()]` */
  function CostChecks(checks: seq<Check>): (r: seq<Check>)
    ensures forall c :: c in r <==> c in checks && IsCostCheck(c)
    ensures |r| <= |checks|
  {
    if checks == [] then []
    else
      assert forall c :: c in checks <==> c == checks[0] || c in checks[1..];
      (if IsCostCheck(checks[0]) then [checks[0]] else []) + CostChecks(checks[1..])
  }

  lemma {:induction false} CostChecksConcat(a: seq<Check>, b: seq<Check>)
    ensures CostChecks(a + b) == CostChecks(a) + CostChecks(b)
  {
    if a == [] {
      assert a + b == b;
    } else {
      assert (a + b)[0] == a[0] && (a + b)[1..] == a[1..] + b;
      CostChecksConcat(a[1..], b);
    }
  }

  /** The category test ignores case: AWS's own spelling and others all count. */
  lemma CostCategoryExamples()
    ensures IsCostCheck(Check("Qch7DwouX1", "Low Utilization Amazon EC2 Instances", "cost_optimizing", None))
    ensures IsCostCheck(Check("x", "y", "Cost Optimizing", None))
    ensures !IsCostCheck(Check("x", "y", "security", None))
  {
    assert Lower("cost_optimizing")[..4] == "cost";
    assert Lower("Cost Optimizing")[..4] == "cost";
    var s := Lower("security");
    assert s == "security";
    ContainsIffOccurs(s, "cost");
    forall i | 0 <= i <= |s| ensures !IsPrefix("cost", s[i..]) {
      if i + 4 <= |s| { assert s[i..][..4][0] != 'c' || s[i..][..4][1] != 'o'; }
    }
  }

  // ---------------------------------------------------------------------
  // Lines 57-64: one row per flagged resource
  // ---------------------------------------------------------------------

  const FixedKeys: seq<string> := ["Check Name", "Resource ID", "Status"]

  /** The dict literal of lines 57-61. */
  function BaseEntry(name: string, res: Resource): Row {
    [("Check Name", Str(name)),
     ("Resource ID", Str(res.resourceId.GetOr("N/A"))),
     ("Status", Str(res.status.GetOr("N/A")))]
  }

  /** `metadata[i] if i < len(metadata) else 'N/A'` */
  function MetadataAt(values: seq<Value>, i: nat): Value {
    if i < |values| then values[i] else NotAvailable
  }

  /** The entry after the loop of lines 63-64 has assigned its first `n` keys. */
  function WithMetadata(base: Row, keys: seq<string>, values: seq<Value>, n: nat): Row
    requires n <= |keys|
  {
    if n == 0 then base
    else Set(WithMetadata(base, keys, values, n - 1), keys[n - 1], MetadataAt(values, n - 1))
  }

  /** The row built for one flagged resource of a check. */
  function Entry(name: string, keys: seq<string>, res: Resource): Row {
    WithMetadata(BaseEntry(name, res), keys, res.metadata.GetOr([]), |keys|)
  }

  /** Lines 57-64: the entry dict, filled in key by key. */
  method BuildEntry(name: string, keys: seq<string>, res: Resource) returns (entry: Row)
    ensures entry == Entry(name, keys, res)
  {
    entry := BaseEntry(name, res);
    var metadata := res.metadata.GetOr([]);
    for i := 0 to |keys|
      invariant entry == WithMetadata(BaseEntry(name, res), keys, metadata, i)
    {
      entry := Set(entry, keys[i], if i < |metadata| then metadata[i] else NotAvailable);
    }
  }

  /** One step of the loop of lines 63-64, as seen by the assigned key. */
  lemma WithMetadataAssigned(base: Row, keys: seq<string>, values: seq<Value>, n: nat)
    requires 0 < n <= |keys|
    ensures Lookup(WithMetadata(base, keys, values, n), keys[n - 1]) == Some(MetadataAt(values, n - 1))
  {
    SetLookup(WithMetadata(base, keys, values, n - 1), keys[n - 1], MetadataAt(values, n - 1), keys[n - 1]);
  }

  /** One step of the loop of lines 63-64, as seen by every other key. */
  lemma WithMetadataUntouched(base: Row, keys: seq<string>, values: seq<Value>, n: nat, k: string)
    requires 0 < n <= |keys| && keys[n - 1] != k
    ensures Lookup(WithMetadata(base, keys, values, n), k) == Lookup(WithMetadata(base, keys, values, n - 1), k)
  {
    SetLookup(WithMetadata(base, keys, values, n - 1), keys[n - 1], MetadataAt(values, n - 1), k);
  }

  /** One step of the loop of lines 63-64, as seen by the key order. */
  lemma WithMetadataKeyStep(base: Row, keys: seq<string>, values: seq<Value>, n: nat)
    requires 0 < n <= |keys|
    ensures var prev := Keys(WithMetadata(base, keys, values, n - 1));
      Keys(WithMetadata(base, keys, values, n)) == if keys[n - 1] in prev then prev else prev + [keys[n - 1]]
    ensures Distinct(Keys(WithMetadata(base, keys, values, n - 1))) ==> Distinct(Keys(WithMetadata(base, keys, values, n)))
  {
    var prev := WithMetadata(base, keys, values, n - 1);
    SetKeys(prev, keys[n - 1], MetadataAt(values, n - 1));
    if Distinct(Keys(prev)) {
      SetKeepsKeysDistinct(prev, keys[n - 1], MetadataAt(values, n - 1));
    }
  }

  /** What appending a key when it is absent does to the key list. */
  lemma AppendIfAbsent(prev: seq<string>, x: string, m: nat, k: string)
    requires m <= |prev|
    ensures var ks := if x in prev then prev else prev + [x];
      |prev| <= |ks| && ks[..m] == prev[..m] && (k in ks <==> k in prev || k == x)
  {
    if x !in prev {
      assert (prev + [x])[..m] == prev[..m];
    }
  }

  lemma PrefixStep(keys: seq<string>, n: nat, k: string)
    requires 0 < n <= |keys|
    ensures k in keys[..n] <==> k in keys[..n - 1] || k == keys[n - 1]
  {
    assert keys[..n] == keys[..n - 1] + [keys[n - 1]];
  }

  /** The loop of lines 63-64 keeps the keys distinct and the fixed ones first. */
  lemma {:induction false} WithMetadataKeys(base: Row, keys: seq<string>, values: seq<Value>, n: nat)
    requires n <= |keys| && Distinct(Keys(base))
    ensures var e := WithMetadata(base, keys, values, n);
      Distinct(Keys(e)) && |base| <= |e| && Keys(e)[..|base|] == Keys(base)
  {
    if n > 0 {
      var prev := Keys(WithMetadata(base, keys, values, n - 1));
      WithMetadataKeys(base, keys, values, n - 1);
      WithMetadataKeyStep(base, keys, values, n);
      AppendIfAbsent(prev, keys[n - 1], |base|, "");
    }
  }

  /** The loop of lines 63-64 adds the keys it assigns in the order it
      meets them, as the DataFrame constructor adds columns. */
  lemma {:induction false} WithMetadataKeyOrder(base: Row, keys: seq<string>, values: seq<Value>, n: nat)
    requires n <= |keys|
    ensures Keys(WithMetadata(base, keys, values, n)) == AddKeys(Keys(base), keys[..n])
  {
    if n == 0 {
      assert keys[..0] == [];
    } else {
      WithMetadataKeyOrder(base, keys, values, n - 1);
      WithMetadataKeyStep(base, keys, values, n);
      AddKeysSnoc(Keys(base), keys, n);
    }
  }

  /** After assigning the first `n` keys, the entry has exactly the fixed
      keys and those `n`. */
  lemma {:induction false} WithMetadataKeyMembers(base: Row, keys: seq<string>, values: seq<Value>, n: nat, k: string)
    requires n <= |keys|
    ensures k in Keys(WithMetadata(base, keys, values, n)) <==> k in Keys(base) || k in keys[..n]
  {
    if n > 0 {
      var prev := Keys(WithMetadata(base, keys, values, n - 1));
      WithMetadataKeyMembers(base, keys, values, n - 1, k);
      WithMetadataKeyStep(base, keys, values, n);
      AppendIfAbsent(prev, keys[n - 1], 0, k);
      PrefixStep(keys, n, k);
    }
  }

  lemma {:induction false} WithMetadataValue(base: Row, keys: seq<string>, values: seq<Value>, n: nat, i: nat)
    requires i < n <= |keys|
    requires forall j :: i < j < n ==> keys[j] != keys[i]
    ensures Lookup(WithMetadata(base, keys, values, n), keys[i]) == Some(MetadataAt(values, i))
  {
    if i < n - 1 {
      WithMetadataValue(base, keys, values, n - 1, i);
      WithMetadataUntouched(base, keys, values, n, keys[i]);
    } else {
      WithMetadataAssigned(base, keys, values, n);
    }
  }

  lemma {:induction false} WithMetadataOther(base: Row, keys: seq<string>, values: seq<Value>, n: nat, k: string)
    requires n <= |keys| && k !in keys[..n]
    ensures Lookup(WithMetadata(base, keys, values, n), k) == Lookup(base, k)
  {
    if n > 0 {
      assert keys[..n] == keys[..n - 1] + [keys[n - 1]];
      WithMetadataOther(base, keys, values, n - 1, k);
      WithMetadataUntouched(base, keys, values, n, k);
    }
  }

  lemma {:induction false} WithMetadataAgree(base: Row, keys: seq<string>, values: seq<Value>, values': seq<Value>, n: nat)
    requires n <= |keys|
    requires forall i :: 0 <= i < n ==> MetadataAt(values, i) == MetadataAt(values', i)
    ensures WithMetadata(base, keys, values, n) == WithMetadata(base, keys, values', n)
  {
    if n > 0 {
      WithMetadataAgree(base, keys, values, values', n - 1);
      assert MetadataAt(values, n - 1) == MetadataAt(values', n - 1);
    }
  }

  /** A row's keys: the three fixed ones first, then the check's metadata
      keys, each once. */
  lemma EntryKeys(name: string, keys: seq<string>, res: Resource)
    ensures var e := Entry(name, keys, res);
      Distinct(Keys(e)) && |e| >= 3 && Keys(e)[..3] == FixedKeys &&
      forall k :: k in Keys(e) <==> k in FixedKeys || k in keys
    ensures Keys(Entry(name, keys, res)) == FirstSeen(FixedKeys + keys)
  {
    var base := BaseEntry(name, res);
    assert Keys(base) == FixedKeys;
    assert keys[..|keys|] == keys;
    WithMetadataKeys(base, keys, res.metadata.GetOr([]), |keys|);
    WithMetadataKeyOrder(base, keys, res.metadata.GetOr([]), |keys|);
    AddKeysFirstSeen(FixedKeys, keys);
    forall k ensures k in Keys(Entry(name, keys, res)) <==> k in FixedKeys || k in keys {
      WithMetadataKeyMembers(base, keys, res.metadata.GetOr([]), |keys|, k);
    }
  }

  /** The i-th metadata key holds the i-th metadata value, or "N/A" past the
      end of the values (a key listed twice keeps its last assignment). */
  lemma EntryMetadata(name: string, keys: seq<string>, res: Resource, i: nat)
    requires i < |keys| && forall j :: i < j < |keys| ==> keys[j] != keys[i]
    ensures Lookup(Entry(name, keys, res), keys[i]) == Some(MetadataAt(res.metadata.GetOr([]), i))
  {
    WithMetadataValue(BaseEntry(name, res), keys, res.metadata.GetOr([]), |keys|, i);
  }

  /** The fixed fields: the check's name, and the resource's id and status or
      "N/A" where the resource has none, unless a metadata key reuses the name. */
  lemma EntryFixedFields(name: string, keys: seq<string>, res: Resource)
    ensures "Check Name" !in keys ==> Lookup(Entry(name, keys, res), "Check Name") == Some(Str(name))
    ensures "Resource ID" !in keys ==>
      Lookup(Entry(name, keys, res), "Resource ID") == Some(Str(res.resourceId.GetOr("N/A")))
    ensures "Status" !in keys ==> Lookup(Entry(name, keys, res), "Status") == Some(Str(res.status.GetOr("N/A")))
  {
    var base := BaseEntry(name, res);
    var values := res.metadata.GetOr([]);
    assert keys[..|keys|] == keys;
    assert base[1..] == [base[1], base[2]] && base[1..][1..] == [base[2]];
    if "Check Name" !in keys {
      WithMetadataOther(base, keys, values, |keys|, "Check Name");
    }
    if "Resource ID" !in keys {
      WithMetadataOther(base, keys, values, |keys|, "Resource ID");
    }
    if "Status" !in keys {
      WithMetadataOther(base, keys, values, |keys|, "Status");
      assert Lookup(base[1..][1..], "Status") == Some(Str(res.status.GetOr("N/A")));
      assert Lookup(base[1..], "Status") == Lookup(base[1..][1..], "Status");
    }
  }

  /** Metadata values beyond the number of keys are ignored. */
  lemma EntryIgnoresExtraMetadata(name: string, keys: seq<string>, res: Resource)
    requires res.metadata.Some? && |res.metadata.value| > |keys|
    ensures Entry(name, keys, res) == Entry(name, keys, res.(metadata := Some(res.metadata.value[..|keys|])))
  {
    WithMetadataAgree(BaseEntry(name, res), keys, res.metadata.value, res.metadata.value[..|keys|], |keys|);
  }

  /** Keys ["A", "B"] against values ["x"] give A = "x" and B = "N/A". */
  lemma EntryPaddingExample()
    ensures var e := Entry("Idle Load Balancers", ["A", "B"], Resource(Some("lb-1"), Some("warning"), Some([Str("x")])));
      Lookup(e, "A") == Some(Str("x")) && Lookup(e, "B") == Some(NotAvailable) &&
      Lookup(e, "Check Name") == Some(Str("Idle Load Balancers"))
  {
    var res := Resource(Some("lb-1"), Some("warning"), Some([Str("x")]));
    EntryMetadata("Idle Load Balancers", ["A", "B"], res, 0);
    EntryMetadata("Idle Load Balancers", ["A", "B"], res, 1);
    EntryFixedFields("Idle Load Balancers", ["A", "B"], res);
  }

  // ---------------------------------------------------------------------
  // Lines 46-65: all rows, check by check
  // ---------------------------------------------------------------------

  /** `result['result'].get('flaggedResources', [])` */
  function Flagged(r: CheckResult): seq<Resource> {
    r.flaggedResources.GetOr([])
  }

  /** `check.get('metadata', [])` */
  function MetadataKeys(c: Check): seq<string> {
    c.metadata.GetOr([])
  }

  /** The rows one check contributes, one per flagged resource. `describe`
      stands for `describe_trusted_advisor_check_result`. */
  function CheckRows(c: Check, describe: string -> CheckResult): seq<Row> {
    var flagged := Flagged(describe(c.id));
    seq(|flagged|, j requires 0 <= j < |flagged| => Entry(c.name, MetadataKeys(c), flagged[j]))
  }

  /** `final_data` once every check of `cs` has been processed. */
  function Findings(cs: seq<Check>, describe: string -> CheckResult): seq<Row> {
    if cs == [] then [] else CheckRows(cs[0], describe) + Findings(cs[1..], describe)
  }

  function FlaggedTotal(cs: seq<Check>, describe: string -> CheckResult): nat {
    if cs == [] then 0 else |Flagged(describe(cs[0].id))| + FlaggedTotal(cs[1..], describe)
  }

  lemma {:induction false} FindingsConcat(a: seq<Check>, b: seq<Check>, describe: string -> CheckResult)
    ensures Findings(a + b, describe) == Findings(a, describe) + Findings(b, describe)
  {
    if a == [] {
      assert a + b == b;
    } else {
      assert (a + b)[0] == a[0] && (a + b)[1..] == a[1..] + b;
      FindingsConcat(a[1..], b, describe);
    }
  }

  /** Exactly one row per flagged resource. */
  lemma {:induction false} FindingsCount(cs: seq<Check>, describe: string -> CheckResult)
    ensures |Findings(cs, describe)| == FlaggedTotal(cs, describe)
  {
    if cs != [] {
      FindingsCount(cs[1..], describe);
    }
  }

  /** A check that is not a cost check contributes nothing, wherever it stands. */
  lemma NonCostCheckContributesNothing(a: seq<Check>, x: Check, b: seq<Check>, describe: string -> CheckResult)
    requires !IsCostCheck(x)
    ensures Findings(CostChecks(a + [x] + b), describe) == Findings(CostChecks(a + b), describe)
  {
    CostChecksConcat(a + [x], b);
    CostChecksConcat(a, [x]);
    CostChecksConcat(a, b);
    assert CostChecks([x]) == [];
    assert CostChecks(a) + [] == CostChecks(a);
  }

  /** A cost check contributes its own rows, in its place. */
  lemma CostCheckContributesItsRows(a: seq<Check>, x: Check, b: seq<Check>, describe: string -> CheckResult)
    requires IsCostCheck(x)
    ensures Findings(CostChecks(a + [x] + b), describe) ==
            Findings(CostChecks(a), describe) + CheckRows(x, describe) + Findings(CostChecks(b), describe)
  {
    var ca, cb := CostChecks(a), CostChecks(b);
    CostChecksConcat(a + [x], b);
    CostChecksConcat(a, [x]);
    CostChecksSingle(x);
    assert CostChecks(a + [x] + b) == (ca + [x]) + cb;
    FindingsConcat(ca + [x], cb, describe);
    FindingsConcat(ca, [x], describe);
    FindingsSingle(x, describe);
  }

  lemma CostChecksSingle(x: Check)
    requires IsCostCheck(x)
    ensures CostChecks([x]) == [x]
  {
    assert [x][1..] == [];
  }

  lemma FindingsSingle(x: Check, describe: string -> CheckResult)
    ensures Findings([x], describe) == CheckRows(x, describe)
  {
    assert [x][1..] == [];
    assert CheckRows(x, describe) + [] == CheckRows(x, describe);
  }

  /** Lines 46-65: the nested loops that append one entry per flagged resource. */
  method CollectFindings(costChecks: seq<Check>, describe: string -> CheckResult) returns (finalData: seq<Row>)
    ensures finalData == Findings(costChecks, describe)
  {
    finalData := [];
    for i := 0 to |costChecks|
      invariant finalData == Findings(costChecks[..i], describe)
    {
      var check := costChecks[i];
      var metadataKeys := MetadataKeys(check);
      var flagged := Flagged(describe(check.id));
      ghost var done := finalData;
      for j := 0 to |flagged|
        invariant finalData == done + CheckRows(check, describe)[..j]
      {
        var entry := BuildEntry(check.name, metadataKeys, flagged[j]);
        assert CheckRows(check, describe)[..j + 1] == CheckRows(check, describe)[..j] + [entry];
        finalData := finalData + [entry];
      }
      assert CheckRows(check, describe)[..|flagged|] == CheckRows(check, describe);
      assert costChecks[..i + 1] == costChecks[..i] + [check];
      FindingsConcat(costChecks[..i], [check], describe);
      assert Findings([check], describe) == CheckRows(check, describe) + [];
    }
    assert costChecks[..|costChecks|] == costChecks;
  }

  // ---------------------------------------------------------------------
  // Lines 71-73: drop the columns with one distinct non-null value
  // ---------------------------------------------------------------------

  /** Whether lines 71-73 keep column `j`: it does not have exactly one
      distinct non-null value. */
  predicate Keeps(f: Frame, j: nat)
    requires WellFormed(f) && j < |f.names|
  {
    NUnique(Column(f, j)) != 1
  }

  predicate Increasing(idx: seq<nat>) {
    forall a, b :: 0 <= a < b < |idx| ==> idx[a] < idx[b]
  }

  /** The indices of the kept columns among the first `n`, in order. */
  function KeptBefore(f: Frame, n: nat): (idx: seq<nat>)
    requires WellFormed(f) && n <= |f.names|
    ensures Increasing(idx)
    ensures forall k :: 0 <= k < |idx| ==> idx[k] < n
  {
    if n == 0 then [] else KeptBefore(f, n - 1) + (if Keeps(f, n - 1) then [n - 1] else [])
  }

  /** A column among the first `n` is listed exactly when it is kept. */
  lemma {:induction false} KeptBeforeMembers(f: Frame, n: nat, j: nat)
    requires WellFormed(f) && j < n <= |f.names|
    ensures j in KeptBefore(f, n) <==> Keeps(f, j)
  {
    var p := KeptBefore(f, n - 1);
    var t: seq<nat> := if Keeps(f, n - 1) then [n - 1] else [];
    assert KeptBefore(f, n) == p + t;
    assert j in p + t <==> j in p || j in t;
    if j < n - 1 {
      KeptBeforeMembers(f, n - 1, j);
      assert j !in t;
    } else {
      assert j !in p;
    }
  }

  function Select<T>(s: seq<T>, idx: seq<nat>): seq<T>
    requires forall k :: 0 <= k < |idx| ==> idx[k] < |s|
  {
    seq(|idx|, k requires 0 <= k < |idx| => s[idx[k]])
  }

  /** The frame restricted to the columns at `idx`, in that order. */
  function Project(f: Frame, idx: seq<nat>): (g: Frame)
    requires WellFormed(f) && Increasing(idx)
    requires forall k :: 0 <= k < |idx| ==> idx[k] < |f.names|
    ensures WellFormed(g) && |g.cells| == |f.cells| && |g.names| == |idx|
    ensures forall k {:trigger g.names[k]} :: 0 <= k < |idx| ==> g.names[k] == f.names[idx[k]]
    ensures forall k {:trigger Column(g, k)} :: 0 <= k < |idx| ==> Column(g, k) == Column(f, idx[k])
  {
    Frame(Select(f.names, idx), seq(|f.cells|, i requires 0 <= i < |f.cells| => Select(f.cells[i], idx)))
  }

  /** The frame lines 71-73 leave. */
  function Prune(f: Frame): (g: Frame)
    requires WellFormed(f)
    ensures WellFormed(g) && |g.cells| == |f.cells|
  {
    Project(f, KeptBefore(f, |f.names|))
  }

  function Range(lo: nat, hi: nat): (r: seq<nat>)
    requires lo <= hi
    ensures |r| == hi - lo && forall k :: 0 <= k < |r| ==> r[k] == lo + k
  {
    seq(hi - lo, k requires 0 <= k < hi - lo => lo + k)
  }

  /** The columns still present after the loop of lines 71-73 has looked at
      the first `i` labels: the kept ones among those, then all later ones. */
  function Plan(f: Frame, i: nat): (idx: seq<nat>)
    requires WellFormed(f) && i <= |f.names|
    ensures Increasing(idx) && forall k :: 0 <= k < |idx| ==> idx[k] < |f.names|
  {
    KeptBefore(f, i) + Range(i, |f.names|)
  }

  lemma ProjectAll(f: Frame)
    requires WellFormed(f)
    ensures Project(f, Range(0, |f.names|)) == f
  {
    var g := Project(f, Range(0, |f.names|));
    assert g.names == f.names;
    forall i | 0 <= i < |f.cells| ensures g.cells[i] == f.cells[i] {
    }
  }

  lemma DropFromProject(f: Frame, idx: seq<nat>, p: nat)
    requires WellFormed(f) && Increasing(idx) && p < |idx|
    requires forall k :: 0 <= k < |idx| ==> idx[k] < |f.names|
    requires Increasing(Remove(idx, p))
    ensures forall k :: 0 <= k < |Remove(idx, p)| ==> Remove(idx, p)[k] < |f.names|
    ensures DropColumn(Project(f, idx), p) == Project(f, Remove(idx, p))
  {
    var idx' := Remove(idx, p);
    forall k | 0 <= k < |idx'| ensures idx'[k] < |f.names| {
      RemoveAt(idx, p, k);
    }
    var lhs := DropColumn(Project(f, idx), p);
    var rhs := Project(f, idx');
    forall k | 0 <= k < |idx'| ensures lhs.names[k] == rhs.names[k] {
      RemoveAt(idx, p, k);
      RemoveAt(Project(f, idx).names, p, k);
    }
    forall i | 0 <= i < |f.cells| ensures lhs.cells[i] == rhs.cells[i] {
      forall k | 0 <= k < |idx'| ensures lhs.cells[i][k] == rhs.cells[i][k] {
        RemoveAt(idx, p, k);
        RemoveAt(Project(f, idx).cells[i], p, k);
      }
    }
  }

  lemma Splice(kept: seq<nat>, i: nat, n: nat)
    requires i < n
    ensures var plan := kept + Range(i, n);
      plan[|kept|] == i && (kept + [i]) + Range(i + 1, n) == plan &&
      Remove(plan, |kept|) == kept + Range(i + 1, n)
  {
    var rest := Range(i + 1, n);
    assert Range(i, n) == [i] + rest;
  }

  /** Where the loop of lines 71-73 stands at label `i`: label `i` sits just
      after the kept columns, and the next plan keeps it or removes it. */
  lemma PlanStep(f: Frame, i: nat)
    requires WellFormed(f) && i < |f.names|
    ensures |KeptBefore(f, i)| < |Plan(f, i)| && Plan(f, i)[|KeptBefore(f, i)|] == i
    ensures Plan(f, i + 1) == if Keeps(f, i) then Plan(f, i) else Remove(Plan(f, i), |KeptBefore(f, i)|)
  {
    Splice(KeptBefore(f, i), i, |f.names|);
    assert KeptBefore(f, i + 1) == KeptBefore(f, i) + (if Keeps(f, i) then [i] else []);
  }

  /** Before the loop every column is planned; after it, only the kept ones. */
  lemma PlanBounds(f: Frame)
    requires WellFormed(f)
    ensures Project(f, Plan(f, 0)) == f
    ensures Project(f, Plan(f, |f.names|)) == Prune(f)
  {
    assert Plan(f, 0) == Range(0, |f.names|);
    ProjectAll(f);
    assert Plan(f, |f.names|) == KeptBefore(f, |f.names|);
  }

  /** One pass of the loop of lines 71-73: label `i` is found at the position
      just after the kept columns, and the column is dropped exactly when it
      has one distinct non-null value. */
  lemma DropStep(f: Frame, i: nat)
    requires WellFormed(f) && i < |f.names|
    ensures var g := Project(f, Plan(f, i));
      f.names[i] in g.names &&
      var col := IndexOf(g.names, f.names[i]);
      Project(f, Plan(f, i + 1)) == if NUnique(Column(g, col)) == 1 then DropColumn(g, col) else g
  {
    var idx := Plan(f, i);
    var p := |KeptBefore(f, i)|;
    var g := Project(f, idx);
    PlanStep(f, i);
    IndexOfDistinct(g.names, p);
    assert Column(g, p) == Column(f, i);
    if !Keeps(f, i) {
      DropFromProject(f, idx, p);
    }
  }

  /** One pass of the loop body of lines 71-73: `df.drop(col, inplace=True)`
      when column `name` has exactly one distinct non-null value. */
  function DropIfConstant(g: Frame, name: string): (r: Frame)
    requires WellFormed(g)
    ensures WellFormed(r) && |r.cells| == |g.cells|
  {
    if name !in g.names then g
    else
      var col := IndexOf(g.names, name);
      if NUnique(Column(g, col)) == 1 then DropColumn(g, col) else g
  }

  /** The frame after the loop of lines 71-73 has looked at its first `i`
      labels, one pass at a time. */
  function Stage(f: Frame, i: nat): (g: Frame)
    requires WellFormed(f) && i <= |f.names|
    ensures WellFormed(g) && |g.cells| == |f.cells|
  {
    if i == 0 then f else DropIfConstant(Stage(f, i - 1), f.names[i - 1])
  }

  /** The same pass, written as the loop body `DropIfConstant` and indexed
      by the number of passes done. */
  lemma DropStepAt(f: Frame, i: nat)
    requires WellFormed(f) && 0 < i <= |f.names|
    ensures Project(f, Plan(f, i)) == DropIfConstant(Project(f, Plan(f, i - 1)), f.names[i - 1])
  {
    DropStep(f, i - 1);
  }

  /** A pass that starts from the planned columns ends at the next plan. */
  lemma StageStep(f: Frame, i: nat)
    requires WellFormed(f) && 0 < i <= |f.names|
    requires Stage(f, i - 1) == Project(f, Plan(f, i - 1))
    ensures Stage(f, i) == Project(f, Plan(f, i))
  {
    DropStepAt(f, i);
    assert Stage(f, i) == DropIfConstant(Stage(f, i - 1), f.names[i - 1]);
  }

  /** The passes so far keep exactly the planned columns. */
  lemma {:induction false} StageIsPlan(f: Frame, i: nat)
    requires WellFormed(f) && i <= |f.names|
    ensures Stage(f, i) == Project(f, Plan(f, i))
  {
    if i == 0 {
      PlanBounds(f);
    } else {
      StageIsPlan(f, i - 1);
      StageStep(f, i);
    }
  }

  /** Every label is still there when its pass comes. */
  lemma StagePresent(f: Frame, i: nat)
    requires WellFormed(f) && i < |f.names|
    ensures f.names[i] in Stage(f, i).names
  {
    StageIsPlan(f, i);
    DropStep(f, i);
  }

  /** After all the passes, exactly the columns with other than one distinct
      non-null value remain, in their original order. */
  lemma StageIsPrune(f: Frame)
    requires WellFormed(f)
    ensures Stage(f, |f.names|) == Prune(f)
  {
    StageIsPlan(f, |f.names|);
    PlanBounds(f);
  }

  /** Lines 71-73: walk the original column labels and drop, by name, every
      column with exactly one distinct non-null value. */
  method DropConstantColumns(f: Frame) returns (g: Frame)
    requires WellFormed(f)
    ensures g == Prune(f)
  {
    var columns := f.names;
    g := f;
    for i := 0 to |columns|
      invariant g == Stage(f, i)
    {
      StagePresent(f, i);
      var col := IndexOf(g.names, columns[i]);
      if NUnique(Column(g, col)) == 1 {
        g := DropColumn(g, col);
      }
    }
    StageIsPrune(f);
  }

  /** After lines 71-73 no column has exactly one distinct non-null value. */
  lemma PruneNoConstant(f: Frame)
    requires WellFormed(f)
    ensures forall k :: 0 <= k < |Prune(f).names| ==> NUnique(Column(Prune(f), k)) != 1
  {
    var idx := KeptBefore(f, |f.names|);
    forall k | 0 <= k < |idx| ensures Keeps(f, idx[k]) {
      KeptBeforeMembers(f, |f.names|, idx[k]);
    }
  }

  /** A column survives lines 71-73 exactly when it did not have one
      distinct non-null value. */
  lemma PruneKeepsExactly(f: Frame)
    requires WellFormed(f)
    ensures forall j :: 0 <= j < |f.names| ==> (f.names[j] in Prune(f).names <==> NUnique(Column(f, j)) != 1)
  {
    var idx := KeptBefore(f, |f.names|);
    var g := Prune(f);
    forall j | 0 <= j < |f.names| ensures f.names[j] in g.names <==> Keeps(f, j) {
      KeptBeforeMembers(f, |f.names|, j);
      if f.names[j] in g.names {
        var k := IndexOf(g.names, f.names[j]);
        IndexOfDistinct(f.names, j);
        IndexOfDistinct(f.names, idx[k]);
      }
      if Keeps(f, j) {
        var k :| 0 <= k < |idx| && idx[k] == j;
        assert g.names[k] == f.names[j];
      }
    }
  }

  /** A surviving column keeps its values, and the survivors keep their order. */
  lemma PruneKeepsColumns(f: Frame)
    requires WellFormed(f)
    ensures var g := Prune(f);
      (forall j :: 0 <= j < |f.names| && f.names[j] in g.names ==> Column(g, IndexOf(g.names, f.names[j])) == Column(f, j)) &&
      (forall a, b :: 0 <= a < b < |g.names| ==> IndexOf(f.names, g.names[a]) < IndexOf(f.names, g.names[b]))
  {
    var idx := KeptBefore(f, |f.names|);
    var g := Prune(f);
    forall j | 0 <= j < |f.names| && f.names[j] in g.names
      ensures Column(g, IndexOf(g.names, f.names[j])) == Column(f, j)
    {
      var k := IndexOf(g.names, f.names[j]);
      IndexOfDistinct(f.names, j);
      IndexOfDistinct(f.names, idx[k]);
    }
    forall a, b | 0 <= a < b < |g.names| ensures IndexOf(f.names, g.names[a]) < IndexOf(f.names, g.names[b]) {
      IndexOfDistinct(f.names, idx[a]);
      IndexOfDistinct(f.names, idx[b]);
    }
  }

  /** With a single row, every column that survives holds null. */
  lemma PruneSingleRow(f: Frame)
    requires WellFormed(f) && |f.cells| == 1
    ensures forall k :: 0 <= k < |Prune(f).names| ==> Prune(f).cells[0][k] == Null
  {
    var g := Prune(f);
    PruneNoConstant(f);
    forall k | 0 <= k < |g.names| ensures g.cells[0][k] == Null {
      assert Column(g, k) == [g.cells[0][k]];
      NUniqueSingleton(g.cells[0][k]);
    }
  }

  // ---------------------------------------------------------------------
  // Lines 76-82: coerce the first savings column and sort by it
  // ---------------------------------------------------------------------

  predicate IsSavingName(c: string) {
    Contains(Lower(c), "saving")
  }

  /** `saving_cols[0]`, when `saving_cols` is not empty: the first column
      whose label contains "saving", ignoring case. */
  function FirstSaving(names: seq<string>): (r: Option<nat>)
    ensures r.Some? ==> r.value < |names| && IsSavingName(names[r.value])
    ensures forall k :: 0 <= k < |names| && (r.None? || k < r.value) ==> !IsSavingName(names[k])
  {
    if names == [] then None
    else if IsSavingName(names[0]) then Some(0)
    else match FirstSaving(names[1..])
      case Some(j) => Some(j + 1)
      case None => None
  }

  /** One cell of `pd.to_numeric(col.astype(str).str.replace(',', '')
      .str.replace('$', ''), errors='coerce')`. A number prints and parses
      back to itself; a boolean prints as "True" or "False" and a null as
      "None" or "nan", none of which is a number. */
  function CoerceCell(v: Value): (r: Value)
    ensures r.Num? || r.Null?
    ensures v.Num? ==> r == v
  {
    match v
    case Str(s) => (match ParseNumber(StripCurrency(s)) case Some(x) => Num(x) case None => Null)
    case Num(_) => v
    case Bool(_) => Null
    case Null => Null
  }

  /** Lines 78-81: column `j` replaced by its coerced values. */
  function CoerceColumn(f: Frame, j: nat): (g: Frame)
    requires WellFormed(f) && j < |f.names|
    ensures WellFormed(g) && g.names == f.names && |g.cells| == |f.cells|
    ensures forall i :: 0 <= i < |g.cells| ==> g.cells[i][j] == CoerceCell(f.cells[i][j])
    ensures forall i, k :: 0 <= i < |g.cells| && 0 <= k < |g.names| && k != j ==> g.cells[i][k] == f.cells[i][k]
  {
    Frame(f.names, seq(|f.cells|, i requires 0 <= i < |f.cells| => f.cells[i][j := CoerceCell(f.cells[i][j])]))
  }

  /** A dollar amount such as "$250" coerces to its number. */
  lemma CoerceDollars(n: nat)
    ensures CoerceCell(Str("$" + ShowNat(n))) == Num(n as real)
  {
    StripConcat("$", ShowNat(n));
    StripSymbol('$');
    DigitsClean(ShowNat(n));
    StripCurrencyClean(ShowNat(n));
    assert [] + ShowNat(n) == ShowNat(n);
    ParseShowNat(n);
  }

  /** An amount with a thousands separator such as "$1,000" coerces to its
      number: the separator is dropped, not read as a decimal point. */
  lemma CoerceThousands(t: nat, d: string)
    requires |d| == 3 && AllDigits(d)
    ensures CoerceCell(Str("$" + ShowNat(t) + "," + d)) == Num((t * 1000 + DigitsValue(d)) as real)
  {
    var w := ShowNat(t);
    DigitsClean(w);
    DigitsClean(d);
    StripThousands(w, d);
    DigitsValueConcat(w, d);
    DigitsValueShowNat(t);
    assert Pow10(3) == 1000;
    ParseDigits(w + d);
  }

  /** An amount with a separator and cents such as "$1,234.56" coerces to
      its number: the whole part 1 * 1000 + 234, plus the fraction 56 / 100. */
  lemma CoerceCents(w: string, t: string, c: string)
    requires w != [] && AllDigits(w) && |t| == 3 && AllDigits(t) && c != [] && AllDigits(c)
    ensures AllDigits(w + t) && DigitsValue(w + t) == DigitsValue(w) * 1000 + DigitsValue(t)
    ensures CoerceCell(Str("$" + w + "," + t + "." + c)) == Num(DecimalValue(w + t, c))
  {
    var rest := t + "." + c;
    DigitsClean(w);
    DigitsClean(t);
    DigitsClean(c);
    assert ',' !in rest && '$' !in rest;
    StripThousands(w, rest);
    assert "$" + w + "," + t + "." + c == "$" + w + "," + rest;
    DigitsValueConcat(w, t);
    assert Pow10(3) == 1000;
    assert w + rest == (w + t) + "." + c;
    ParseDecimal(w + t, c);
  }

  /** A word that starts with neither a sign nor a digit, such as the "N/A"
      that pads a missing metadata value, or "Yellow", is not a number. */
  lemma CoerceWord(s: string)
    requires s != [] && s[0] != '+' && s[0] != '-' && !IsDigit(s[0])
    requires ',' !in s && '$' !in s
    ensures CoerceCell(Str(s)) == Null
  {
    StripCurrencyClean(s);
    ParseNonNumeric(s);
  }

  // ---------------------------------------------------------------------
  // Lines 67-84: the whole routine
  // ---------------------------------------------------------------------

  /** Lines 68-82: the frame built from the rows, pruned, and sorted by its
      first savings column when it has one. */
  function Reshape(rows: seq<Row>): Frame {
    var pruned := Prune(FromRecords(rows));
    match FirstSaving(pruned.names)
    case None => pruned
    case Some(j) => SortDescending(CoerceColumn(pruned, j), j)
  }

  /** What `fetch_optimized_trusted_advisor_data` returns for the check
      catalog `checks`, with `describe` answering for each check id. */
  function Report(checks: seq<Check>, describe: string -> CheckResult): ToolOutput {
    var rows := Findings(CostChecks(checks), describe);
    if rows == [] then NoneResult else Records(ToRecords(Reshape(rows)))
  }

  /** Lines 44-84, with both AWS calls taken as inputs. */
  method FetchTrustedAdvisor(checks: seq<Check>, describe: string -> CheckResult) returns (out: ToolOutput)
    ensures out == Report(checks, describe)
  {
    var costChecks := CostChecks(checks);
    var finalData := CollectFindings(costChecks, describe);
    if finalData != [] {
      var df := FromRecords(finalData);
      df := DropConstantColumns(df);
      var savingCols := FirstSaving(df.names);
      if savingCols.Some? {
        var j := savingCols.value;
        df := CoerceColumn(df, j);
        df := SortDescending(df, j);
      }
      out := Records(ToRecords(df));
    } else {
      out := NoneResult;
    }
  }

  /** The routine returns None exactly when no cost check flagged anything,
      and never a message. */
  lemma ReportNoneIffNothingFlagged(checks: seq<Check>, describe: string -> CheckResult)
    ensures Report(checks, describe) == NoneResult <==> FlaggedTotal(CostChecks(checks), describe) == 0
    ensures !Report(checks, describe).Message?
  {
    FindingsCount(CostChecks(checks), describe);
  }

  /** Otherwise it returns one record per flagged resource, all keyed by
      the surviving column labels; when no column survives, no record at all. */
  lemma ReportRecords(checks: seq<Check>, describe: string -> CheckResult)
    requires Report(checks, describe).Records?
    ensures var rows := Findings(CostChecks(checks), describe);
      var out := Report(checks, describe).rows;
      |out| == (if Reshape(rows).names == [] then 0 else FlaggedTotal(CostChecks(checks), describe)) &&
      forall i :: 0 <= i < |out| ==> Keys(out[i]) == Reshape(rows).names
  {
    FindingsCount(CostChecks(checks), describe);
    ReshapeShape(Findings(CostChecks(checks), describe));
  }

  /** Pruning only removes column labels. */
  lemma PruneNames(f: Frame)
    requires WellFormed(f)
    ensures forall k :: k in Prune(f).names ==> k in f.names
  {
    var g := Prune(f);
    forall k | k in g.names ensures k in f.names {
      var a :| 0 <= a < |g.names| && g.names[a] == k;
      assert g.names[a] == f.names[KeptBefore(f, |f.names|)[a]];
    }
  }

  /** The reshaped frame has one row per finding, and its labels are the
      pruned labels, each the key of some finding. */
  lemma ReshapeShape(rows: seq<Row>)
    ensures WellFormed(Reshape(rows)) && |Reshape(rows).cells| == |rows|
    ensures Reshape(rows).names == Prune(FromRecords(rows)).names
    ensures forall k :: k in Reshape(rows).names ==> exists i :: 0 <= i < |rows| && k in Keys(rows[i])
  {
    var f := FromRecords(rows);
    var pruned := Prune(f);
    var r := Reshape(rows);
    match FirstSaving(pruned.names) {
      case None =>
        assert r == pruned;
      case Some(j) =>
        assert r == SortDescending(CoerceColumn(pruned, j), j);
    }
    assert WellFormed(r) && |r.cells| == |rows| && r.names == pruned.names;
    PruneNames(f);
    forall k | k in r.names ensures exists i :: 0 <= i < |rows| && k in Keys(rows[i]) {
      assert k in f.names;
    }
  }

  /** No column of the result other than the savings column has exactly one
      distinct non-null value. (The savings column is judged before its
      values are coerced, so "$5" and "5" may coerce to one value.) */
  lemma ReshapeNoConstantColumn(rows: seq<Row>)
    ensures var f := Reshape(rows);
      WellFormed(f) &&
      forall k :: 0 <= k < |f.names| && FirstSaving(f.names) != Some(k) ==> NUnique(Column(f, k)) != 1
  {
    var pruned := Prune(FromRecords(rows));
    PruneNoConstant(FromRecords(rows));
    match FirstSaving(pruned.names)
    case None =>
    case Some(j) =>
      var coerced := CoerceColumn(pruned, j);
      var f := SortDescending(coerced, j);
      assert f == Reshape(rows);
      forall k | 0 <= k < |f.names| && k != j ensures NUnique(Column(f, k)) != 1 {
        assert Column(coerced, k) == Column(pruned, k);
        PermutationKeepsColumnValues(coerced, f, k);
      }
  }

  /** With a savings column, the rows are those of the pruned frame with that
      column coerced to numbers, reordered non-increasing by it, nulls last. */
  lemma ReshapeSortedBySavings(rows: seq<Row>, j: nat)
    requires FirstSaving(Prune(FromRecords(rows)).names) == Some(j)
    ensures var f := Reshape(rows);
      HasColumn(f.cells, j) && SortedDescending(f.cells, j) &&
      multiset(f.cells) == multiset(CoerceColumn(Prune(FromRecords(rows)), j).cells) &&
      forall i :: 0 <= i < |f.cells| ==> f.cells[i][j].Num? || f.cells[i][j].Null?
  {
    var coerced := CoerceColumn(Prune(FromRecords(rows)), j);
    var f := Reshape(rows);
    forall i | 0 <= i < |f.cells| ensures f.cells[i][j].Num? || f.cells[i][j].Null? {
      assert f.cells[i] in multiset(coerced.cells);
      var i' :| 0 <= i' < |coerced.cells| && coerced.cells[i'] == f.cells[i];
    }
  }

  /** Without a savings column the rows keep the order they were found in. */
  lemma ReshapeWithoutSavingsKeepsOrder(rows: seq<Row>)
    requires FirstSaving(Prune(FromRecords(rows)).names).None?
    ensures Reshape(rows) == Prune(FromRecords(rows))
    ensures |Reshape(rows).cells| == |rows|
    ensures forall i, k :: 0 <= i < |rows| && 0 <= k < |Reshape(rows).names| ==>
      Reshape(rows).cells[i][k] == Lookup(rows[i], Reshape(rows).names[k]).GetOr(Null)
  {
    var f := FromRecords(rows);
    var idx := KeptBefore(f, |f.names|);
    var g := Prune(f);
    forall i, k | 0 <= i < |rows| && 0 <= k < |g.names|
      ensures g.cells[i][k] == Lookup(rows[i], g.names[k]).GetOr(Null)
    {
      assert Column(g, k)[i] == Column(f, idx[k])[i];
      FromRecordsCell(rows, i, idx[k]);
      LookupFound(rows[i], g.names[k]);
    }
  }

  /** A single flagged resource leaves only columns that hold null. */
  lemma SingleFindingKeepsOnlyNulls(rows: seq<Row>)
    requires |rows| == 1
    ensures forall k :: 0 <= k < |Reshape(rows).names| ==> Reshape(rows).cells[0][k] == Null
  {
    var pruned := Prune(FromRecords(rows));
    PruneSingleRow(FromRecords(rows));
    match FirstSaving(pruned.names)
    case None =>
    case Some(j) =>
      var coerced := CoerceColumn(pruned, j);
      assert SortRows(coerced.cells, j) == Insert(coerced.cells[0], [], j);
  }

  /** A single finding without a null value has every column constant, so
      lines 71-73 drop them all. */
  lemma SingleFullFindingDropsAll(rows: seq<Row>)
    requires |rows| == 1 && forall p :: p in rows[0] ==> p.1 != Null
    ensures Prune(FromRecords(rows)).names == []
  {
    var f := FromRecords(rows);
    forall j | 0 <= j < |f.names| ensures !Keeps(f, j) {
      assert f.names[j] in f.names;
      assert f.names[j] in Keys(rows[0]);
      FromRecordsCell(rows, 0, j);
      LookupIn(rows[0], f.names[j]);
      assert Column(f, j) == [f.cells[0][j]];
      NUniqueSingleton(f.cells[0][j]);
    }
    var idx := KeptBefore(f, |f.names|);
    if idx != [] {
      KeptBeforeMembers(f, |f.names|, idx[0]);
    }
  }

  /** One flagged resource with every field present: every column has one
      distinct non-null value and is dropped, so line 84 returns an empty
      list of records. */
  lemma SingleFullFindingGivesNoRecords(checks: seq<Check>, describe: string -> CheckResult)
    requires |Findings(CostChecks(checks), describe)| == 1
    requires forall p :: p in Findings(CostChecks(checks), describe)[0] ==> p.1 != Null
    ensures Report(checks, describe) == Records([])
  {
    var rows := Findings(CostChecks(checks), describe);
    SingleFullFindingDropsAll(rows);
    assert FirstSaving(Prune(FromRecords(rows)).names) == None;
  }

  /** Trusted Advisor's "Estimated Monthly Savings" metadata label is found
      as the savings column; the fixed "Status" label is not. */
  lemma SavingNameExample()
    ensures IsSavingName("Estimated Monthly Savings")
    ensures !IsSavingName("Status")
  {
    var s := Lower("Estimated Monthly Savings");
    assert s[18..][..6] == "saving";
    ContainsIffOccurs(s, "saving");
    var t := Lower("Status");
    assert t == "status";
    ContainsIffOccurs(t, "saving");
    forall i | 0 <= i <= |t| ensures !IsPrefix("saving", t[i..]) {
      if i == 0 { assert t[0..][..6][1] != 'a'; }
    }
  }
}
