/**
  The tag-compliance auditor: every resource of the inventory is checked for
  the five required tag keys, the failing ones are collected with their type,
  missing and existing tags, and a report groups them by resource type.
 */
module TagAudit {
  import opened Common
  import opened Strings

  /** `REQUIRED_TAGS`, in the order the audit checks and reports them. */
  const RequiredTags: seq<string> := ["Project", "CostCenter", "Environment", "CreatedDate", "ManagedBy"]

  /** How many resources of one type the report lists. */
  const MaxShownPerType: nat := 5

  datatype Tag = Tag(key: string, value: string)

  /** One entry of the inventory; `tags` is empty when the entry has no `Tags`. */
  datatype Resource = Resource(arn: string, tags: seq<Tag>)

  /** One failing resource, as the audit records it. */
  datatype NonCompliant = NonCompliant(
    arn: string,
    resourceType: string,
    missingTags: seq<string>,
    existingTags: map<string, string>)

  // ---------------------------------------------------------------------------
  // Tags of one resource
  // ---------------------------------------------------------------------------

  /** `{tag['Key']: tag['Value'] for tag in tags}`: keys of all tags, later duplicates overwriting. */
  function ExistingTags(tags: seq<Tag>): (m: map<string, string>)
    ensures forall k :: k in m <==> exists i :: 0 <= i < |tags| && tags[i].key == k
  {
    if tags == [] then map[]
    else
      var init := tags[..|tags| - 1];
      assert forall i :: 0 <= i < |init| ==> init[i] == tags[i];
      ExistingTags(init)[tags[|tags| - 1].key := tags[|tags| - 1].value]
  }

  /** The value under a key is that of the last tag with that key. */
  lemma {:induction false} ExistingTagsLastWins(tags: seq<Tag>, i: nat)
    requires i < |tags|
    requires forall j :: i < j < |tags| ==> tags[j].key != tags[i].key
    ensures tags[i].key in ExistingTags(tags) && ExistingTags(tags)[tags[i].key] == tags[i].value
  {
    if i < |tags| - 1 {
      var init := tags[..|tags| - 1];
      assert forall j :: 0 <= j < |init| ==> init[j] == tags[j];
      ExistingTagsLastWins(init, i);
    }
  }

  /** The required keys absent from `existing`, in the order of `required`. */
  function MissingTags(required: seq<string>, existing: map<string, string>): seq<string>
  {
    if required == [] then []
    else
      var t := required[|required| - 1];
      MissingTags(required[..|required| - 1], existing) + (if t !in existing then [t] else [])
  }

  /** A key is missing exactly when it is required and absent. */
  lemma {:induction false} MissingTagsIff(required: seq<string>, existing: map<string, string>, t: string)
    ensures t in MissingTags(required, existing) <==> t in required && t !in existing
  {
    if required != [] {
      var init := required[..|required| - 1];
      MissingTagsIff(init, existing, t);
      assert required == init + [required[|required| - 1]];
    }
  }

  /** The missing keys keep the required order: the list splits along any split of the required list. */
  lemma {:induction false} MissingTagsAppend(r1: seq<string>, r2: seq<string>, existing: map<string, string>)
    ensures MissingTags(r1 + r2, existing) == MissingTags(r1, existing) + MissingTags(r2, existing)
  {
    if r2 == [] {
      assert r1 + r2 == r1;
    } else {
      assert (r1 + r2)[..|r1 + r2| - 1] == r1 + r2[..|r2| - 1];
      MissingTagsAppend(r1, r2[..|r2| - 1], existing);
    }
  }

  /** Against no tags at all, every required key is missing, in order. */
  lemma {:induction false} NothingPresentAllMissing(required: seq<string>)
    ensures MissingTags(required, map[]) == required
  {
    if required != [] {
      NothingPresentAllMissing(required[..|required| - 1]);
    }
  }

  /** A resource without tags misses all five required tags, in order. */
  lemma UntaggedMissesAll()
    ensures MissingTags(RequiredTags, ExistingTags([])) == RequiredTags
  {
    NothingPresentAllMissing(RequiredTags);
  }

  /** A resource every one of whose required keys is among its tag keys. */
  predicate Compliant(r: Resource)
  {
    MissingTags(RequiredTags, ExistingTags(r.tags)) == []
  }

  /** Compliance means every required key is the key of some tag. */
  lemma CompliantIff(r: Resource)
    ensures Compliant(r) <==>
      forall t :: t in RequiredTags ==> exists i :: 0 <= i < |r.tags| && r.tags[i].key == t
  {
    var existing := ExistingTags(r.tags);
    forall t ensures t in MissingTags(RequiredTags, existing) <==> t in RequiredTags && t !in existing {
      MissingTagsIff(RequiredTags, existing, t);
    }
    if !Compliant(r) {
      var t := MissingTags(RequiredTags, existing)[0];
      assert t in MissingTags(RequiredTags, existing);
    }
  }

  // ---------------------------------------------------------------------------
  // Resource types
  // ---------------------------------------------------------------------------

  /** `extract_resource_type`: the service and, when present, the resource segment's first part. */
  function ExtractResourceType(arn: string): string
  {
    var parts := Split(arn, ':');
    if |parts| >= 3 then
      if |parts| >= 6 then parts[2] + ":" + Split(parts[5], '/')[0]
      else parts[2]
    else "unknown"
  }

  /**
    For an ARN made of colon-free fields: fewer than three fields give
    "unknown", three to five give the third field, and six or more give the
    third field, a colon, and the sixth field up to its first '/'.
   */
  lemma ExtractResourceTypeFields(fields: seq<string>)
    requires |fields| >= 1
    requires forall i :: 0 <= i < |fields| ==> ':' !in fields[i]
    ensures var r := ExtractResourceType(Join(fields, ":"));
      if |fields| < 3 then r == "unknown"
      else if |fields| < 6 then r == fields[2]
      else r == fields[2] + ":" + Split(fields[5], '/')[0]
  {
    SplitJoin(fields, ':');
  }

  /** The part taken from the sixth field is that field up to its first '/', or all of it. */
  lemma ResourceSegment(field: string)
    ensures var p := Split(field, '/')[0];
      p <= field && '/' !in p && (|p| < |field| ==> field[|p|] == '/')
  {
    SplitFirst(field, '/');
  }

  /** An ARN with fewer than two colons has type "unknown". */
  lemma FewColonsUnknown(arn: string)
    requires CountChar(arn, ':') < 2
    ensures ExtractResourceType(arn) == "unknown"
  {
    SplitCount(arn, ':');
  }

  // ---------------------------------------------------------------------------
  // The audit loop
  // ---------------------------------------------------------------------------

  /** The record of a failing resource. */
  function RecordOf(r: Resource): NonCompliant
  {
    var existing := ExistingTags(r.tags);
    NonCompliant(r.arn, ExtractResourceType(r.arn), MissingTags(RequiredTags, existing), existing)
  }

  /** One record per non-compliant resource, in inventory order. */
  function NonCompliantOf(rs: seq<Resource>): seq<NonCompliant>
  {
    if rs == [] then []
    else
      var r := rs[|rs| - 1];
      NonCompliantOf(rs[..|rs| - 1]) + (if Compliant(r) then [] else [RecordOf(r)])
  }

  /** The number of compliant resources. */
  function CompliantCount(rs: seq<Resource>): nat
  {
    if rs == [] then 0
    else CompliantCount(rs[..|rs| - 1]) + (if Compliant(rs[|rs| - 1]) then 1 else 0)
  }

  /** The missing-tag loop of `lambda_handler`, resource by resource. */
  method FindNonCompliant(allResources: seq<Resource>) returns (nonCompliant: seq<NonCompliant>)
    ensures nonCompliant == NonCompliantOf(allResources)
  {
    nonCompliant := [];
    var i := 0;
    while i < |allResources|
      invariant 0 <= i <= |allResources|
      invariant nonCompliant == NonCompliantOf(allResources[..i])
    {
      var resource := allResources[i];
      assert allResources[..i + 1][..i] == allResources[..i];
      var existingTags := ExistingTags(resource.tags);
      var missingTags: seq<string> := [];
      var j := 0;
      while j < |RequiredTags|
        invariant 0 <= j <= |RequiredTags|
        invariant missingTags == MissingTags(RequiredTags[..j], existingTags)
      {
        assert RequiredTags[..j + 1][..j] == RequiredTags[..j];
        if RequiredTags[j] !in existingTags {
          missingTags := missingTags + [RequiredTags[j]];
        }
        j := j + 1;
      }
      assert RequiredTags[..j] == RequiredTags;
      if missingTags != [] {
        nonCompliant := nonCompliant + [NonCompliant(resource.arn, ExtractResourceType(resource.arn),
                                                     missingTags, existingTags)];
      }
      i := i + 1;
    }
    assert allResources[..i] == allResources;
  }

  /** The records of two consecutive parts of the inventory follow one another. */
  lemma {:induction false} NonCompliantAppend(rs1: seq<Resource>, rs2: seq<Resource>)
    ensures NonCompliantOf(rs1 + rs2) == NonCompliantOf(rs1) + NonCompliantOf(rs2)
  {
    if rs2 == [] {
      assert rs1 + rs2 == rs1;
    } else {
      assert (rs1 + rs2)[..|rs1 + rs2| - 1] == rs1 + rs2[..|rs2| - 1];
      NonCompliantAppend(rs1, rs2[..|rs2| - 1]);
    }
  }

  /** A single resource yields its record exactly when it is not compliant. */
  lemma NonCompliantSingle(r: Resource)
    ensures NonCompliantOf([r]) == if Compliant(r) then [] else [RecordOf(r)]
  {
    assert [r][..0] == [];
  }

  /** Every record lists at least one missing tag, and lists exactly the missing ones. */
  lemma {:induction false} RecordsMissSomething(rs: seq<Resource>, k: nat)
    requires k < |NonCompliantOf(rs)|
    ensures var rec := NonCompliantOf(rs)[k];
      rec.missingTags != [] &&
      forall t :: t in rec.missingTags <==> t in RequiredTags && t !in rec.existingTags
  {
    var init := rs[..|rs| - 1];
    if k < |NonCompliantOf(init)| {
      RecordsMissSomething(init, k);
    } else {
      var rec := RecordOf(rs[|rs| - 1]);
      forall t ensures t in rec.missingTags <==> t in RequiredTags && t !in rec.existingTags {
        MissingTagsIff(RequiredTags, rec.existingTags, t);
      }
    }
  }

  /** Compliant and non-compliant resources together are the whole inventory. */
  lemma {:induction false} PartitionCounts(rs: seq<Resource>)
    ensures CompliantCount(rs) + |NonCompliantOf(rs)| == |rs|
  {
    if rs != [] {
      PartitionCounts(rs[..|rs| - 1]);
    }
  }

  // ---------------------------------------------------------------------------
  // Grouping by type
  // ---------------------------------------------------------------------------

  /** The records of type `t`, in input order. */
  function OfType(nc: seq<NonCompliant>, t: string): seq<NonCompliant>
  {
    if nc == [] then []
    else
      var x := nc[|nc| - 1];
      OfType(nc[..|nc| - 1], t) + (if x.resourceType == t then [x] else [])
  }

  /** The types that occur among the records. */
  function Types(nc: seq<NonCompliant>): set<string>
  {
    if nc == [] then {} else Types(nc[..|nc| - 1]) + {nc[|nc| - 1].resourceType}
  }

  /** A type occurs exactly when some record has it. */
  lemma {:induction false} TypesMembership(nc: seq<NonCompliant>, t: string)
    ensures t in Types(nc) <==> exists i :: 0 <= i < |nc| && nc[i].resourceType == t
  {
    if nc != [] {
      var init := nc[..|nc| - 1];
      TypesMembership(init, t);
      assert forall i :: 0 <= i < |init| ==> init[i] == nc[i];
    }
  }

  /** A type that does not occur has no records. */
  lemma {:induction false} OfTypeAbsent(nc: seq<NonCompliant>, t: string)
    requires t !in Types(nc)
    ensures OfType(nc, t) == []
  {
    if nc != [] {
      OfTypeAbsent(nc[..|nc| - 1], t);
    }
  }

  /** No value occurs twice. */
  predicate Distinct(s: seq<string>)
  {
    forall i, j :: 0 <= i < j < |s| ==> s[i] != s[j]
  }

  /** The types in order of first appearance, each once (the key order of `by_type`). */
  function TypeOrder(nc: seq<NonCompliant>): seq<string>
  {
    if nc == [] then []
    else
      var prev := TypeOrder(nc[..|nc| - 1]);
      var t := nc[|nc| - 1].resourceType;
      if t in prev then prev else prev + [t]
  }

  /** The key order holds each type that occurs, and each only once. */
  lemma {:induction false} TypeOrderFacts(nc: seq<NonCompliant>)
    ensures forall t :: t in TypeOrder(nc) <==> t in Types(nc)
    ensures Distinct(TypeOrder(nc))
  {
    if nc != [] {
      var init := nc[..|nc| - 1];
      TypeOrderFacts(init);
      var prev := TypeOrder(init);
      var t := nc[|nc| - 1].resourceType;
      if t !in prev {
        var keys := prev + [t];
        assert TypeOrder(nc) == keys;
        forall i, j | 0 <= i < j < |keys| ensures keys[i] != keys[j] {
          assert keys[i] == prev[i];
          if j == |prev| {
            assert keys[j] == t;
            assert prev[i] in prev;
          } else {
            assert keys[j] == prev[j];
          }
        }
      }
    }
  }

  /** `by_type` after the grouping loop. */
  function GroupByType(nc: seq<NonCompliant>): map<string, seq<NonCompliant>>
  {
    if nc == [] then map[]
    else
      var m := GroupByType(nc[..|nc| - 1]);
      var x := nc[|nc| - 1];
      var t := x.resourceType;
      m[t := (if t in m then m[t] else []) + [x]]
  }

  /** `by_type` maps every type that occurs, and no other, to its records in input order. */
  lemma {:induction false} GroupByTypeFacts(nc: seq<NonCompliant>)
    ensures GroupByType(nc).Keys == Types(nc)
    ensures forall t :: t in GroupByType(nc) ==> GroupByType(nc)[t] == OfType(nc, t)
  {
    if nc != [] {
      var init := nc[..|nc| - 1];
      GroupByTypeFacts(init);
      var t := nc[|nc| - 1].resourceType;
      if t !in GroupByType(init) {
        OfTypeAbsent(init, t);
      }
    }
  }

  // ---------------------------------------------------------------------------
  // The report
  // ---------------------------------------------------------------------------

  /**
    The section of one type: the header's count, the records listed (the first
    five), and the N of the "... and N more" line when there is one.
   */
  datatype TypeGroup = TypeGroup(resourceType: string, size: nat, shown: seq<NonCompliant>, more: Option<nat>)

  datatype Findings = AllCompliant | Violations(count: nat, groups: seq<TypeGroup>)

  /**
    The content of the email report; its wording and layout are not modelled.
    The rate it prints is `ComplianceRate(total, compliant)`.
   */
  datatype Report = Report(
    total: nat,
    compliant: int,
    nonCompliant: nat,
    requiredTags: seq<string>,
    findings: Findings)
  {
    /** `compliance_rate` as `generate_report` computes it. */
    function Rate(): real
    {
      ComplianceRate(total, compliant)
    }
  }

  function GroupSection(t: string, resources: seq<NonCompliant>): TypeGroup
  {
    TypeGroup(t, |resources|,
      if |resources| <= MaxShownPerType then resources else resources[..MaxShownPerType],
      if |resources| > MaxShownPerType then Some(|resources| - MaxShownPerType) else None)
  }

  /** The sections of the given types, in the given order. */
  function GroupsOf(keys: seq<string>, byType: map<string, seq<NonCompliant>>): (gs: seq<TypeGroup>)
    requires forall k :: k in keys ==> k in byType
    ensures |gs| == |keys|
    ensures forall i :: 0 <= i < |keys| ==> gs[i] == GroupSection(keys[i], byType[keys[i]])
  {
    if keys == [] then []
    else GroupsOf(keys[..|keys| - 1], byType) + [GroupSection(keys[|keys| - 1], byType[keys[|keys| - 1]])]
  }

  /** `compliant / total * 100` when there are resources, 0 otherwise. */
  function ComplianceRate(total: nat, compliant: int): real
  {
    if total > 0 then (compliant as real) / (total as real) * 100.0 else 0.0
  }

  /** The types in the order the report lists them: `sorted(by_type.items())`. */
  function ReportOrder(nc: seq<NonCompliant>): seq<string>
  {
    SortStrings(TypeOrder(nc))
  }

  /** The part of the report after the summary: the all-compliant line, or the sections in sorted type order. */
  function FindingsOf(nc: seq<NonCompliant>): Findings
  {
    if nc == [] then AllCompliant
    else
      SortedKeysPresent(nc);
      Violations(|nc|, GroupsOf(ReportOrder(nc), GroupByType(nc)))
  }

  /** `generate_report`, as content. */
  function ReportOf(allResources: seq<Resource>, nc: seq<NonCompliant>): Report
  {
    var total := |allResources|;
    var compliant := total - |nc|;
    Report(total, compliant, |nc|, RequiredTags, FindingsOf(nc))
  }

  /** Every type of the report order is a key of the grouping. */
  lemma SortedKeysPresent(nc: seq<NonCompliant>)
    ensures forall k :: k in ReportOrder(nc) ==> k in GroupByType(nc)
  {
    TypeOrderFacts(nc);
    GroupByTypeFacts(nc);
    forall k | k in ReportOrder(nc) ensures k in GroupByType(nc) {
      assert k in multiset(ReportOrder(nc));
    }
  }

  /** One step of the grouping loop: the record joins its type's list, a new type goes to the end of the order. */
  lemma GroupStep(nc: seq<NonCompliant>, i: nat)
    requires i < |nc|
    ensures var m := GroupByType(nc[..i]); var t := nc[i].resourceType;
      (t in m <==> t in TypeOrder(nc[..i])) &&
      GroupByType(nc[..i + 1]) == m[t := (if t in m then m[t] else []) + [nc[i]]] &&
      TypeOrder(nc[..i + 1]) == if t in m then TypeOrder(nc[..i]) else TypeOrder(nc[..i]) + [t]
  {
    assert nc[..i + 1][..i] == nc[..i];
    assert nc[..i + 1][i] == nc[i];
    TypeOrderFacts(nc[..i]);
    GroupByTypeFacts(nc[..i]);
  }

  /** The grouping loop of `generate_report`: `by_type` and the order in which its keys were inserted. */
  method GroupRecords(nonCompliant: seq<NonCompliant>) returns (byType: map<string, seq<NonCompliant>>, order: seq<string>)
    ensures byType == GroupByType(nonCompliant)
    ensures order == TypeOrder(nonCompliant)
  {
    byType := map[];
    order := [];
    var i := 0;
    while i < |nonCompliant|
      invariant 0 <= i <= |nonCompliant|
      invariant byType == GroupByType(nonCompliant[..i])
      invariant order == TypeOrder(nonCompliant[..i])
    {
      var resource := nonCompliant[i];
      var rtype := resource.resourceType;
      GroupStep(nonCompliant, i);
      if rtype !in byType {
        byType := byType[rtype := []];
        order := order + [rtype];
      }
      byType := byType[rtype := byType[rtype] + [resource]];
      i := i + 1;
    }
    assert nonCompliant[..i] == nonCompliant;
  }

  /** The section loop of `generate_report`: one section per key, in the order given. */
  method EmitSections(keys: seq<string>, byType: map<string, seq<NonCompliant>>) returns (groups: seq<TypeGroup>)
    requires forall k :: k in keys ==> k in byType
    ensures groups == GroupsOf(keys, byType)
  {
    groups := [];
    var k := 0;
    while k < |keys|
      invariant 0 <= k <= |keys|
      invariant groups == GroupsOf(keys[..k], byType)
    {
      assert keys[..k + 1][..k] == keys[..k];
      var resources := byType[keys[k]];
      var shown := if |resources| <= MaxShownPerType then resources else resources[..MaxShownPerType];
      var more := if |resources| > MaxShownPerType then Some(|resources| - MaxShownPerType) else None;
      groups := groups + [TypeGroup(keys[k], |resources|, shown, more)];
      k := k + 1;
    }
    assert keys[..k] == keys;
  }

  /** The findings part of `generate_report`: group the records by type, then emit the sections in sorted type order. */
  method ReportFindings(nonCompliant: seq<NonCompliant>) returns (findings: Findings)
    ensures findings == FindingsOf(nonCompliant)
  {
    if nonCompliant == [] {
      return AllCompliant;
    }
    var byType, order := GroupRecords(nonCompliant);
    var keys := SortStrings(order);
    SortedKeysPresent(nonCompliant);
    var groups := EmitSections(keys, byType);
    findings := Violations(|nonCompliant|, groups);
  }

  /** `generate_report`: the summary counts and rate, then the findings. */
  method GenerateReport(allResources: seq<Resource>, nonCompliant: seq<NonCompliant>) returns (report: Report)
    ensures report == ReportOf(allResources, nonCompliant)
  {
    var total := |allResources|;
    var compliant := total - |nonCompliant|;
    var findings := ReportFindings(nonCompliant);
    report := Report(total, compliant, |nonCompliant|, RequiredTags, findings);
  }

  // ---------------------------------------------------------------------------
  // Properties of the report
  // ---------------------------------------------------------------------------

  /** The "all compliant" branch is taken exactly when there is no failing resource. */
  lemma AllCompliantIff(allResources: seq<Resource>, nc: seq<NonCompliant>)
    ensures ReportOf(allResources, nc).findings.AllCompliant? <==> nc == []
  {
  }

  /** A value at two positions of a list occurs at least twice in it. */
  lemma TwoOccurrences(s: seq<string>, i: nat, j: nat)
    requires i < j < |s| && s[i] == s[j]
    ensures multiset(s)[s[i]] >= 2
  {
    var x := s[i];
    assert s == s[..j] + s[j..];
    assert s[..j][i] == x;
    assert s[j..][0] == x;
    assert multiset(s) == multiset(s[..j]) + multiset(s[j..]);
  }

  /** A list without repetitions holds each value at most once. */
  lemma {:induction false} DistinctOnce(s: seq<string>, x: string)
    requires Distinct(s)
    ensures multiset(s)[x] <= 1
  {
    if s != [] {
      assert s == [s[0]] + s[1..];
      DistinctOnce(s[1..], x);
      if s[0] == x {
        assert x !in s[1..];
      }
    }
  }

  /** A permutation of a list without repetitions has none either. */
  lemma DistinctPermutation(a: seq<string>, b: seq<string>)
    requires Distinct(a)
    requires multiset(a) == multiset(b)
    ensures Distinct(b)
  {
    forall i, j | 0 <= i < j < |b| ensures b[i] != b[j] {
      if b[i] == b[j] {
        TwoOccurrences(b, i, j);
        DistinctOnce(a, b[i]);
      }
    }
  }

  /**
    The report order lists every type that occurs, and no other, in strictly
    increasing order.
   */
  lemma ReportOrderFacts(nc: seq<NonCompliant>)
    ensures var keys := ReportOrder(nc);
      Sorted(keys) && Distinct(keys) &&
      (forall t :: t in keys <==> t in Types(nc))
  {
    var order := TypeOrder(nc);
    var keys := ReportOrder(nc);
    TypeOrderFacts(nc);
    SortStringsSorted(order);
    DistinctPermutation(order, keys);
    forall t ensures t in keys <==> t in Types(nc) {
      assert t in keys <==> t in multiset(keys);
      assert t in order <==> t in multiset(order);
    }
  }

  /** With failures, the findings are the sections of the report order. */
  lemma ReportGroups(allResources: seq<Resource>, nc: seq<NonCompliant>)
    requires nc != []
    ensures forall k :: k in ReportOrder(nc) ==> k in GroupByType(nc)
    ensures ReportOf(allResources, nc).findings == Violations(|nc|, GroupsOf(ReportOrder(nc), GroupByType(nc)))
  {
    SortedKeysPresent(nc);
  }

  /** The sections come in strictly increasing type order. */
  lemma ReportSectionsOrdered(allResources: seq<Resource>, nc: seq<NonCompliant>)
    requires nc != []
    ensures var gs := ReportOf(allResources, nc).findings.groups;
      forall i, j :: 0 <= i < j < |gs| ==>
        LexLe(gs[i].resourceType, gs[j].resourceType) && gs[i].resourceType != gs[j].resourceType
  {
    ReportGroups(allResources, nc);
    ReportOrderFacts(nc);
  }

  /** The sections built from a list of types are for exactly those types. */
  lemma GroupsOfTypes(keys: seq<string>, byType: map<string, seq<NonCompliant>>, t: string)
    requires forall k :: k in keys ==> k in byType
    ensures (exists i :: 0 <= i < |keys| && GroupsOf(keys, byType)[i].resourceType == t) <==> t in keys
  {
    var gs := GroupsOf(keys, byType);
    if t in keys {
      var i :| 0 <= i < |keys| && keys[i] == t;
      assert gs[i].resourceType == t;
      assert exists i :: 0 <= i < |keys| && GroupsOf(keys, byType)[i].resourceType == t;
    } else {
      forall i | 0 <= i < |gs| ensures gs[i].resourceType != t {
        assert gs[i].resourceType == keys[i];
      }
    }
  }

  /** There is a section for a type exactly when some failing resource has that type. */
  lemma ReportSectionsCover(allResources: seq<Resource>, nc: seq<NonCompliant>, t: string)
    requires nc != []
    ensures var gs := ReportOf(allResources, nc).findings.groups;
      (exists i :: 0 <= i < |gs| && gs[i].resourceType == t) <==>
      (exists k :: 0 <= k < |nc| && nc[k].resourceType == t)
  {
    ReportGroups(allResources, nc);
    GroupsOfTypes(ReportOrder(nc), GroupByType(nc), t);
    ReportOrderFacts(nc);
    TypesMembership(nc, t);
  }

  /**
    Each section holds its type's records in input order: its count, the
    first five of them (all of them when there are at most five), and an
    "and N more" of size - 5 exactly when there are more than five.
   */
  lemma ReportSectionContents(allResources: seq<Resource>, nc: seq<NonCompliant>, i: nat)
    requires nc != []
    requires i < |ReportOf(allResources, nc).findings.groups|
    ensures var g := ReportOf(allResources, nc).findings.groups[i];
      var members := OfType(nc, g.resourceType);
      members != [] &&
      g.size == |members| &&
      g.shown == members[..if |members| <= MaxShownPerType then |members| else MaxShownPerType] &&
      (g.more.Some? <==> |members| > MaxShownPerType) &&
      (g.more.Some? ==> g.more.value == |members| - MaxShownPerType)
  {
    ReportGroups(allResources, nc);
    ReportOrderFacts(nc);
    GroupByTypeFacts(nc);
    var keys := ReportOrder(nc);
    var t := keys[i];
    assert t in keys;
    TypesMembership(nc, t);
    var k :| 0 <= k < |nc| && nc[k].resourceType == t;
    OfTypeHas(nc, k);
    GroupSectionShown(t, OfType(nc, t));
  }

  /** A section shows the first five of its records, all of them when there are at most five. */
  lemma GroupSectionShown(t: string, resources: seq<NonCompliant>)
    ensures GroupSection(t, resources).shown ==
      resources[..if |resources| <= MaxShownPerType then |resources| else MaxShownPerType]
  {
    if |resources| <= MaxShownPerType {
      assert resources[..|resources|] == resources;
    }
  }

  /** A record is among the records of its own type. */
  lemma {:induction false} OfTypeHas(nc: seq<NonCompliant>, k: nat)
    requires k < |nc|
    ensures nc[k] in OfType(nc, nc[k].resourceType)
  {
    var init := nc[..|nc| - 1];
    if k < |init| {
      OfTypeHas(init, k);
      assert init[k] == nc[k];
    }
  }

  /** How often `t` occurs in `keys`. */
  function Occurrences(keys: seq<string>, t: string): nat
  {
    if keys == [] then 0
    else Occurrences(keys[..|keys| - 1], t) + (if keys[|keys| - 1] == t then 1 else 0)
  }

  /** The total number of records of the types in `keys`. */
  function CountOf(keys: seq<string>, nc: seq<NonCompliant>): nat
  {
    if keys == [] then 0 else CountOf(keys[..|keys| - 1], nc) + |OfType(nc, keys[|keys| - 1])|
  }

  function TotalSize(gs: seq<TypeGroup>): nat
  {
    if gs == [] then 0 else TotalSize(gs[..|gs| - 1]) + gs[|gs| - 1].size
  }

  lemma {:induction false} CountOfSnoc(keys: seq<string>, nc: seq<NonCompliant>, x: NonCompliant)
    ensures CountOf(keys, nc + [x]) == CountOf(keys, nc) + Occurrences(keys, x.resourceType)
  {
    assert (nc + [x])[..|nc|] == nc;
    if keys != [] {
      CountOfSnoc(keys[..|keys| - 1], nc, x);
    }
  }

  lemma {:induction false} OccursOnce(keys: seq<string>, t: string)
    requires Distinct(keys)
    ensures Occurrences(keys, t) == if t in keys then 1 else 0
  {
    if keys != [] {
      var init := keys[..|keys| - 1];
      OccursOnce(init, t);
      assert t in keys <==> t in init || keys[|keys| - 1] == t;
    }
  }

  lemma {:induction false} CountOfCovers(keys: seq<string>, nc: seq<NonCompliant>)
    requires Distinct(keys)
    requires forall i :: 0 <= i < |nc| ==> nc[i].resourceType in keys
    ensures CountOf(keys, nc) == |nc|
  {
    if nc == [] {
      CountOfEmpty(keys);
    } else {
      var init := nc[..|nc| - 1];
      var x := nc[|nc| - 1];
      assert nc == init + [x];
      CountOfCovers(keys, init);
      CountOfSnoc(keys, init, x);
      OccursOnce(keys, x.resourceType);
    }
  }

  lemma {:induction false} CountOfEmpty(keys: seq<string>)
    ensures CountOf(keys, []) == 0
  {
    if keys != [] {
      CountOfEmpty(keys[..|keys| - 1]);
    }
  }

  lemma {:induction false} TotalSizeGroups(keys: seq<string>, nc: seq<NonCompliant>)
    requires forall k :: k in keys ==> k in GroupByType(nc)
    ensures TotalSize(GroupsOf(keys, GroupByType(nc))) == CountOf(keys, nc)
  {
    GroupByTypeFacts(nc);
    if keys != [] {
      var init := keys[..|keys| - 1];
      TotalSizeGroups(init, nc);
      assert GroupsOf(keys, GroupByType(nc))[..|init|] == GroupsOf(init, GroupByType(nc));
    }
  }

  /** Each failing resource is counted in exactly one section: the sizes add up to the number of failures. */
  lemma ReportPartition(allResources: seq<Resource>, nc: seq<NonCompliant>)
    requires nc != []
    ensures TotalSize(ReportOf(allResources, nc).findings.groups) == |nc|
  {
    var keys := ReportOrder(nc);
    SortedKeysPresent(nc);
    TotalSizeGroups(keys, nc);
    ReportOrderFacts(nc);
    forall i | 0 <= i < |nc| ensures nc[i].resourceType in keys {
      TypesMembership(nc, nc[i].resourceType);
    }
    CountOfCovers(keys, nc);
    ReportGroups(allResources, nc);
  }

  /** With no more failures than resources the rate is a percentage; without resources it is 0. */
  lemma ComplianceRateBounds(total: nat, failing: nat)
    requires failing <= total
    ensures 0.0 <= ComplianceRate(total, total - failing) <= 100.0
    ensures total == 0 ==> ComplianceRate(total, total - failing) == 0.0
  {
    if total > 0 {
      var q := ((total - failing) as real) / (total as real);
      assert q * (total as real) == (total - failing) as real;
      assert 0.0 <= q <= 1.0;
    }
  }

  // ---------------------------------------------------------------------------
  // The handler
  // ---------------------------------------------------------------------------

  /**
    The body of the handler's answer. Only a summary of a non-empty inventory
    is ever built, and its `compliance_rate` is `Rate()`.
   */
  datatype Summary = Summary(totalResources: nat, compliant: int, nonCompliant: nat)
  {
    function Rate(): real
    {
      ComplianceRate(totalResources, compliant)
    }
  }

  const DivisionByZero: string := "division by zero"

  /**
    The summary `lambda_handler` returns: the counts of the audit records.
    Its rate divides by the inventory size without a guard, so an empty
    inventory raises instead.
   */
  function SummaryOf(allResources: seq<Resource>, nc: seq<NonCompliant>): Result<Summary, string>
  {
    var total := |allResources|;
    if total == 0 then Failure(DivisionByZero)
    else Success(Summary(total, total - |nc|, |nc|))
  }

  /**
    `lambda_handler`, given the whole inventory and the outcome of publishing
    the report (the exception's message, if any): the audit, the report that
    is published, and the summary, or the exception that ends the handler.
   */
  method LambdaHandler(allResources: seq<Resource>, publishError: Option<string>)
    returns (report: Report, outcome: Result<Summary, string>)
    ensures report == ReportOf(allResources, NonCompliantOf(allResources))
    ensures publishError.Some? ==> outcome == Failure(publishError.value)
    ensures publishError.None? ==> outcome == SummaryOf(allResources, NonCompliantOf(allResources))
  {
    var nonCompliant := FindNonCompliant(allResources);
    report := GenerateReport(allResources, nonCompliant);
    if publishError.Some? {
      return report, Failure(publishError.value);
    }
    outcome := SummaryOf(allResources, nonCompliant);
  }

  /**
    The summary of a non-empty inventory reports the compliant resources, the
    failing ones, and a rate that is a percentage.
   */
  lemma SummaryMeaning(allResources: seq<Resource>)
    requires allResources != []
    ensures var nc := NonCompliantOf(allResources);
      var s := SummaryOf(allResources, nc);
      s.Success? && s.value.totalResources == |allResources| &&
      s.value.compliant == CompliantCount(allResources) && s.value.nonCompliant == |nc| &&
      0.0 <= s.value.Rate() <= 100.0
  {
    var nc := NonCompliantOf(allResources);
    PartitionCounts(allResources);
    ComplianceRateBounds(|allResources|, |nc|);
  }

  /** An empty inventory ends the handler with a division by zero, though its report has rate 0. */
  lemma EmptyInventoryRaises()
    ensures SummaryOf([], []) == Failure(DivisionByZero)
    ensures ReportOf([], []).Rate() == 0.0
  {
  }
}
