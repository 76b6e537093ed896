/** The record transform and validation steps (app/step_logic.py):
    `transform_records` normalises every input record, `validate_records`
    splits the normalised records into valid ones, each with an age bracket,
    and invalid ones, each with the reason of the first rule it breaks. */
module StepLogic {
  import opened Builtins
  import opened Schemas

  // ---------------------------------------------------------------------
  // transform_records

  /** The dictionary `transform_records` builds for one record: every key
      present, text fields stripped, `email` and `source` also lower-cased,
      a missing `source` read as "unknown", `age` passed through. */
  function Normalize(r: Record): Record {
    Record(
      Some(Strip(r.recordKey.GetOr(""))),
      Some(Strip(r.fullName.GetOr(""))),
      Some(Lower(Strip(r.email.GetOr("")))),
      r.age,
      Some(Lower(Strip(r.source.GetOr("unknown")))))
  }

  predicate IsLower(s: string) {
    forall i :: 0 <= i < |s| ==> !('A' <= s[i] <= 'Z')
  }

  /** The shape of a normalised record. */
  predicate IsNormalized(r: Record) {
    && r.recordKey.Some? && NoOuterSpace(r.recordKey.value)
    && r.fullName.Some? && NoOuterSpace(r.fullName.value)
    && r.email.Some? && NoOuterSpace(r.email.value) && IsLower(r.email.value)
    && r.source.Some? && NoOuterSpace(r.source.value) && IsLower(r.source.value)
  }

  /** Stripping and then lower-casing yields a stripped, lower-case string. */
  lemma StrippedLower(s: string)
    ensures NoOuterSpace(Lower(Strip(s))) && IsLower(Lower(Strip(s)))
  {
    StripShape(s);
    StripLowerCommute(s);
    StripShape(Lower(s));
    LowerSpec(Strip(s));
  }

  /** Normalising gives every field: `record_key` and `full_name` are the
      input's own text with the surrounding whitespace cut, `email` and
      `source` the input's text lower-cased with it cut, a missing text
      field reads as "" and a missing `source` as "unknown", and `age` is
      passed through. The result is normalised, and normalising it again
      leaves it as it is. */
  lemma NormalizeSpec(r: Record)
    ensures var n := Normalize(r);
      && n.recordKey.Some? && StrippedFrom(n.recordKey.value, r.recordKey.GetOr(""))
      && n.fullName.Some? && StrippedFrom(n.fullName.value, r.fullName.GetOr(""))
      && n.email.Some? && StrippedFrom(n.email.value, Lower(r.email.GetOr("")))
      && n.age == r.age
      && n.source.Some?
      && (r.source.None? ==> n.source.value == "unknown")
      && (r.source.Some? ==> StrippedFrom(n.source.value, Lower(r.source.value)))
    ensures IsNormalized(Normalize(r))
    ensures Normalize(Normalize(r)) == Normalize(r)
  {
    var n := Normalize(r);
    StripShape(r.recordKey.GetOr(""));
    StripShape(r.fullName.GetOr(""));
    StrippedLower(r.email.GetOr(""));
    StrippedLower(r.source.GetOr("unknown"));
    StripLowerCommute(r.email.GetOr(""));
    StripShape(Lower(r.email.GetOr("")));
    StripLowerCommute(r.source.GetOr("unknown"));
    StripShape(Lower(r.source.GetOr("unknown")));
    if r.source.None? {
      assert IsLower("unknown") && NoOuterSpace("unknown");
      StripOfStripped("unknown");
      LowerOfLower("unknown");
    }
    StripOfStripped(n.recordKey.value);
    StripOfStripped(n.fullName.value);
    StripOfStripped(n.email.value);
    StripOfStripped(n.source.value);
    LowerOfLower(n.email.value);
    LowerOfLower(n.source.value);
  }

  lemma LowerOfLower(s: string)
    requires IsLower(s)
    ensures Lower(s) == s
  {
  }

  /** `transform_records` as a value: one normalised record per input, in order. */
  function Transformed(records: seq<Record>): seq<Record> {
    seq(|records|, i requires 0 <= i < |records| => Normalize(records[i]))
  }

  /** One record out per record in, in order, each the normalisation of
      its input (see `NormalizeSpec`); the output is normalised, and
      transforming it again changes nothing. */
  lemma TransformedSpec(records: seq<Record>)
    ensures |Transformed(records)| == |records|
    ensures forall i :: 0 <= i < |records| ==> Transformed(records)[i] == Normalize(records[i])
    ensures forall i :: 0 <= i < |records| ==>
      Transformed(records)[i].age == records[i].age && IsNormalized(Transformed(records)[i])
    ensures Transformed(Transformed(records)) == Transformed(records)
  {
    forall i | 0 <= i < |records|
      ensures Transformed(records)[i].age == records[i].age && IsNormalized(Transformed(records)[i])
      ensures Normalize(Transformed(records)[i]) == Transformed(records)[i]
    {
      NormalizeSpec(records[i]);
    }
  }

  /** `transform_records(records)` */
  method TransformRecords(records: seq<Record>) returns (transformed: seq<Record>)
    ensures transformed == Transformed(records)
  {
    transformed := [];
    for i := 0 to |records|
      invariant |transformed| == i
      invariant forall k :: 0 <= k < i ==> transformed[k] == Normalize(records[k])
    {
      transformed := transformed + [Normalize(records[i])];
    }
  }

  // ---------------------------------------------------------------------
  // validate_records

  const AgeNotInteger := "age must be an integer"
  const RecordKeyRequired := "record_key is required"
  const FullNameRequired := "full_name is required"
  const EmailInvalid := "email format is invalid"
  const AgeOutOfRange := "age must be between 18 and 120"

  /** `int(age)`: `None` where Python raises `TypeError` or `ValueError`. */
  function AgeValue(a: Age): Option<int> {
    match a
    case AgeInt(n) => Some(n)
    case AgeBool(b) => Some(if b then 1 else 0)
    case AgeText(t) => ParseInt(t)
    case AgeMissing => None
  }

  function AgeGroup(age: int): string {
    if age <= 34 then "18-34" else if age <= 54 then "35-54" else "55+"
  }

  /** What `validate_records` does with one record. */
  datatype Verdict = Accept(valid: ValidRecord) | Reject(reason: string)

  /** The checks of one loop iteration of `validate_records`, in order. */
  function Check(r: Record): Verdict {
    var recordKey := Strip(r.recordKey.GetOr(""));
    var fullName := Strip(r.fullName.GetOr(""));
    var email := Lower(Strip(r.email.GetOr("")));
    match AgeValue(r.age)
    case None => Reject(AgeNotInteger)
    case Some(age) =>
      if recordKey == "" then Reject(RecordKeyRequired)
      else if fullName == "" then Reject(FullNameRequired)
      else if !('@' in email) || !('.' in email) then Reject(EmailInvalid)
      else if age < 18 || age > 120 then Reject(AgeOutOfRange)
      else Accept(ValidRecord(recordKey, fullName, email, age, AgeGroup(age), r.source.GetOr("unknown")))
  }

  // The rules as a table: rule k holds of a record, and the reason given
  // when it is the first to fail.

  const RuleCount := 5

  predicate RuleHolds(k: nat, r: Record)
    requires k < RuleCount
  {
    match k
    case 0 => AgeValue(r.age).Some?
    case 1 => Strip(r.recordKey.GetOr("")) != ""
    case 2 => Strip(r.fullName.GetOr("")) != ""
    case 3 => '@' in Lower(Strip(r.email.GetOr(""))) && '.' in Lower(Strip(r.email.GetOr("")))
    case _ => AgeValue(r.age).Some? && 18 <= AgeValue(r.age).value <= 120
  }

  function RuleReason(k: nat): string
    requires k < RuleCount
  {
    [AgeNotInteger, RecordKeyRequired, FullNameRequired, EmailInvalid, AgeOutOfRange][k]
  }

  /** The first rule at or after `k` that `r` breaks. */
  function FirstBrokenRule(r: Record, k: nat): (f: Option<nat>)
    requires k <= RuleCount
    ensures f.Some? ==> k <= f.value < RuleCount && !RuleHolds(f.value, r)
    ensures f.Some? ==> forall j :: k <= j < f.value ==> RuleHolds(j, r)
    ensures f.None? ==> forall j :: k <= j < RuleCount ==> RuleHolds(j, r)
    decreases RuleCount - k
  {
    if k == RuleCount then None
    else if !RuleHolds(k, r) then Some(k)
    else FirstBrokenRule(r, k + 1)
  }

  /** A record is rejected exactly when it breaks a rule, and then with the
      reason of the first rule it breaks. */
  lemma CheckRejectsFirstBrokenRule(r: Record)
    ensures Check(r).Reject? <==> FirstBrokenRule(r, 0).Some?
    ensures Check(r).Reject? ==> Check(r).reason == RuleReason(FirstBrokenRule(r, 0).value)
  {
    var f := FirstBrokenRule(r, 0);
    if f.Some? {
      assert !RuleHolds(f.value, r);
    } else {
      assert RuleHolds(0, r) && RuleHolds(1, r) && RuleHolds(2, r) && RuleHolds(3, r) && RuleHolds(4, r);
    }
  }

  /** A valid record: non-empty stripped key and name, an e-mail holding
      "@" and ".", an age in [18, 120] and the bracket of that age. */
  predicate WellFormedValid(v: ValidRecord) {
    && v.recordKey != "" && NoOuterSpace(v.recordKey)
    && v.fullName != "" && NoOuterSpace(v.fullName)
    && '@' in v.email && '.' in v.email
    && 18 <= v.age <= 120
    && (v.ageGroup == "18-34" <==> v.age <= 34)
    && (v.ageGroup == "35-54" <==> 35 <= v.age <= 54)
    && (v.ageGroup == "55+" <==> 55 <= v.age)
  }

  /** An accepted record is well formed and carries the record's own values;
      `source` is copied as it stands, without stripping. */
  lemma AcceptedShape(r: Record)
    requires Check(r).Accept?
    ensures WellFormedValid(Check(r).valid)
    ensures var v := Check(r).valid;
      && v.recordKey == Strip(r.recordKey.GetOr(""))
      && v.fullName == Strip(r.fullName.GetOr(""))
      && v.email == Lower(Strip(r.email.GetOr("")))
      && Some(v.age) == AgeValue(r.age)
      && v.source == r.source.GetOr("unknown")
  {
    StripShape(r.recordKey.GetOr(""));
    StripShape(r.fullName.GetOr(""));
  }

  /** `validate_records(records)` as a value: the valid records and the
      invalid ones, each list in input order. */
  function Partition(records: seq<Record>): (seq<ValidRecord>, seq<InvalidRecord>)
    decreases |records|
  {
    if records == [] then ([], [])
    else
      var n := |records| - 1;
      var (valid, invalid) := Partition(records[..n]);
      match Check(records[n])
      case Accept(v) => (valid + [v], invalid)
      case Reject(reason) => (valid, invalid + [InvalidRecord(n, records[n], reason)])
  }

  /** Every input position lands in exactly one of the two lists. */
  lemma {:induction false} PartitionSizes(records: seq<Record>)
    ensures |Partition(records).0| + |Partition(records).1| == |records|
    decreases |records|
  {
    if records != [] {
      PartitionSizes(records[..|records| - 1]);
    }
  }

  /** The invalid list holds, in ascending position order, exactly the
      rejected positions, each with its original record and its reason. */
  lemma PartitionInvalid(records: seq<Record>)
    ensures var invalid := Partition(records).1;
      && (forall j :: 0 <= j < |invalid| ==>
            0 <= invalid[j].recordIndex < |records|
            && invalid[j].record == records[invalid[j].recordIndex]
            && Check(records[invalid[j].recordIndex]) == Reject(invalid[j].reason))
      && (forall j, k :: 0 <= j < k < |invalid| ==> invalid[j].recordIndex < invalid[k].recordIndex)
      && (forall i :: 0 <= i < |records| && Check(records[i]).Reject? ==>
            exists j :: 0 <= j < |invalid| && invalid[j].recordIndex == i)
  {
    PartitionInvalidEntries(records);
    PartitionInvalidAscending(records);
    PartitionInvalidCovers(records);
  }

  /** One more record goes to exactly one of the two lists, at its end. */
  lemma PartitionStep(records: seq<Record>)
    requires records != []
    ensures var n := |records| - 1;
      var p := Partition(records[..n]);
      Partition(records) == match Check(records[n])
        case Accept(v) => (p.0 + [v], p.1)
        case Reject(reason) => (p.0, p.1 + [InvalidRecord(n, records[n], reason)])
  {
  }

  lemma {:induction false} PartitionInvalidEntries(records: seq<Record>)
    ensures var invalid := Partition(records).1;
      forall j :: 0 <= j < |invalid| ==>
        0 <= invalid[j].recordIndex < |records|
        && invalid[j].record == records[invalid[j].recordIndex]
        && Check(records[invalid[j].recordIndex]) == Reject(invalid[j].reason)
    decreases |records|
  {
    if records != [] {
      var n := |records| - 1;
      var prefix := records[..n];
      PartitionInvalidEntries(prefix);
      PartitionStep(records);
      assert forall i :: 0 <= i < n ==> prefix[i] == records[i];
    }
  }

  lemma {:induction false} PartitionInvalidAscending(records: seq<Record>)
    ensures var invalid := Partition(records).1;
      forall j, k :: 0 <= j < k < |invalid| ==> invalid[j].recordIndex < invalid[k].recordIndex
    decreases |records|
  {
    if records != [] {
      var n := |records| - 1;
      var prefix := records[..n];
      PartitionInvalidAscending(prefix);
      PartitionInvalidEntries(prefix);
      PartitionStep(records);
    }
  }

  lemma {:induction false} PartitionInvalidCovers(records: seq<Record>)
    ensures var invalid := Partition(records).1;
      forall i :: 0 <= i < |records| && Check(records[i]).Reject? ==>
        exists j :: 0 <= j < |invalid| && invalid[j].recordIndex == i
    decreases |records|
  {
    if records != [] {
      var n := |records| - 1;
      var prefix := records[..n];
      PartitionInvalidCovers(prefix);
      PartitionStep(records);
      var invalid := Partition(prefix).1;
      var invalid' := Partition(records).1;
      assert |invalid| <= |invalid'|;
      assert forall j :: 0 <= j < |invalid| ==> invalid'[j] == invalid[j];
      forall i | 0 <= i < |records| && Check(records[i]).Reject?
        ensures exists j :: 0 <= j < |invalid'| && invalid'[j].recordIndex == i
      {
        if i == n {
          assert invalid'[|invalid|].recordIndex == i;
        } else {
          assert prefix[i] == records[i];
          var j :| 0 <= j < |invalid| && invalid[j].recordIndex == i;
          assert invalid'[j].recordIndex == i;
        }
      }
    }
  }

  /** `v` is what `Check` accepts for some input position of `records`. */
  ghost predicate AcceptedAt(records: seq<Record>, v: ValidRecord) {
    exists i :: 0 <= i < |records| && Check(records[i]) == Accept(v)
  }

  /** What `Check` accepts, record by record from the front: each accepted
      record once, in input order. */
  function Accepted(records: seq<Record>): seq<ValidRecord> {
    if records == [] then []
    else
      (match Check(records[0]) case Accept(v) => [v] case Reject(_) => [])
      + Accepted(records[1..])
  }

  lemma {:induction false} AcceptedAppend(records: seq<Record>, r: Record)
    ensures Accepted(records + [r]) == Accepted(records) + (match Check(r) case Accept(v) => [v] case Reject(_) => [])
    decreases |records|
  {
    if records != [] {
      assert (records + [r])[1..] == records[1..] + [r];
      AcceptedAppend(records[1..], r);
    } else {
      assert [r][1..] == [];
    }
  }

  lemma {:induction false} PartitionAccepted(records: seq<Record>)
    ensures Partition(records).0 == Accepted(records)
    decreases |records|
  {
    if records != [] {
      var n := |records| - 1;
      PartitionAccepted(records[..n]);
      assert records[..n] + [records[n]] == records;
      AcceptedAppend(records[..n], records[n]);
    }
  }

  /** The valid list holds exactly the accepted records, each once and in
      input order; each is what `Check` accepted at some position, and
      well formed. */
  lemma {:induction false} PartitionValid(records: seq<Record>)
    ensures Partition(records).0 == Accepted(records)
    ensures forall j :: 0 <= j < |Partition(records).0| ==> AcceptedAt(records, Partition(records).0[j])
    ensures forall j :: 0 <= j < |Partition(records).0| ==> WellFormedValid(Partition(records).0[j])
    decreases |records|
  {
    PartitionAccepted(records);
    if records != [] {
      var n := |records| - 1;
      var prefix := records[..n];
      PartitionValid(prefix);
      var valid := Partition(prefix).0;
      var valid' := Partition(records).0;
      forall j | 0 <= j < |valid|
        ensures AcceptedAt(records, valid[j])
      {
        assert AcceptedAt(prefix, valid[j]);
        var i :| 0 <= i < |prefix| && Check(prefix[i]) == Accept(valid[j]);
        assert records[i] == prefix[i];
      }
      if Check(records[n]).Accept? {
        AcceptedShape(records[n]);
        assert valid' == valid + [Check(records[n]).valid];
        assert Check(records[n]) == Accept(valid'[|valid|]);
        assert forall j :: 0 <= j < |valid| ==> valid'[j] == valid[j];
      } else {
        assert valid' == valid;
      }
    }
  }

  /** `validate_records(records)` */
  method ValidateRecords(records: seq<Record>) returns (valid: seq<ValidRecord>, invalid: seq<InvalidRecord>)
    ensures (valid, invalid) == Partition(records)
  {
    valid, invalid := [], [];
    for index := 0 to |records|
      invariant (valid, invalid) == Partition(records[..index])
    {
      assert records[..index + 1][..index] == records[..index];
      var record := records[index];
      var recordKey := Strip(record.recordKey.GetOr(""));
      var fullName := Strip(record.fullName.GetOr(""));
      var email := Lower(Strip(record.email.GetOr("")));

      var ageValue := AgeValue(record.age);
      if ageValue.None? {
        invalid := invalid + [InvalidRecord(index, record, AgeNotInteger)];
        continue;
      }
      var age := ageValue.value;

      if recordKey == "" {
        invalid := invalid + [InvalidRecord(index, record, RecordKeyRequired)];
        continue;
      }
      if fullName == "" {
        invalid := invalid + [InvalidRecord(index, record, FullNameRequired)];
        continue;
      }
      if !('@' in email) || !('.' in email) {
        invalid := invalid + [InvalidRecord(index, record, EmailInvalid)];
        continue;
      }
      if age < 18 || age > 120 {
        invalid := invalid + [InvalidRecord(index, record, AgeOutOfRange)];
        continue;
      }

      var ageGroup := if age <= 34 then "18-34" else if age <= 54 then "35-54" else "55+";
      valid := valid + [ValidRecord(recordKey, fullName, email, age, ageGroup, record.source.GetOr("unknown"))];
    }
    assert records[..|records|] == records;
  }
}
