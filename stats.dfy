/**
 * `computeCompletionStats` and `computeVaccineCounts`: counting loops over
 * the records and the four vaccines, comparing statuses case-insensitively
 * with "accepted".
 */
module Stats {
  import opened JsString
  import opened Records

  /**
   * `String(status || "").toLowerCase() === "accepted"`; a missing status is
   * `""`. ASCII lower-casing is exact here: the only non-ASCII code point that
   * lower-cases into ASCII is the Kelvin sign, giving `k`, which "accepted" lacks.
   */
  predicate IsAccepted(status: string) {
    LowerEquals(status, "accepted")
  }

  /** The test is the comparison of the lower-cased status with "accepted". */
  lemma IsAcceptedIsLowerCaseMatch(status: string)
    ensures IsAccepted(status) <==> Lower(status) == "accepted"
  {
    LowerEqualsSpec(status, "accepted");
  }

  /** `VACCINES.every(v => accepted(r[v]))`. */
  predicate IsComplete(r: Record) {
    forall v :: v in VACCINES ==> IsAccepted(Status(r, v))
  }

  /** The number of complete records. */
  function CompleteCount(rs: seq<Record>): (n: nat)
    ensures n <= |rs|
  {
    if rs == [] then 0
    else CompleteCount(rs[..|rs| - 1]) + (if IsComplete(rs[|rs| - 1]) then 1 else 0)
  }

  /** The number of records whose status for `v` is accepted. */
  function AcceptedCount(rs: seq<Record>, v: Vaccine): (n: nat)
    ensures n <= |rs|
  {
    if rs == [] then 0
    else AcceptedCount(rs[..|rs| - 1], v) + (if IsAccepted(Status(rs[|rs| - 1], v)) then 1 else 0)
  }

  /** The `{ complete, incomplete }` object. */
  datatype CompletionStats = CompletionStats(complete: nat, incomplete: nat)

  /** A record is complete exactly when its four status fields are all accepted. */
  lemma CompleteIffFourAccepted(r: Record)
    ensures IsComplete(r) <==>
      IsAccepted(r.bcg) && IsAccepted(r.opv) && IsAccepted(r.pentavalent) && IsAccepted(r.measles)
  {
    assert BCG in VACCINES && OPV in VACCINES && Pentavalent in VACCINES && Measles in VACCINES;
  }

  /** `computeCompletionStats(records)`. */
  method ComputeCompletionStats(records: seq<Record>) returns (stats: CompletionStats)
    ensures stats.complete == CompleteCount(records)
    ensures stats.complete + stats.incomplete == |records|
  {
    var complete, incomplete := 0, 0;
    for i := 0 to |records|
      invariant complete == CompleteCount(records[..i])
      invariant complete + incomplete == i
    {
      assert records[..i + 1][..i] == records[..i];
      var ok := IsComplete(records[i]);
      if ok {
        complete := complete + 1;
      } else {
        incomplete := incomplete + 1;
      }
    }
    assert records[..|records|] == records;
    stats := CompletionStats(complete, incomplete);
  }

  /** `computeVaccineCounts(records)`: a key for each of the four vaccines, each with its accepted count. */
  method ComputeVaccineCounts(records: seq<Record>) returns (counts: map<Vaccine, nat>)
    ensures forall v :: v in counts && counts[v] == AcceptedCount(records, v)
  {
    counts := map[BCG := 0, OPV := 0, Pentavalent := 0, Measles := 0];
    assert forall v :: v in counts by {
      forall v
        ensures v in counts
      {
        assert v.BCG? || v.OPV? || v.Pentavalent? || v.Measles?;
      }
    }
    assert records[..0] == [];
    for i := 0 to |records|
      invariant forall v :: v in counts
      invariant forall k :: 0 <= k < |VACCINES| ==> counts[VACCINES[k]] == AcceptedCount(records[..i], VACCINES[k])
    {
      var r := records[i];
      ghost var before := counts;
      for j := 0 to |VACCINES|
        invariant forall v :: v in counts
        invariant forall k :: 0 <= k < |VACCINES| ==>
          counts[VACCINES[k]] == before[VACCINES[k]] + (if k < j && IsAccepted(Status(r, VACCINES[k])) then 1 else 0)
      {
        var v := VACCINES[j];
        if IsAccepted(Status(r, v)) {
          counts := counts[v := counts[v] + 1];
        }
      }
      forall k | 0 <= k < |VACCINES|
        ensures counts[VACCINES[k]] == AcceptedCount(records[..i + 1], VACCINES[k])
      {
        AcceptedCountSnoc(records, i, VACCINES[k]);
      }
    }
    assert records[..|records|] == records;
    forall v
      ensures counts[v] == AcceptedCount(records, v)
    {
      assert VACCINES[VaccineIndex(v)] == v;
    }
  }

  lemma AcceptedCountSnoc(rs: seq<Record>, i: nat, v: Vaccine)
    requires i < |rs|
    ensures AcceptedCount(rs[..i + 1], v) == AcceptedCount(rs[..i], v) + (if IsAccepted(Status(rs[i], v)) then 1 else 0)
  {
    assert rs[..i + 1][..i] == rs[..i];
  }

  /** The position of `v` in `VACCINES`. */
  function VaccineIndex(v: Vaccine): (k: nat)
    ensures k < |VACCINES| && VACCINES[k] == v
  {
    match v
    case BCG => 0
    case OPV => 1
    case Pentavalent => 2
    case Measles => 3
  }

  /** Counts split over concatenation, so per-barangay counts add up to the municipal ones. */
  lemma {:induction false} CountsOfConcat(a: seq<Record>, b: seq<Record>, v: Vaccine)
    ensures CompleteCount(a + b) == CompleteCount(a) + CompleteCount(b)
    ensures AcceptedCount(a + b, v) == AcceptedCount(a, v) + AcceptedCount(b, v)
    decreases |b|
  {
    if b == [] {
      assert a + b == a;
    } else {
      var b0 := b[..|b| - 1];
      assert (a + b)[..|a + b| - 1] == a + b0;
      assert (a + b)[|a + b| - 1] == b[|b| - 1];
      CountsOfConcat(a, b0, v);
    }
  }

  /** Every complete record counts for every vaccine: `complete <= counts[v] <= |records|`. */
  lemma {:induction false} CompleteBelowAccepted(rs: seq<Record>, v: Vaccine)
    ensures CompleteCount(rs) <= AcceptedCount(rs, v) <= |rs|
    decreases |rs|
  {
    if rs != [] {
      CompleteBelowAccepted(rs[..|rs| - 1], v);
      assert VACCINES[VaccineIndex(v)] == v;
    }
  }

  /** The positions of the records accepted for `v`. */
  function AcceptedAt(rs: seq<Record>, v: Vaccine): set<nat> {
    set i: nat | i < |rs| && IsAccepted(Status(rs[i], v))
  }

  /** The accepted positions of a non-empty list: those of its prefix, and the last when it is accepted. */
  lemma AcceptedAtSnoc(rs: seq<Record>, v: Vaccine)
    requires rs != []
    ensures var init, last := rs[..|rs| - 1], |rs| - 1;
      AcceptedAt(rs, v) == AcceptedAt(init, v) + (if IsAccepted(Status(rs[last], v)) then {last} else {})
      && last !in AcceptedAt(init, v)
  {
    var init, last := rs[..|rs| - 1], |rs| - 1;
    var a, before := AcceptedAt(rs, v), AcceptedAt(init, v);
    forall i: nat | i < last
      ensures i in a <==> i in before
    {
      assert rs[i] == init[i];
    }
  }

  /** The count is the number of accepted positions: an independent, order-free reading of the loop. */
  lemma {:induction false} AcceptedCountIsCardinality(rs: seq<Record>, v: Vaccine)
    ensures AcceptedCount(rs, v) == |AcceptedAt(rs, v)|
    decreases |rs|
  {
    if rs == [] {
      assert AcceptedAt(rs, v) == {};
    } else {
      var init := rs[..|rs| - 1];
      AcceptedCountIsCardinality(init, v);
      AcceptedAtSnoc(rs, v);
    }
  }
}
