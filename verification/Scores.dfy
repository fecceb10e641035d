/** The score of two records in numbers, field by field, and what it leads to with the default thresholds. */
module Scores {
  import opened Matching

  // ---------------------------------------------------------------- points and costs

  /** What a field earns if the records agree on it. */
  function Points(l: Record, r: Record, f: Field, weight: int): int {
    if l(f) != "" && r(f) == l(f) then weight else 0
  }

  /** What a field costs if the records differ on it. */
  function Cost(l: Record, r: Record, f: Field, penalty: int): int {
    if l(f) != "" && r(f) != "" && l(f) != r(f) then penalty else 0
  }

  /** What a field earns if the records have similar values for it: a tenth of the percentage, at least 1. */
  function SimilarPoints(l: Record, r: Record, f: Field, ratio: (string, string) -> int, threshold: int, cap: int)
    : int
  {
    if l(f) == "" || r(f) == "" || ratio(l(f), r(f)) < threshold then 0
    else if ratio(l(f), r(f)) < 20 then 1
    else if ratio(l(f), r(f)) / 10 > cap then cap
    else ratio(l(f), r(f)) / 10
  }

  function ExactPoints(l: Record, r: Record): int {
    Points(l, r, MacAddress, 96) + Points(l, r, AssetTag, 95) + Points(l, r, SerialNumber, 92)
    + Points(l, r, Hostname, 40) + Points(l, r, IpAddress, 35) + Points(l, r, DepartmentName, 10)
    + Points(l, r, RoomName, 10) + Points(l, r, NetworkZone, 12) + Points(l, r, Vendor, 5) + Points(l, r, Brand, 5)
    + Points(l, r, Model, 7)
  }

  /** The same for a field that earns nothing else by agreeing. */
  function UnlessEqual(l: Record, r: Record, f: Field, points: int): int {
    if l(f) == r(f) then 0 else points
  }

  function FuzzyPoints(l: Record, r: Record, s: Settings, ratio: (string, string) -> int): int {
    var t := s.fuzzySimilarity;
    UnlessEqual(l, r, Hostname, SimilarPoints(l, r, Hostname, ratio, s.hostnameSimilarity, 18))
    + UnlessEqual(l, r, AssetTag, SimilarPoints(l, r, AssetTag, ratio, t, 8))
    + UnlessEqual(l, r, DepartmentName, SimilarPoints(l, r, DepartmentName, ratio, t, 8))
    + SimilarPoints(l, r, BuildingName, ratio, t, 8) + SimilarPoints(l, r, FloorName, ratio, t, 8)
    + UnlessEqual(l, r, RoomName, SimilarPoints(l, r, RoomName, ratio, t, 8))
    + UnlessEqual(l, r, Vendor, SimilarPoints(l, r, Vendor, ratio, t, 8))
    + UnlessEqual(l, r, Brand, SimilarPoints(l, r, Brand, ratio, t, 8))
    + UnlessEqual(l, r, Model, SimilarPoints(l, r, Model, ratio, t, 8))
  }

  predicate IdentityAgrees(l: Record, r: Record) {
    || (l(MacAddress) != "" && r(MacAddress) == l(MacAddress))
    || (l(AssetTag) != "" && r(AssetTag) == l(AssetTag))
    || (l(SerialNumber) != "" && r(SerialNumber) == l(SerialNumber))
  }

  function Costs(l: Record, r: Record, penalty: int): int {
    Cost(l, r, MacAddress, penalty) + Cost(l, r, AssetTag, penalty) + Cost(l, r, SerialNumber, penalty)
    + if IdentityAgrees(l, r) then Cost(l, r, Hostname, penalty) else 0
  }

  // ---------------------------------------------------------------- agreeing fields

  lemma {:induction false} MatchingExactly(l: Record, r: Record, fields: seq<Field>, f: Field)
    ensures f in MatchingOf(l, r, fields) <==> f in fields && l(f) != "" && r(f) == l(f)
  {
    if fields != [] {
      MatchingExactly(l, r, fields[..|fields| - 1], f);
      assert fields == fields[..|fields| - 1] + [fields[|fields| - 1]];
    }
  }

  ghost predicate Precedes(fields: seq<Field>, f: Field, g: Field) {
    exists p, q :: 0 <= p < q < |fields| && fields[p] == f && fields[q] == g
  }

  /** The fields are listed in this order, each once. */
  ghost predicate InOrder(fields: seq<Field>, m: seq<Field>) {
    forall i, j :: 0 <= i < j < |m| ==> Precedes(fields, m[i], m[j])
  }

  /** The fields on which the records agree are listed exactly once, in the order of the weights. */
  lemma {:induction false} MatchingInOrder(l: Record, r: Record, fields: seq<Field>)
    requires forall i, j :: 0 <= i < j < |fields| ==> fields[i] != fields[j]
    ensures InOrder(fields, MatchingOf(l, r, fields))
  {
    if fields != [] {
      var n := |fields| - 1;
      MatchingInOrder(l, r, fields[..n]);
      var rest, m := MatchingOf(l, r, fields[..n]), MatchingOf(l, r, fields);
      forall i, j | 0 <= i < j < |m|
        ensures Precedes(fields, m[i], m[j])
      {
        if j < |rest| {
          assert Precedes(fields[..n], rest[i], rest[j]);
          var p, q :| 0 <= p < q < n && fields[..n][p] == rest[i] && fields[..n][q] == rest[j];
          assert fields[p] == m[i] && fields[q] == m[j];
        } else {
          MatchingExactly(l, r, fields[..n], rest[i]);
          var p :| 0 <= p < n && fields[..n][p] == rest[i];
          assert fields[p] == m[i] && fields[n] == m[j];
        }
      }
    }
  }

  /** The points of the first `n` fields. */
  function SumPoints(l: Record, r: Record, fields: seq<Field>, n: nat): int
    requires n <= |fields|
  {
    if n == 0 then 0 else SumPoints(l, r, fields, n - 1) + Points(l, r, fields[n - 1], Weight(fields[n - 1]))
  }

  lemma ExactAppend(matching: seq<Field>, f: Field)
    ensures TotalWeight(ExactEvidence(matching + [f])) == TotalWeight(ExactEvidence(matching)) + Weight(f)
  {
    assert ExactEvidence(matching + [f]) == ExactEvidence(matching) + [Exact(f, Weight(f))];
    WeightAppend(ExactEvidence(matching), Exact(f, Weight(f)));
  }

  lemma {:induction false} ExactIsSum(l: Record, r: Record, fields: seq<Field>, n: nat)
    requires n <= |fields|
    ensures TotalWeight(ExactEvidence(MatchingOf(l, r, fields[..n]))) == SumPoints(l, r, fields, n)
  {
    if n > 0 {
      var rest, f := MatchingOf(l, r, fields[..n - 1]), fields[n - 1];
      ExactIsSum(l, r, fields, n - 1);
      OneMore(fields, n - 1);
      ExactAppend(rest, f);
    }
  }

  lemma WeightedSum(l: Record, r: Record)
    ensures SumPoints(l, r, WEIGHTED, 11) == ExactPoints(l, r)
  {
    var f := WEIGHTED;
    assert SumPoints(l, r, f, 1) == Points(l, r, MacAddress, 96);
    assert SumPoints(l, r, f, 2) == SumPoints(l, r, f, 1) + Points(l, r, AssetTag, 95);
    assert SumPoints(l, r, f, 3) == SumPoints(l, r, f, 2) + Points(l, r, SerialNumber, 92);
    assert SumPoints(l, r, f, 4) == SumPoints(l, r, f, 3) + Points(l, r, Hostname, 40);
    assert SumPoints(l, r, f, 5) == SumPoints(l, r, f, 4) + Points(l, r, IpAddress, 35);
    assert SumPoints(l, r, f, 6) == SumPoints(l, r, f, 5) + Points(l, r, DepartmentName, 10);
    assert SumPoints(l, r, f, 7) == SumPoints(l, r, f, 6) + Points(l, r, RoomName, 10);
    assert SumPoints(l, r, f, 8) == SumPoints(l, r, f, 7) + Points(l, r, NetworkZone, 12);
    assert SumPoints(l, r, f, 9) == SumPoints(l, r, f, 8) + Points(l, r, Vendor, 5);
    assert SumPoints(l, r, f, 10) == SumPoints(l, r, f, 9) + Points(l, r, Brand, 5);
    assert SumPoints(l, r, f, 11) == SumPoints(l, r, f, 10) + Points(l, r, Model, 7);
  }

  lemma ExactInNumbers(l: Record, r: Record)
    ensures TotalWeight(ExactEvidence(MatchingOf(l, r, WEIGHTED))) == ExactPoints(l, r)
  {
    ExactIsSum(l, r, WEIGHTED, 11);
    WeightedSum(l, r);
    assert WEIGHTED[..11] == WEIGHTED;
  }

  // ---------------------------------------------------------------- similar fields

  /** What a field of the fuzzy stage contributes. */
  function FuzzyGain(l: Record, r: Record, matching: seq<Field>, f: Field, s: Settings, ratio: (string, string) -> int)
    : int
  {
    if f in matching then 0
    else SimilarPoints(l, r, f, ratio, if f == Hostname then s.hostnameSimilarity else s.fuzzySimilarity,
                       if f == Hostname then 18 else 8)
  }

  /** The gains of the first `n` fields. */
  function SumGains(l: Record, r: Record, m: seq<Field>, fields: seq<Field>, n: nat, s: Settings,
                    ratio: (string, string) -> int): int
    requires n <= |fields|
  {
    if n == 0 then 0
    else SumGains(l, r, m, fields, n - 1, s, ratio) + FuzzyGain(l, r, m, fields[n - 1], s, ratio)
  }

  lemma {:induction false} FuzzyIsSum(l: Record, r: Record, m: seq<Field>, fields: seq<Field>, n: nat, s: Settings,
                                      ratio: (string, string) -> int)
    requires n <= |fields|
    ensures TotalWeight(FuzzyEvidence(l, r, m, fields[..n], s, ratio)) == SumGains(l, r, m, fields, n, s, ratio)
  {
    if n > 0 {
      var f := fields[n - 1];
      var similarity := Similarity(l, r, f, ratio);
      FuzzyIsSum(l, r, m, fields, n - 1, s, ratio);
      OneMore(fields, n - 1);
      WeightAppend(FuzzyEvidence(l, r, m, fields[..n - 1], s, ratio),
                   Similar(f, similarity, Contribution(f, similarity)));
    }
  }

  lemma WeightedFields(f: Field)
    ensures f in WEIGHTED <==> f != BuildingName && f != FloorName
  {
    match f
    case MacAddress => assert WEIGHTED[0] == f;
    case AssetTag => assert WEIGHTED[1] == f;
    case SerialNumber => assert WEIGHTED[2] == f;
    case Hostname => assert WEIGHTED[3] == f;
    case IpAddress => assert WEIGHTED[4] == f;
    case DepartmentName => assert WEIGHTED[5] == f;
    case RoomName => assert WEIGHTED[6] == f;
    case NetworkZone => assert WEIGHTED[7] == f;
    case Vendor => assert WEIGHTED[8] == f;
    case Brand => assert WEIGHTED[9] == f;
    case Model => assert WEIGHTED[10] == f;
    case BuildingName =>
    case FloorName =>
  }

  lemma GainIs(l: Record, r: Record, f: Field, s: Settings, ratio: (string, string) -> int)
    ensures var gain := FuzzyGain(l, r, MatchingOf(l, r, WEIGHTED), f, s, ratio);
            var points := if f == Hostname then SimilarPoints(l, r, f, ratio, s.hostnameSimilarity, 18)
                          else SimilarPoints(l, r, f, ratio, s.fuzzySimilarity, 8);
            gain == if f == BuildingName || f == FloorName then points else UnlessEqual(l, r, f, points)
  {
    MatchingExactly(l, r, WEIGHTED, f);
    assert f in WEIGHTED <==> f != BuildingName && f != FloorName by {
      WeightedFields(f);
    }
  }

  lemma GainsAddUp(l: Record, r: Record, m: seq<Field>, s: Settings, ratio: (string, string) -> int)
    ensures SumGains(l, r, m, FUZZY, 9, s, ratio)
         == FuzzyGain(l, r, m, Hostname, s, ratio) + FuzzyGain(l, r, m, AssetTag, s, ratio)
            + FuzzyGain(l, r, m, DepartmentName, s, ratio) + FuzzyGain(l, r, m, BuildingName, s, ratio)
            + FuzzyGain(l, r, m, FloorName, s, ratio) + FuzzyGain(l, r, m, RoomName, s, ratio)
            + FuzzyGain(l, r, m, Vendor, s, ratio) + FuzzyGain(l, r, m, Brand, s, ratio)
            + FuzzyGain(l, r, m, Model, s, ratio)
  {
    var f := FUZZY;
    assert SumGains(l, r, m, f, 1, s, ratio) == FuzzyGain(l, r, m, Hostname, s, ratio);
    var tag, department := FuzzyGain(l, r, m, AssetTag, s, ratio), FuzzyGain(l, r, m, DepartmentName, s, ratio);
    assert SumGains(l, r, m, f, 3, s, ratio) == SumGains(l, r, m, f, 1, s, ratio) + tag + department;
    var building, floor := FuzzyGain(l, r, m, BuildingName, s, ratio), FuzzyGain(l, r, m, FloorName, s, ratio);
    assert SumGains(l, r, m, f, 5, s, ratio) == SumGains(l, r, m, f, 3, s, ratio) + building + floor;
    var room, vendor := FuzzyGain(l, r, m, RoomName, s, ratio), FuzzyGain(l, r, m, Vendor, s, ratio);
    assert SumGains(l, r, m, f, 7, s, ratio) == SumGains(l, r, m, f, 5, s, ratio) + room + vendor;
  }

  lemma FuzzyInNumbers(l: Record, r: Record, s: Settings, ratio: (string, string) -> int)
    ensures TotalWeight(FuzzyEvidence(l, r, MatchingOf(l, r, WEIGHTED), FUZZY, s, ratio)) == FuzzyPoints(l, r, s, ratio)
  {
    var m := MatchingOf(l, r, WEIGHTED);
    FuzzyIsSum(l, r, m, FUZZY, 9, s, ratio);
    assert FUZZY[..9] == FUZZY;
    GainsAddUp(l, r, m, s, ratio);
    GainIs(l, r, Hostname, s, ratio);
    GainIs(l, r, AssetTag, s, ratio);
    GainIs(l, r, DepartmentName, s, ratio);
    GainIs(l, r, BuildingName, s, ratio);
    GainIs(l, r, FloorName, s, ratio);
    GainIs(l, r, RoomName, s, ratio);
    GainIs(l, r, Vendor, s, ratio);
    GainIs(l, r, Brand, s, ratio);
    GainIs(l, r, Model, s, ratio);
  }

  // ---------------------------------------------------------------- contradictions

  /** The costs of the first `n` fields. */
  function SumCosts(l: Record, r: Record, fields: seq<Field>, n: nat, penalty: int): int
    requires n <= |fields|
  {
    if n == 0 then 0 else SumCosts(l, r, fields, n - 1, penalty) + Cost(l, r, fields[n - 1], penalty)
  }

  lemma {:induction false} PenaltyIsSum(l: Record, r: Record, fields: seq<Field>, n: nat, penalty: int)
    requires n <= |fields|
    ensures TotalPenalty(IdentityConflicts(l, r, fields[..n], penalty)) == SumCosts(l, r, fields, n, penalty)
  {
    if n > 0 {
      var f := fields[n - 1];
      PenaltyIsSum(l, r, fields, n - 1, penalty);
      OneMore(fields, n - 1);
      PenaltyAppend(IdentityConflicts(l, r, fields[..n - 1], penalty), Conflict(f, l(f), r(f), penalty));
    }
  }

  lemma IdentityInNumbers(l: Record, r: Record, penalty: int)
    ensures TotalPenalty(IdentityConflicts(l, r, IDENTITY, penalty))
         == Cost(l, r, MacAddress, penalty) + Cost(l, r, AssetTag, penalty) + Cost(l, r, SerialNumber, penalty)
  {
    PenaltyIsSum(l, r, IDENTITY, 3, penalty);
    assert IDENTITY[..3] == IDENTITY;
    var f := IDENTITY;
    assert SumCosts(l, r, f, 1, penalty) == Cost(l, r, MacAddress, penalty);
    assert SumCosts(l, r, f, 2, penalty) == SumCosts(l, r, f, 1, penalty) + Cost(l, r, AssetTag, penalty);
    assert SumCosts(l, r, f, 3, penalty) == SumCosts(l, r, f, 2, penalty) + Cost(l, r, SerialNumber, penalty);
  }

  lemma IdentityFields(f: Field)
    ensures f in IDENTITY <==> f == MacAddress || f == AssetTag || f == SerialNumber
  {
    assert IDENTITY[0] == MacAddress && IDENTITY[1] == AssetTag && IDENTITY[2] == SerialNumber;
  }

  lemma IdentityAgreesIs(l: Record, r: Record)
    ensures (exists f :: f in MatchingOf(l, r, WEIGHTED) && f in IDENTITY) <==> IdentityAgrees(l, r)
  {
    WeightedFields(MacAddress);
    WeightedFields(AssetTag);
    WeightedFields(SerialNumber);
    MatchingExactly(l, r, WEIGHTED, MacAddress);
    MatchingExactly(l, r, WEIGHTED, AssetTag);
    MatchingExactly(l, r, WEIGHTED, SerialNumber);
    IdentityFields(MacAddress);
    IdentityFields(AssetTag);
    IdentityFields(SerialNumber);
    if f :| f in MatchingOf(l, r, WEIGHTED) && f in IDENTITY {
      IdentityFields(f);
    }
  }

  lemma PenaltyInNumbers(l: Record, r: Record, penalty: int)
    ensures var m := MatchingOf(l, r, WEIGHTED);
            TotalPenalty(IdentityConflicts(l, r, IDENTITY, penalty) + HostnameConflict(l, r, m, penalty))
            == Costs(l, r, penalty)
  {
    var identity := IdentityConflicts(l, r, IDENTITY, penalty);
    IdentityInNumbers(l, r, penalty);
    IdentityAgreesIs(l, r);
    PenaltyAppend(identity, Conflict(Hostname, l(Hostname), r(Hostname), penalty));
    assert identity + [] == identity;
  }

  lemma {:induction false} IdentityConflictsList(l: Record, r: Record, fields: seq<Field>, penalty: int, c: Conflict)
    ensures c in IdentityConflicts(l, r, fields, penalty) <==>
            c.field in fields && Differ(l, r, c.field) && c == Conflict(c.field, l(c.field), r(c.field), penalty)
  {
    if fields != [] {
      IdentityConflictsList(l, r, fields[..|fields| - 1], penalty, c);
      assert fields == fields[..|fields| - 1] + [fields[|fields| - 1]];
    }
  }

  /** Which contradictions are listed, with both values. */
  lemma ConflictsExactly(l: Record, r: Record, s: Settings, ratio: (string, string) -> int, c: Conflict)
    ensures c in Explained(l, r, s, ratio).conflicts <==>
            && (c.field == MacAddress || c.field == AssetTag || c.field == SerialNumber
                || (c.field == Hostname && IdentityAgrees(l, r)))
            && c.imported == l(c.field) != "" && c.candidate == r(c.field) != "" && c.imported != c.candidate
            && c.penalty == s.penalty
  {
    var identity := IdentityConflicts(l, r, IDENTITY, s.penalty);
    IdentityConflictsList(l, r, IDENTITY, s.penalty, c);
    IdentityFields(c.field);
    IdentityAgreesIs(l, r);
    assert c in Explained(l, r, s, ratio).conflicts
      <==> c in identity || c in HostnameConflict(l, r, MatchingOf(l, r, WEIGHTED), s.penalty);
  }

  // ---------------------------------------------------------------- evidence

  /** The contribution of a similar field: a tenth of the percentage, at least 1 and at most 18 or 8. */
  predicate IsContribution(f: Field, similarity: int, weight: int) {
    var cap, tenth := if f == Hostname then 18 else 8, if similarity < 20 then 1 else similarity / 10;
    weight == if tenth < cap then tenth else cap
  }

  /** The values are similar enough, and listed with their percentage and what the field contributes. */
  predicate IsSimilar(l: Record, r: Record, s: Settings, ratio: (string, string) -> int, e: Evidence)
    requires e.Similar?
  {
    var f := e.field;
    && l(f) != "" && r(f) != ""
    && e.similarity == ratio(l(f), r(f))
    && e.similarity >= (if f == Hostname then s.hostnameSimilarity else s.fuzzySimilarity)
    && IsContribution(f, e.similarity, e.weight)
  }

  lemma {:induction false} FuzzyList(l: Record, r: Record, m: seq<Field>, fields: seq<Field>, s: Settings,
                                     ratio: (string, string) -> int, e: Evidence)
    ensures e in FuzzyEvidence(l, r, m, fields, s, ratio) <==>
            e.Similar? && e.field in fields && e.field !in m && IsSimilar(l, r, s, ratio, e)
  {
    if fields != [] {
      FuzzyList(l, r, m, fields[..|fields| - 1], s, ratio, e);
      assert fields == fields[..|fields| - 1] + [fields[|fields| - 1]];
    }
  }

  lemma ExactList(matching: seq<Field>, e: Evidence)
    ensures e in ExactEvidence(matching) <==> e.Exact? && e.field in matching && e.weight == Weight(e.field)
  {
    var evidence := ExactEvidence(matching);
    if e.Exact? && e.field in matching && e.weight == Weight(e.field) {
      var i :| 0 <= i < |matching| && matching[i] == e.field;
      assert evidence[i] == e;
    }
  }

  lemma FuzzyFields(f: Field)
    ensures f in FUZZY <==> f != MacAddress && f != SerialNumber && f != IpAddress && f != NetworkZone
  {
    match f
    case Hostname => assert FUZZY[0] == f;
    case AssetTag => assert FUZZY[1] == f;
    case DepartmentName => assert FUZZY[2] == f;
    case BuildingName => assert FUZZY[3] == f;
    case FloorName => assert FUZZY[4] == f;
    case RoomName => assert FUZZY[5] == f;
    case Vendor => assert FUZZY[6] == f;
    case Brand => assert FUZZY[7] == f;
    case Model => assert FUZZY[8] == f;
    case MacAddress | SerialNumber | IpAddress | NetworkZone =>
  }

  /** Which evidence is listed: every weighted field on which the records agree, and, in the fuzzy mode, every
      other field of the fuzzy list with similar values. */
  lemma EvidenceExactly(l: Record, r: Record, s: Settings, ratio: (string, string) -> int, e: Evidence)
    ensures e in Explained(l, r, s, ratio).evidence <==>
            var f := e.field;
            var agree := f != BuildingName && f != FloorName && l(f) != "" && r(f) == l(f);
            match e
            case Exact(_, weight) => agree && weight == Weight(f)
            case Similar(_, _, _) =>
              && s.fuzzy && !agree && f != MacAddress && f != SerialNumber && f != IpAddress && f != NetworkZone
              && IsSimilar(l, r, s, ratio, e)
  {
    var m := MatchingOf(l, r, WEIGHTED);
    ExactList(m, e);
    FuzzyList(l, r, m, FUZZY, s, ratio, e);
    MatchingExactly(l, r, WEIGHTED, e.field);
    WeightedFields(e.field);
    FuzzyFields(e.field);
  }

  // ---------------------------------------------------------------- the whole score

  lemma {:induction false} WeightsJoin(a: seq<Evidence>, b: seq<Evidence>)
    ensures TotalWeight(a + b) == TotalWeight(a) + TotalWeight(b)
  {
    if b == [] {
      assert a + b == a;
    } else {
      var n := |b| - 1;
      WeightsJoin(a, b[..n]);
      assert (a + b)[..|a + b| - 1] == a + b[..n];
    }
  }

  /** The score is what the agreeing fields earn, less what the differing ones cost, more what the similar ones
      earn, between 0 and 100. */
  lemma ScoreInNumbers(l: Record, r: Record, s: Settings, ratio: (string, string) -> int)
    ensures var fuzzy := if s.fuzzy then FuzzyPoints(l, r, s, ratio) else 0;
            var total := ExactPoints(l, r) - Costs(l, r, s.penalty) + fuzzy;
            Explained(l, r, s, ratio).score == if total < 0 then 0 else if total > 100 then 100 else total
  {
    var matching := MatchingOf(l, r, WEIGHTED);
    ExactInNumbers(l, r);
    FuzzyInNumbers(l, r, s, ratio);
    PenaltyInNumbers(l, r, s.penalty);
    WeightsJoin(ExactEvidence(matching), if s.fuzzy then FuzzyEvidence(l, r, matching, FUZZY, s, ratio) else []);
  }

  /** The thresholds that the settings start with. */
  const DEFAULTS: Thresholds := Thresholds(95, 80, 60, 35)

  /** With the default thresholds, records that agree on an identity field and do not contradict each other are
      linked, on the MAC address or the asset tag as an exact match. */
  lemma IdentityLinks(l: Record, r: Record, s: Settings, ratio: (string, string) -> int)
    requires s.levels == DEFAULTS && IdentityAgrees(l, r) && Explained(l, r, s, ratio).conflicts == []
    ensures Explained(l, r, s, ratio).action == Link
    ensures l(MacAddress) != "" && r(MacAddress) == l(MacAddress) ==> Explained(l, r, s, ratio).level == Exactly
    ensures l(AssetTag) != "" && r(AssetTag) == l(AssetTag) ==> Explained(l, r, s, ratio).level == Exactly
  {
    ScoreInNumbers(l, r, s, ratio);
    PenaltyInNumbers(l, r, s.penalty);
    MatchingExactly(l, r, WEIGHTED, MacAddress);
    MatchingExactly(l, r, WEIGHTED, AssetTag);
    MatchingExactly(l, r, WEIGHTED, SerialNumber);
  }

  /** The records have values in common for hostname and address alone, and agree on both. */
  predicate OnlyHostAndAddress(l: Record, r: Record) {
    && (forall f :: f != Hostname && f != IpAddress ==> l(f) == "" || r(f) == "")
    && l(Hostname) != "" && r(Hostname) == l(Hostname) && l(IpAddress) != "" && r(IpAddress) == l(IpAddress)
  }

  lemma HostAndAddressInNumbers(l: Record, r: Record, penalty: int)
    requires OnlyHostAndAddress(l, r)
    ensures ExactPoints(l, r) == 75 && Costs(l, r, penalty) == 0
  {
  }

  lemma NothingSimilar(l: Record, r: Record, s: Settings, ratio: (string, string) -> int)
    requires forall f :: f != Hostname && f != IpAddress ==> l(f) == "" || r(f) == ""
    requires l(Hostname) == r(Hostname) || l(Hostname) == "" || r(Hostname) == ""
    ensures FuzzyPoints(l, r, s, ratio) == 0
  {
  }

  lemma HostAndAddressScore(l: Record, r: Record, s: Settings, ratio: (string, string) -> int)
    requires OnlyHostAndAddress(l, r)
    ensures Explained(l, r, s, ratio).score == 75
  {
    ScoreInNumbers(l, r, s, ratio);
    HostAndAddressInNumbers(l, r, s.penalty);
    NothingSimilar(l, r, s, ratio);
  }

  /** Agreement on hostname and address alone is a probable match, and for review. */
  lemma HostAndAddressAreReviewed(l: Record, r: Record, s: Settings, ratio: (string, string) -> int)
    requires s.levels == DEFAULTS && OnlyHostAndAddress(l, r)
    ensures var e := Explained(l, r, s, ratio);
            e.score == 75 && e.level == Probable && e.action == Review
  {
    HostAndAddressScore(l, r, s, ratio);
  }

  lemma StrangersScore(l: Record, r: Record, s: Settings, ratio: (string, string) -> int)
    requires forall f :: l(f) == "" || r(f) == ""
    ensures Explained(l, r, s, ratio).score == 0
  {
    ScoreInNumbers(l, r, s, ratio);
    NothingSimilar(l, r, s, ratio);
  }

  /** Records without any value in common score nothing, and are a new device. */
  lemma StrangersAreCreated(l: Record, r: Record, s: Settings, ratio: (string, string) -> int)
    requires s.levels == DEFAULTS && forall f :: l(f) == "" || r(f) == ""
    ensures var e := Explained(l, r, s, ratio);
            e.score == 0 && e.level == NoMatch && e.action == CreateNew
  {
    StrangersScore(l, r, s, ratio);
    var conflicts := Explained(l, r, s, ratio).conflicts;
    if conflicts != [] {
      ConflictsExactly(l, r, s, ratio, conflicts[0]);
    }
  }
}
