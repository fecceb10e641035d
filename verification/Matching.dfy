/** Scoring of an imported record against a candidate, with ledgers of evidence and conflicts, and the choice
    of the subnet rule for an address. */
module Matching {
  import opened Wrappers
  import opened Cidr

  datatype Field =
    | MacAddress | AssetTag | SerialNumber | Hostname | IpAddress | DepartmentName | BuildingName | FloorName
    | RoomName | NetworkZone | Vendor | Brand | Model

  /** A normalised record; the empty text stands for a missing value, which the code treats the same. */
  type Record = Field -> string

  const IDENTITY: seq<Field> := [MacAddress, AssetTag, SerialNumber]

  const WEIGHTED: seq<Field> :=
    [MacAddress, AssetTag, SerialNumber, Hostname, IpAddress, DepartmentName, RoomName, NetworkZone, Vendor, Brand,
     Model]

  const FUZZY: seq<Field> :=
    [Hostname, AssetTag, DepartmentName, BuildingName, FloorName, RoomName, Vendor, Brand, Model]

  function Weight(f: Field): nat {
    match f
    case MacAddress => 96
    case AssetTag => 95
    case SerialNumber => 92
    case Hostname => 40
    case IpAddress => 35
    case DepartmentName => 10
    case RoomName => 10
    case NetworkZone => 12
    case Vendor => 5
    case Brand => 5
    case Model => 7
    case BuildingName => 0
    case FloorName => 0
  }

  datatype Evidence =
    | Exact(field: Field, weight: int)
    | Similar(field: Field, similarity: int, weight: int)

  datatype Conflict = Conflict(field: Field, imported: string, candidate: string, penalty: int)

  datatype Level = NoMatch | Weak | Probable | Strong | Exactly

  datatype Action = Review | Link | CreateNew

  datatype Thresholds = Thresholds(exact: int, strong: int, probable: int, weak: int)

  datatype Settings = Settings(
    penalty: int, fuzzy: bool, hostnameSimilarity: int, fuzzySimilarity: int, levels: Thresholds)

  datatype Score = Score(score: int, level: Level, evidence: seq<Evidence>, conflicts: seq<Conflict>,
                         matching: seq<Field>, action: Action, fuzzyOnly: bool)

  function Classify(score: int, t: Thresholds): Level {
    if score >= t.exact then Exactly
    else if score >= t.strong then Strong
    else if score >= t.probable then Probable
    else if score >= t.weak then Weak
    else NoMatch
  }

  function Rank(l: Level): nat {
    match l
    case NoMatch => 0
    case Weak => 1
    case Probable => 2
    case Strong => 3
    case Exactly => 4
  }

  // ---------------------------------------------------------------- the specification

  predicate Agree(l: Record, r: Record, f: Field) {
    l(f) != "" && l(f) == r(f)
  }

  predicate Differ(l: Record, r: Record, f: Field) {
    l(f) != "" && r(f) != "" && l(f) != r(f)
  }

  function MatchingOf(l: Record, r: Record, fields: seq<Field>): seq<Field> {
    if fields == [] then []
    else
      var rest, f := MatchingOf(l, r, fields[..|fields| - 1]), fields[|fields| - 1];
      if Agree(l, r, f) then rest + [f] else rest
  }

  function ExactEvidence(matching: seq<Field>): seq<Evidence> {
    seq(|matching|, i requires 0 <= i < |matching| => Exact(matching[i], Weight(matching[i])))
  }

  function IdentityConflicts(l: Record, r: Record, fields: seq<Field>, penalty: int): seq<Conflict> {
    if fields == [] then []
    else
      var rest, f := IdentityConflicts(l, r, fields[..|fields| - 1], penalty), fields[|fields| - 1];
      if Differ(l, r, f) then rest + [Conflict(f, l(f), r(f), penalty)] else rest
  }

  /** The hostname counts as a conflict only beside an agreeing identity field. */
  function HostnameConflict(l: Record, r: Record, matching: seq<Field>, penalty: int): seq<Conflict> {
    if (exists f :: f in matching && f in IDENTITY) && Differ(l, r, Hostname)
    then [Conflict(Hostname, l(Hostname), r(Hostname), penalty)] else []
  }

  function Contribution(f: Field, similarity: int): int {
    var base := if similarity / 10 > 1 then similarity / 10 else 1;
    var cap := if f == Hostname then 18 else 8;
    if base < cap then base else cap
  }

  function Similarity(l: Record, r: Record, f: Field, ratio: (string, string) -> int): int {
    ratio(l(f), r(f))
  }

  function Threshold(s: Settings, f: Field): int {
    if f == Hostname then s.hostnameSimilarity else s.fuzzySimilarity
  }

  function FuzzyEvidence(l: Record, r: Record, matching: seq<Field>, fields: seq<Field>, s: Settings,
                         ratio: (string, string) -> int): seq<Evidence>
  {
    if fields == [] then []
    else
      var rest, f := FuzzyEvidence(l, r, matching, fields[..|fields| - 1], s, ratio), fields[|fields| - 1];
      var similarity := Similarity(l, r, f, ratio);
      if f !in matching && l(f) != "" && r(f) != "" && similarity >= Threshold(s, f)
      then rest + [Similar(f, similarity, Contribution(f, similarity))] else rest
  }

  function TotalWeight(evidence: seq<Evidence>): int {
    if evidence == [] then 0 else TotalWeight(evidence[..|evidence| - 1]) + evidence[|evidence| - 1].weight
  }

  function TotalPenalty(conflicts: seq<Conflict>): int {
    if conflicts == [] then 0 else TotalPenalty(conflicts[..|conflicts| - 1]) + conflicts[|conflicts| - 1].penalty
  }

  function Clamp(x: int): int {
    if x < 0 then 0 else if x > 100 then 100 else x
  }

  function ActionFor(conflicts: seq<Conflict>, level: Level, fuzzyOnly: bool): Action {
    if conflicts != [] then Review
    else if (level == Exactly || level == Strong) && !fuzzyOnly then Link
    else if level == Probable || level == Weak then Review
    else CreateNew
  }

  /** The result as its ledgers explain it: the score is what the evidence weighs less what the conflicts cost. */
  function Explained(l: Record, r: Record, s: Settings, ratio: (string, string) -> int): Score {
    var matching := MatchingOf(l, r, WEIGHTED);
    var evidence := ExactEvidence(matching) + if s.fuzzy then FuzzyEvidence(l, r, matching, FUZZY, s, ratio) else [];
    var conflicts := IdentityConflicts(l, r, IDENTITY, s.penalty) + HostnameConflict(l, r, matching, s.penalty);
    var score := Clamp(TotalWeight(evidence) - TotalPenalty(conflicts));
    var fuzzyOnly := evidence != [] && matching == [];
    Score(score, Classify(score, s.levels), evidence, conflicts, matching,
          ActionFor(conflicts, Classify(score, s.levels), fuzzyOnly), fuzzyOnly)
  }

  /** A conflict, or a score in the lower two levels, is for review; a score in the upper two is a link if some
      field agrees exactly, and everything else is a new device. */
  predicate RightAction(action: Action, score: int, t: Thresholds, conflicts: seq<Conflict>, fuzzyOnly: bool) {
    var high := score >= t.exact || score >= t.strong;
    var low := !high && (score >= t.probable || score >= t.weak);
    match action
    case Link => conflicts == [] && high && !fuzzyOnly
    case CreateNew => conflicts == [] && !low && (high ==> fuzzyOnly)
    case Review => conflicts != [] || low
  }

  /** The level is the first of exact, strong, probable and weak whose threshold the score reaches. */
  predicate RightLevel(level: Level, score: int, t: Thresholds) {
    match level
    case Exactly => score >= t.exact
    case Strong => score < t.exact && score >= t.strong
    case Probable => score < t.exact && score < t.strong && score >= t.probable
    case Weak => score < t.exact && score < t.strong && score < t.probable && score >= t.weak
    case NoMatch => score < t.exact && score < t.strong && score < t.probable && score < t.weak
  }

  /** Level and action are the right ones, and no other would be. */
  lemma ActionExactly(conflicts: seq<Conflict>, score: int, t: Thresholds, fuzzyOnly: bool)
    ensures forall level :: RightLevel(level, score, t) <==> level == Classify(score, t)
    ensures forall action :: RightAction(action, score, t, conflicts, fuzzyOnly) <==>
                             action == ActionFor(conflicts, Classify(score, t), fuzzyOnly)
  {
  }

  // ---------------------------------------------------------------- the accumulating loops

  lemma WeightAppend(evidence: seq<Evidence>, e: Evidence)
    ensures TotalWeight(evidence + [e]) == TotalWeight(evidence) + e.weight
  {
    assert (evidence + [e])[..|evidence|] == evidence;
  }

  lemma PenaltyAppend(conflicts: seq<Conflict>, c: Conflict)
    ensures TotalPenalty(conflicts + [c]) == TotalPenalty(conflicts) + c.penalty
  {
    assert (conflicts + [c])[..|conflicts|] == conflicts;
  }

  lemma OneMore(fields: seq<Field>, i: nat)
    requires i < |fields|
    ensures fields[..i + 1][..i] == fields[..i] && fields[..i + 1][i] == fields[i] && |fields[..i + 1]| == i + 1
  {
  }

  method ExactStage(l: Record, r: Record, fields: seq<Field>)
    returns (score: int, evidence: seq<Evidence>, matching: seq<Field>)
    ensures matching == MatchingOf(l, r, fields) && evidence == ExactEvidence(matching)
    ensures score == TotalWeight(evidence)
  {
    score, evidence, matching := 0, [], [];
    for i := 0 to |fields|
      invariant matching == MatchingOf(l, r, fields[..i])
      invariant evidence == ExactEvidence(matching) && score == TotalWeight(evidence)
    {
      var f := fields[i];
      OneMore(fields, i);
      if l(f) != "" && r(f) != "" && l(f) == r(f) {
        WeightAppend(evidence, Exact(f, Weight(f)));
        matching := matching + [f];
        score := score + Weight(f);
        evidence := evidence + [Exact(f, Weight(f))];
      }
    }
    assert fields[..|fields|] == fields;
  }

  method IdentityStage(l: Record, r: Record, fields: seq<Field>, penalty: int, before: int)
    returns (score: int, conflicts: seq<Conflict>)
    ensures conflicts == IdentityConflicts(l, r, fields, penalty) && score == before - TotalPenalty(conflicts)
  {
    score, conflicts := before, [];
    for i := 0 to |fields|
      invariant conflicts == IdentityConflicts(l, r, fields[..i], penalty) && score == before - TotalPenalty(conflicts)
    {
      var f := fields[i];
      OneMore(fields, i);
      if l(f) != "" && r(f) != "" && l(f) != r(f) {
        PenaltyAppend(conflicts, Conflict(f, l(f), r(f), penalty));
        score := score - penalty;
        conflicts := conflicts + [Conflict(f, l(f), r(f), penalty)];
      }
    }
    assert fields[..|fields|] == fields;
  }

  method HostnameStage(l: Record, r: Record, matching: seq<Field>, penalty: int, before: int, identity: seq<Conflict>)
    returns (score: int, conflicts: seq<Conflict>)
    ensures conflicts == identity + HostnameConflict(l, r, matching, penalty)
    ensures score == before + TotalPenalty(identity) - TotalPenalty(conflicts)
  {
    score, conflicts := before, identity;
    if matching != [] && (exists f :: f in matching && f in IDENTITY)
       && l(Hostname) != "" && r(Hostname) != "" && l(Hostname) != r(Hostname) {
      PenaltyAppend(conflicts, Conflict(Hostname, l(Hostname), r(Hostname), penalty));
      score := score - penalty;
      conflicts := conflicts + [Conflict(Hostname, l(Hostname), r(Hostname), penalty)];
    }
  }

  method FuzzyStage(l: Record, r: Record, matching: seq<Field>, fields: seq<Field>, s: Settings,
                    ratio: (string, string) -> int, before: int, exact: seq<Evidence>)
    returns (score: int, evidence: seq<Evidence>)
    ensures evidence == exact + FuzzyEvidence(l, r, matching, fields, s, ratio)
    ensures score == before + TotalWeight(evidence) - TotalWeight(exact)
  {
    score, evidence := before, exact;
    for i := 0 to |fields|
      invariant evidence == exact + FuzzyEvidence(l, r, matching, fields[..i], s, ratio)
      invariant score == before + TotalWeight(evidence) - TotalWeight(exact)
    {
      var f := fields[i];
      OneMore(fields, i);
      if f in matching || l(f) == "" || r(f) == "" {
        continue;
      }
      var similarity := ratio(l(f), r(f));
      if similarity >= (if f == Hostname then s.hostnameSimilarity else s.fuzzySimilarity) {
        WeightAppend(evidence, Similar(f, similarity, Contribution(f, similarity)));
        score := score + Contribution(f, similarity);
        evidence := evidence + [Similar(f, similarity, Contribution(f, similarity))];
      }
    }
    assert fields[..|fields|] == fields;
  }

  /** `ratio` is the similarity of two texts in percent, rounded; it need not be symmetric. */
  method ScoreRecords(l: Record, r: Record, s: Settings, ratio: (string, string) -> int) returns (result: Score)
    ensures result == Explained(l, r, s, ratio)
    ensures result.fuzzyOnly <==> result.evidence != [] && result.matching == []
    ensures RightAction(result.action, result.score, s.levels, result.conflicts, result.fuzzyOnly)
    ensures RightLevel(result.level, result.score, s.levels)
  {
    var score, evidence, matching := ExactStage(l, r, WEIGHTED);
    var conflicts;
    score, conflicts := IdentityStage(l, r, IDENTITY, s.penalty, score);
    score, conflicts := HostnameStage(l, r, matching, s.penalty, score, conflicts);
    if s.fuzzy {
      score, evidence := FuzzyStage(l, r, matching, FUZZY, s, ratio, score, evidence);
    }
    assert ExactEvidence(matching) + [] == ExactEvidence(matching);
    score := if score > 100 then 100 else score;
    score := if score < 0 then 0 else score;
    var level := Classify(score, s.levels);
    var fuzzyOnly := evidence != [] && matching == [];
    result := Score(score, level, evidence, conflicts, matching, ActionFor(conflicts, level, fuzzyOnly), fuzzyOnly);
    ActionExactly(conflicts, score, s.levels, fuzzyOnly);
  }

  // ---------------------------------------------------------------- properties

  lemma ClassifyIsMonotone(a: int, b: int, t: Thresholds)
    requires a <= b
    ensures Rank(Classify(a, t)) <= Rank(Classify(b, t))
  {
  }

  ghost predicate Percentages(ratio: (string, string) -> int) {
    forall a, b :: 0 <= ratio(a, b) <= 100
  }

  lemma ContributionIsSmall(f: Field, similarity: int)
    requires 0 <= similarity <= 100
    ensures 1 <= Contribution(f, similarity) <= if f == Hostname then 10 else 8
  {
  }

  /** A similar field weighs at most 8, a similar hostname at most 10. */
  lemma {:induction false} FuzzyWeight(l: Record, r: Record, matching: seq<Field>, fields: seq<Field>, s: Settings,
                                       ratio: (string, string) -> int)
    requires Percentages(ratio) && forall i, j :: 0 <= i < j < |fields| ==> fields[i] != fields[j]
    ensures TotalWeight(FuzzyEvidence(l, r, matching, fields, s, ratio))
         <= 8 * |fields| + if Hostname in fields then 2 else 0
  {
    if fields != [] {
      var n := |fields| - 1;
      var f := fields[n];
      var rest := FuzzyEvidence(l, r, matching, fields[..n], s, ratio);
      var similarity := Similarity(l, r, f, ratio);
      FuzzyWeight(l, r, matching, fields[..n], s, ratio);
      assert fields == fields[..n] + [f];
      ContributionIsSmall(f, similarity);
      WeightAppend(rest, Similar(f, similarity, Contribution(f, similarity)));
      assert TotalWeight(FuzzyEvidence(l, r, matching, fields, s, ratio))
          <= TotalWeight(rest) + if f == Hostname then 10 else 8;
    }
  }

  lemma {:induction false} PenaltiesAddUp(conflicts: seq<Conflict>, penalty: int)
    requires penalty >= 0 && forall c :: c in conflicts ==> c.penalty == penalty
    ensures TotalPenalty(conflicts) >= 0
  {
    if conflicts != [] {
      PenaltiesAddUp(conflicts[..|conflicts| - 1], penalty);
    }
  }

  lemma {:induction false} IdentityConflictsExactly(l: Record, r: Record, fields: seq<Field>, penalty: int)
    ensures IdentityConflicts(l, r, fields, penalty) == [] <==> forall f :: f in fields ==> !Differ(l, r, f)
    ensures forall c :: c in IdentityConflicts(l, r, fields, penalty) ==> c.penalty == penalty
  {
    if fields != [] {
      IdentityConflictsExactly(l, r, fields[..|fields| - 1], penalty);
      assert fields == fields[..|fields| - 1] + [fields[|fields| - 1]];
    }
  }

  /** A result that rests on similar fields alone scores at most 74 less its penalties, so at most 74 when a
      conflict does not raise the score. */
  lemma FuzzyOnlyIsModest(l: Record, r: Record, s: Settings, ratio: (string, string) -> int)
    requires Percentages(ratio) && Explained(l, r, s, ratio).fuzzyOnly
    ensures Explained(l, r, s, ratio).score <= Clamp(74 - TotalPenalty(Explained(l, r, s, ratio).conflicts))
    ensures s.penalty >= 0 ==> Explained(l, r, s, ratio).score <= 74
  {
    var e := Explained(l, r, s, ratio);
    FuzzyWeight(l, r, e.matching, FUZZY, s, ratio);
    assert e.evidence == FuzzyEvidence(l, r, e.matching, FUZZY, s, ratio);
    IdentityConflictsExactly(l, r, IDENTITY, s.penalty);
    if s.penalty >= 0 {
      PenaltiesAddUp(e.conflicts, s.penalty);
    }
  }

  /** A link recommendation rests on an agreeing field and meets no contradiction. */
  ghost predicate Earned(l: Record, r: Record, s: Settings, ratio: (string, string) -> int) {
    var e := Explained(l, r, s, ratio);
    e.action == Link ==> e.matching != [] && e.conflicts == [] && forall f :: f in IDENTITY ==> !Differ(l, r, f)
  }

  lemma LinkIsEarned(l: Record, r: Record, s: Settings, ratio: (string, string) -> int)
    requires s.levels.exact > 0 && s.levels.strong > 0
    ensures Earned(l, r, s, ratio)
  {
    var e := Explained(l, r, s, ratio);
    IdentityConflictsExactly(l, r, IDENTITY, s.penalty);
  }

  lemma {:induction false} BlankMatchesNothing(l: Record, r: Record, fields: seq<Field>)
    requires forall f :: l(f) == ""
    ensures MatchingOf(l, r, fields) == []
  {
    if fields != [] {
      BlankMatchesNothing(l, r, fields[..|fields| - 1]);
    }
  }

  lemma {:induction false} BlankIsNotSimilar(l: Record, r: Record, fields: seq<Field>, s: Settings,
                                             ratio: (string, string) -> int)
    requires forall f :: l(f) == ""
    ensures FuzzyEvidence(l, r, [], fields, s, ratio) == []
  {
    if fields != [] {
      BlankIsNotSimilar(l, r, fields[..|fields| - 1], s, ratio);
    }
  }

  /** With a threshold of zero or less for "exact" or "strong", two empty records are recommended for linking. */
  lemma BlankRecordsLink(s: Settings, ratio: (string, string) -> int)
    requires s.levels.exact <= 0 || s.levels.strong <= 0
    ensures !Earned(_ => "", _ => "", s, ratio)
  {
    var blank: Record := _ => "";
    BlankMatchesNothing(blank, blank, WEIGHTED);
    BlankIsNotSimilar(blank, blank, FUZZY, s, ratio);
    IdentityConflictsExactly(blank, blank, IDENTITY, s.penalty);
  }

  /** Every link is earned exactly when both thresholds are positive. */
  lemma LinksAreEarnedExactly(s: Settings, ratio: (string, string) -> int)
    ensures (forall l: Record, r: Record :: Earned(l, r, s, ratio)) <==> s.levels.exact > 0 && s.levels.strong > 0
  {
    if s.levels.exact > 0 && s.levels.strong > 0 {
      forall l: Record, r: Record
        ensures Earned(l, r, s, ratio)
      {
        LinkIsEarned(l, r, s, ratio);
      }
    } else {
      BlankRecordsLink(s, ratio);
    }
  }

  // ---------------------------------------------------------------- exchanging the records

  function Mirror(conflicts: seq<Conflict>): seq<Conflict> {
    if conflicts == [] then []
    else
      var c := conflicts[|conflicts| - 1];
      Mirror(conflicts[..|conflicts| - 1]) + [Conflict(c.field, c.candidate, c.imported, c.penalty)]
  }

  lemma MirrorAppend(conflicts: seq<Conflict>, c: Conflict)
    ensures Mirror(conflicts + [c]) == Mirror(conflicts) + [Conflict(c.field, c.candidate, c.imported, c.penalty)]
  {
    assert (conflicts + [c])[..|conflicts|] == conflicts;
  }

  lemma {:induction false} MirrorCosts(conflicts: seq<Conflict>)
    ensures TotalPenalty(Mirror(conflicts)) == TotalPenalty(conflicts) && |Mirror(conflicts)| == |conflicts|
  {
    if conflicts != [] {
      var c := conflicts[|conflicts| - 1];
      MirrorCosts(conflicts[..|conflicts| - 1]);
      PenaltyAppend(Mirror(conflicts[..|conflicts| - 1]), Conflict(c.field, c.candidate, c.imported, c.penalty));
    }
  }

  lemma {:induction false} MatchingIsSymmetric(l: Record, r: Record, fields: seq<Field>)
    ensures MatchingOf(l, r, fields) == MatchingOf(r, l, fields)
  {
    if fields != [] {
      MatchingIsSymmetric(l, r, fields[..|fields| - 1]);
    }
  }

  lemma {:induction false} IdentityConflictsMirror(l: Record, r: Record, fields: seq<Field>, penalty: int)
    ensures IdentityConflicts(r, l, fields, penalty) == Mirror(IdentityConflicts(l, r, fields, penalty))
  {
    if fields != [] {
      var f := fields[|fields| - 1];
      IdentityConflictsMirror(l, r, fields[..|fields| - 1], penalty);
      MirrorAppend(IdentityConflicts(l, r, fields[..|fields| - 1], penalty), Conflict(f, l(f), r(f), penalty));
    }
  }

  lemma ConflictsMirror(l: Record, r: Record, matching: seq<Field>, penalty: int)
    ensures IdentityConflicts(r, l, IDENTITY, penalty) + HostnameConflict(r, l, matching, penalty)
         == Mirror(IdentityConflicts(l, r, IDENTITY, penalty) + HostnameConflict(l, r, matching, penalty))
  {
    var identity := IdentityConflicts(l, r, IDENTITY, penalty);
    IdentityConflictsMirror(l, r, IDENTITY, penalty);
    if HostnameConflict(l, r, matching, penalty) == [] {
      assert identity + [] == identity;
      assert Mirror(identity) + [] == Mirror(identity);
    } else {
      MirrorAppend(identity, Conflict(Hostname, l(Hostname), r(Hostname), penalty));
    }
  }

  /** Without fuzzy matching, exchanging the two records changes nothing but the sides named in the conflicts. */
  lemma ScoreIsSymmetric(l: Record, r: Record, s: Settings, ratio: (string, string) -> int)
    requires !s.fuzzy
    ensures var a, b := Explained(l, r, s, ratio), Explained(r, l, s, ratio);
            b == a.(conflicts := Mirror(a.conflicts))
  {
    MatchingIsSymmetric(l, r, WEIGHTED);
    ConflictsMirror(l, r, MatchingOf(l, r, WEIGHTED), s.penalty);
    MirrorCosts(Explained(l, r, s, ratio).conflicts);
  }

  // ---------------------------------------------------------------- subnet rules

  /** `network` is absent when the rule's text does not parse. */
  datatype Rule = Rule(network: Option<Network>, name: string)

  predicate Matches(rule: Rule, a: Address) {
    rule.network.Some? && Contains(rule.network.value, a)
  }

  function Length(rule: Rule): nat
    requires rule.network.Some?
  {
    rule.network.value.prefix
  }

  /** Rule `k` matches, no rule matches more specifically, and no earlier one as specifically. */
  ghost predicate Chosen(rules: seq<Rule>, a: Address, k: nat) {
    && k < |rules| && Matches(rules[k], a)
    && (forall j :: 0 <= j < |rules| && Matches(rules[j], a) ==> Length(rules[j]) <= Length(rules[k]))
    && (forall j :: 0 <= j < k && Matches(rules[j], a) ==> Length(rules[j]) < Length(rules[k]))
  }

  /** `max` over the prefix lengths returns the first maximal entry. */
  method FirstLongest(rules: seq<Rule>, matches: seq<nat>) returns (best: nat)
    requires matches != [] && forall m :: 0 <= m < |matches| ==> matches[m] < |rules| && rules[matches[m]].network.Some?
    ensures best < |matches|
    ensures forall j :: 0 <= j < |matches| ==> Length(rules[matches[j]]) <= Length(rules[matches[best]])
    ensures forall j :: 0 <= j < best ==> Length(rules[matches[j]]) < Length(rules[matches[best]])
  {
    best := 0;
    for m := 1 to |matches|
      invariant 0 <= best < m
      invariant forall j :: 0 <= j < m ==> Length(rules[matches[j]]) <= Length(rules[matches[best]])
      invariant forall j :: 0 <= j < best ==> Length(rules[matches[j]]) < Length(rules[matches[best]])
    {
      if Length(rules[matches[m]]) > Length(rules[matches[best]]) {
        best := m;
      }
    }
  }

  /** Collects the matching rules, then takes the first of greatest prefix length. Any text that does not
      parse is an error, matching or not. */
  method SelectSubnetRule(address: Option<Address>, rules: seq<Rule>) returns (r: Result<Option<nat>, string>)
    ensures r.Err? <==> address.None? || exists j :: 0 <= j < |rules| && rules[j].network.None?
    ensures r.Ok? && r.value.Some? ==> Chosen(rules, address.value, r.value.value)
    ensures r.Ok? ==> (r.value.None? <==> forall j :: 0 <= j < |rules| ==> !Matches(rules[j], address.value))
  {
    if address.None? {
      return Err("invalid address");
    }
    var matches: seq<nat> := [];
    for i := 0 to |rules|
      invariant forall j :: 0 <= j < i ==> rules[j].network.Some?
      invariant forall m :: 0 <= m < |matches| ==> matches[m] < i && Matches(rules[matches[m]], address.value)
      invariant forall m, m' :: 0 <= m < m' < |matches| ==> matches[m] < matches[m']
      invariant forall j :: 0 <= j < i && Matches(rules[j], address.value) ==> j in matches
    {
      if rules[i].network.None? {
        return Err("invalid network");
      }
      if Contains(rules[i].network.value, address.value) {
        matches := matches + [i];
      }
    }
    if matches == [] {
      return Ok(None);
    }
    var best := FirstLongest(rules, matches);
    r := Ok(Some(matches[best]));
  }

  /** The chosen network lies inside every other matching one, and only one rule can be chosen. */
  lemma ChosenIsMostSpecific(rules: seq<Rule>, a: Address, k: nat)
    requires Chosen(rules, a, k)
    ensures forall j :: 0 <= j < |rules| && Matches(rules[j], a) ==>
                          Inside(rules[k].network.value, rules[j].network.value)
    ensures forall other :: Chosen(rules, a, other) ==> other == k
  {
    forall j | 0 <= j < |rules| && Matches(rules[j], a)
      ensures Inside(rules[k].network.value, rules[j].network.value)
    {
      SharedAddressMeansNested(rules[k].network.value, rules[j].network.value, a);
    }
  }
}
