/** Suggesting a mapping from file columns to inventory fields, and validating the one a user submits. */
module Columns {
  import opened Wrappers

  datatype Field =
    | AssetTag | Hostname | IpAddress | MacAddress | DepartmentName | BuildingName | FloorName | RoomName
    | NetworkZone | Vendor | Brand | Model | DeviceType | SerialNumber | InventoryStatus | Notes

  type Header = string

  /** The field an alias table recognises a header as; the table itself is arbitrary. */
  type Aliases = Header -> Option<Field>

  datatype Detection = Detection(
    suggested: map<Header, Option<Field>>,
    unknown: seq<Header>,
    ambiguous: map<Field, seq<Header>>,
    missing: seq<Field>)

  /** The headers recognised as a field, in file order, with repetitions. */
  function Sources(headers: seq<Header>, alias: Aliases, target: Option<Field>): seq<Header> {
    if headers == [] then []
    else
      var rest, h := Sources(headers[..|headers| - 1], alias, target), headers[|headers| - 1];
      if alias(h) == target then rest + [h] else rest
  }

  predicate Required(f: Field) {
    f == AssetTag || f == Hostname
  }

  /** The recognised fields that are not ambiguous. */
  function Mapped(suggested: map<Header, Option<Field>>, ambiguous: map<Field, seq<Header>>): set<Field> {
    set h | h in suggested && suggested[h].Some? && suggested[h].value !in ambiguous :: suggested[h].value
  }

  /** The required fields that are not mapped, in the order in which they are reported. */
  function Missing(mapped: set<Field>): seq<Field> {
    (if AssetTag in mapped then [] else [AssetTag]) + (if Hostname in mapped then [] else [Hostname])
  }

  lemma {:induction false} SourcesMember(headers: seq<Header>, alias: Aliases, target: Option<Field>, h: Header)
    ensures h in Sources(headers, alias, target) <==> h in headers && alias(h) == target
  {
    if headers != [] {
      SourcesMember(headers[..|headers| - 1], alias, target, h);
      assert headers == headers[..|headers| - 1] + [headers[|headers| - 1]];
    }
  }

  /** The headers of a field are those that are recognised as it, in the order of the file. */
  lemma SourcesInOrder(headers: seq<Header>, h: Header, alias: Aliases, target: Option<Field>)
    ensures Sources([], alias, target) == []
    ensures Sources(headers + [h], alias, target)
         == Sources(headers, alias, target) + if alias(h) == target then [h] else []
  {
    assert (headers + [h])[..|headers|] == headers;
  }

  /** A field is mapped exactly when it has one source. */
  lemma MappedExactly(headers: seq<Header>, alias: Aliases, suggested: map<Header, Option<Field>>,
                      ambiguous: map<Field, seq<Header>>, f: Field)
    requires suggested == map h | h in headers :: alias(h)
    requires f in ambiguous <==> |Sources(headers, alias, Some(f))| > 1
    ensures f in Mapped(suggested, ambiguous) <==> |Sources(headers, alias, Some(f))| == 1
  {
    var sources := Sources(headers, alias, Some(f));
    if f in Mapped(suggested, ambiguous) {
      var h :| h in suggested && suggested[h] == Some(f);
      SourcesMember(headers, alias, Some(f), h);
    }
    if |sources| == 1 {
      SourcesMember(headers, alias, Some(f), sources[0]);
      assert sources[0] in suggested && suggested[sources[0]] == Some(f);
    }
  }

  /** The asset tag and the hostname, in this order, as far as they do not have exactly one source. */
  ghost predicate RightMissing(headers: seq<Header>, alias: Aliases, missing: seq<Field>) {
    var tag, host := |Sources(headers, alias, Some(AssetTag))| != 1, |Sources(headers, alias, Some(Hostname))| != 1;
    missing == if tag && host then [AssetTag, Hostname] else if tag then [AssetTag] else if host then [Hostname] else []
  }

  lemma MissingExactly(headers: seq<Header>, alias: Aliases, suggested: map<Header, Option<Field>>,
                       ambiguous: map<Field, seq<Header>>)
    requires suggested == map h | h in headers :: alias(h)
    requires forall f: Field :: f in ambiguous <==> |Sources(headers, alias, Some(f))| > 1
    ensures RightMissing(headers, alias, Missing(Mapped(suggested, ambiguous)))
  {
    MappedExactly(headers, alias, suggested, ambiguous, AssetTag);
    MappedExactly(headers, alias, suggested, ambiguous, Hostname);
  }

  /** Every field has the headers seen so far that it is the alias of, and no field has an empty list. */
  ghost predicate Grouped(sources: map<Field, seq<Header>>, headers: seq<Header>, alias: Aliases) {
    forall f: Field ::
      && (f in sources <==> Sources(headers, alias, Some(f)) != [])
      && (f in sources ==> sources[f] == Sources(headers, alias, Some(f)))
  }

  method DetectMapping(headers: seq<Header>, alias: Aliases) returns (d: Detection)
    ensures d.suggested == map h | h in headers :: alias(h)
    ensures d.unknown == Sources(headers, alias, None)
    ensures forall f: Field :: f in d.ambiguous <==> |Sources(headers, alias, Some(f))| > 1
    ensures forall f: Field :: f in d.ambiguous ==> d.ambiguous[f] == Sources(headers, alias, Some(f))
    ensures d.missing == Missing(Mapped(d.suggested, d.ambiguous))
    ensures RightMissing(headers, alias, d.missing)
  {
    var suggested: map<Header, Option<Field>> := map[];
    var sources: map<Field, seq<Header>> := map[];
    var unknown: seq<Header> := [];
    for i := 0 to |headers|
      invariant suggested == map h | h in headers[..i] :: alias(h)
      invariant unknown == Sources(headers[..i], alias, None)
      invariant Grouped(sources, headers[..i], alias)
    {
      var header := headers[i];
      var canonical := alias(header);
      assert headers[..i + 1][..i] == headers[..i];
      assert headers[..i + 1] == headers[..i] + [header];
      suggested := suggested[header := canonical];
      if canonical.Some? {
        var f := canonical.value;
        sources := sources[f := (if f in sources then sources[f] else []) + [header]];
      } else {
        unknown := unknown + [header];
      }
    }
    assert headers[..|headers|] == headers;
    var ambiguous := map f | f in sources && |sources[f]| > 1 :: sources[f];
    MissingExactly(headers, alias, suggested, ambiguous);
    d := Detection(suggested, unknown, ambiguous, Missing(Mapped(suggested, ambiguous)));
  }

  // ---------------------------------------------------------------- validation

  /** What a submitted mapping may name as the target of a column. */
  datatype Target = Known(field: Field) | Foreign(text: string)

  datatype Refusal = AbsentColumn | UnsupportedField | SharedField | MissingField

  /** An empty text names no target, any more than none at all. */
  predicate Names(target: Option<Target>) {
    target.Some? && target.value != Foreign("")
  }

  /** The entries that name a target. */
  function Cleaned(mapping: map<Header, Option<Target>>): map<Header, Target> {
    map h | h in mapping && Names(mapping[h]) :: mapping[h].value
  }

  function FieldsOf(cleaned: map<Header, Target>): map<Header, Field>
    requires forall h :: h in cleaned ==> cleaned[h].Known?
  {
    map h | h in cleaned :: cleaned[h].field
  }

  function ValidateMapping(headers: seq<Header>, mapping: map<Header, Option<Target>>)
    : Result<map<Header, Field>, Refusal>
  {
    var cleaned := Cleaned(mapping);
    if exists h :: h in mapping && h !in headers then Err(AbsentColumn)
    else if exists h :: h in cleaned && !cleaned[h].Known? then Err(UnsupportedField)
    else if exists a, b :: a in cleaned && b in cleaned && a != b && cleaned[a] == cleaned[b] then Err(SharedField)
    else if exists f :: Required(f) && forall h :: h in cleaned ==> cleaned[h].field != f then Err(MissingField)
    else Ok(FieldsOf(cleaned))
  }

  /** An accepted mapping is one-to-one, covers the required fields, and keeps exactly the named targets of
      columns of the file. */
  lemma AcceptedIsSound(headers: seq<Header>, mapping: map<Header, Option<Target>>)
    requires ValidateMapping(headers, mapping).Ok?
    ensures var m := ValidateMapping(headers, mapping).value;
            && (forall a, b :: a in m && b in m && m[a] == m[b] ==> a == b)
            && (forall f :: Required(f) ==> exists h :: h in m && m[h] == f)
            && (forall h :: h in m <==> h in mapping && Names(mapping[h]))
            && (forall h :: h in m ==> h in headers && mapping[h] == Some(Known(m[h])))
  {
    var cleaned := Cleaned(mapping);
    var m := FieldsOf(cleaned);
    assert ValidateMapping(headers, mapping).value == m;
    forall f | Required(f)
      ensures exists h :: h in m && m[h] == f
    {
      var h :| h in cleaned && cleaned[h].field == f;
      assert h in m && m[h] == f;
    }
  }

  /** Some column is mapped to the field. */
  ghost predicate Serves(mapping: map<Header, Option<Target>>, f: Field) {
    exists h :: h in mapping && mapping[h] == Some(Known(f))
  }

  /** No two columns are mapped to the same target; the empty name stands for none. */
  ghost predicate OneToOne(mapping: map<Header, Option<Target>>) {
    forall a, b :: a in mapping && b in mapping && a != b && mapping[a].Some? && mapping[a] == mapping[b] ==>
                     mapping[a] == Some(Foreign(""))
  }

  /** No column is mapped to a name other than that of a field of the inventory, or the empty one. */
  ghost predicate Supported(mapping: map<Header, Option<Target>>) {
    forall h :: h in mapping && mapping[h].Some? && mapping[h].value.Foreign? ==> mapping[h] == Some(Foreign(""))
  }

  lemma CleanedSupported(mapping: map<Header, Option<Target>>)
    ensures var cleaned := Cleaned(mapping);
            Supported(mapping) <==> !exists h :: h in cleaned && !cleaned[h].Known?
  {
    var cleaned := Cleaned(mapping);
    assert forall h :: h in cleaned <==> h in mapping && Names(mapping[h]);
    assert forall h :: h in cleaned ==> mapping[h] == Some(cleaned[h]);
  }

  lemma CleanedOneToOne(mapping: map<Header, Option<Target>>)
    ensures var cleaned := Cleaned(mapping);
            OneToOne(mapping) <==> !exists a, b :: a in cleaned && b in cleaned && a != b && cleaned[a] == cleaned[b]
  {
    var cleaned := Cleaned(mapping);
    assert forall h :: h in cleaned <==> h in mapping && Names(mapping[h]);
    assert forall h :: h in cleaned ==> mapping[h] == Some(cleaned[h]);
  }

  lemma ServesExactly(mapping: map<Header, Option<Target>>, f: Field)
    requires Supported(mapping)
    ensures var cleaned := Cleaned(mapping);
            Serves(mapping, f) <==> exists h :: h in cleaned && cleaned[h].field == f
  {
    var cleaned := Cleaned(mapping);
    if h :| h in mapping && mapping[h] == Some(Known(f)) {
      assert h in cleaned && cleaned[h].field == f;
    }
    if h :| h in cleaned && cleaned[h].field == f {
      assert mapping[h] == Some(Known(f));
    }
  }

  /** A mapping is accepted exactly when it names only columns of the file and fields of the inventory, no two
      columns for one field, and a column for the asset tag and one for the hostname; columns may be left out. The
      first of these that fails decides the refusal. */
  lemma AcceptedExactly(headers: seq<Header>, mapping: map<Header, Option<Target>>)
    ensures var present := forall h :: h in mapping ==> h in headers;
            var r := ValidateMapping(headers, mapping);
            && (r.Ok? <==> present && Supported(mapping) && OneToOne(mapping)
                           && Serves(mapping, AssetTag) && Serves(mapping, Hostname))
            && (r == Err(AbsentColumn) <==> !present)
            && (r == Err(UnsupportedField) <==> present && !Supported(mapping))
            && (r == Err(SharedField) <==> present && Supported(mapping) && !OneToOne(mapping))
  {
    CleanedSupported(mapping);
    CleanedOneToOne(mapping);
    if Supported(mapping) {
      ServesExactly(mapping, AssetTag);
      ServesExactly(mapping, Hostname);
      assert Required(AssetTag) && Required(Hostname);
    }
  }

  // ---------------------------------------------------------------- agreement of the two

  /** The suggested mapping, submitted unchanged. */
  function Submitted(headers: seq<Header>, alias: Aliases): map<Header, Option<Target>> {
    map h | h in headers :: if alias(h).Some? then Some(Known(alias(h).value)) else None
  }

  /** The detector has nothing to report. */
  ghost predicate Clean(headers: seq<Header>, alias: Aliases) {
    && (forall f: Field :: |Sources(headers, alias, Some(f))| <= 1)
    && (forall f :: Required(f) ==> exists h :: h in headers && alias(h) == Some(f))
  }

  /** Some recognised header occurs twice in the file. */
  ghost predicate Repeats(headers: seq<Header>, alias: Aliases) {
    exists i, j :: 0 <= i < j < |headers| && headers[i] == headers[j] && alias(headers[i]).Some?
  }

  /** A field has at most one source exactly when no two positions are recognised as it. */
  lemma {:induction false} OneSource(headers: seq<Header>, alias: Aliases, f: Field)
    ensures |Sources(headers, alias, Some(f))| <= 1 <==>
            forall i, j :: 0 <= i < j < |headers| ==> !(alias(headers[i]) == Some(f) && alias(headers[j]) == Some(f))
  {
    if headers != [] {
      var n := |headers| - 1;
      OneSource(headers[..n], alias, f);
      var rest := Sources(headers[..n], alias, Some(f));
      if rest != [] {
        SourcesMember(headers[..n], alias, Some(f), rest[0]);
        var i :| 0 <= i < n && headers[..n][i] == rest[0];
        assert alias(headers[i]) == Some(f);
      } else {
        forall i | 0 <= i < n ensures alias(headers[i]) != Some(f) {
          SourcesMember(headers[..n], alias, Some(f), headers[i]);
          assert headers[i] in headers[..n];
        }
      }
    }
  }

  /** What the detector reports is exactly what `Clean` denies. */
  lemma DetectorReports(headers: seq<Header>, alias: Aliases, d: Detection)
    requires forall f: Field :: f in d.ambiguous <==> |Sources(headers, alias, Some(f))| > 1
    requires d.suggested == map h | h in headers :: alias(h)
    requires d.missing == Missing(Mapped(d.suggested, d.ambiguous))
    ensures d.ambiguous == map[] && d.missing == [] <==> Clean(headers, alias)
  {
    var mapped := Mapped(d.suggested, d.ambiguous);
    assert d.missing == [] <==> AssetTag in mapped && Hostname in mapped;
    if Clean(headers, alias) {
      assert forall f :: f !in d.ambiguous;
      assert d.ambiguous == map[];
    }
    if d.ambiguous == map[] {
      forall f: Field
        ensures |Sources(headers, alias, Some(f))| <= 1
        ensures f in mapped <==> exists h :: h in headers && alias(h) == Some(f)
      {
        assert f !in d.ambiguous;
        if h :| h in headers && alias(h) == Some(f) {
          assert h in d.suggested && d.suggested[h].value == f;
        }
      }
    }
  }

  /** The suggested mapping is accepted exactly when no two different headers are recognised as one field and
      every required field is recognised. */
  lemma SuggestionAccepted(headers: seq<Header>, alias: Aliases)
    ensures ValidateMapping(headers, Submitted(headers, alias)).Ok? <==>
            && (forall a, b :: a in headers && b in headers && a != b && alias(a).Some? ==> alias(a) != alias(b))
            && (forall f :: Required(f) ==> exists h :: h in headers && alias(h) == Some(f))
  {
    var cleaned := Cleaned(Submitted(headers, alias));
    assert forall h :: h in cleaned <==> h in headers && alias(h).Some?;
    assert forall h :: h in cleaned ==> cleaned[h] == Known(alias(h).value);
  }

  /** The detector has nothing to report exactly when its suggestion is accepted and no recognised header
      occurs twice; in particular, for distinct headers the two agree. */
  lemma DetectorAgreesWithValidator(headers: seq<Header>, alias: Aliases)
    ensures Clean(headers, alias)
       <==> ValidateMapping(headers, Submitted(headers, alias)).Ok? && !Repeats(headers, alias)
    ensures (forall i, j :: 0 <= i < j < |headers| ==> headers[i] != headers[j]) ==>
              (Clean(headers, alias) <==> ValidateMapping(headers, Submitted(headers, alias)).Ok?)
  {
    SuggestionAccepted(headers, alias);
    forall f: Field {
      OneSource(headers, alias, f);
    }
    if Clean(headers, alias) {
      assert forall i, j :: 0 <= i < j < |headers| && alias(headers[i]).Some? ==>
                              alias(headers[i]) != alias(headers[j]);
    }
  }

  /** Without distinct headers they can differ: a file with a repeated column is reported as ambiguous, and its
      suggestion is accepted. */
  lemma RepeatedHeaderDiffers(alias: Aliases, tag: Header, host: Header)
    requires alias(tag) == Some(AssetTag) && alias(host) == Some(Hostname)
    ensures ValidateMapping([tag, host, host], Submitted([tag, host, host], alias)).Ok?
    ensures !Clean([tag, host, host], alias)
  {
    var headers := [tag, host, host];
    SuggestionAccepted(headers, alias);
    OneSource(headers, alias, Hostname);
    assert headers[0] == tag && headers[1] == host && headers[2] == host;
  }
}
