/**
 * `parse_script_ini`: one vehicle's `script.ini`, read line by line into a
 * record whose fields start as "N/A" and are overwritten by the directives
 * found, then finished by the skill-over-resource rule for the transport
 * type. A record carrying the purchase-exclusion marker yields nothing.
 */
module ScriptParser {
  import opened Wrappers
  import opened Strings
  import opened Directives

  /** The placeholder of a field no directive has set. */
  const NA := "N/A"

  /** The sheet categories a vehicle type is sorted into. */
  const Categories: set<string> := {"road", "rail", "water", "air", "other"}

  /** The dictionary `parse_script_ini` returns; `sheet` is the `_Sheet` key, present only after a `$TYPE` match. */
  datatype Vehicle = Vehicle(
    name: string,
    startYear: string,
    endYear: string,
    capacity: string,
    costRub: string,
    costUsd: string,
    speed: string,
    transportType: string,
    country: string,
    vehicleType: string,
    sheet: Option<string>)

  const Blank := Vehicle(NA, NA, NA, NA, NA, NA, NA, NA, NA, NA, None)

  /**
   * The sheet of a cleaned vehicle type: exactly "helicopter" goes to air,
   * then the prefixes rail, road, ship and air are tried in that order, and
   * anything else is "other".
   */
  function Category(vehicleType: string): (sheet: string)
    ensures sheet in Categories
    ensures sheet == "rail" <==> StartsWith(vehicleType, "rail")
    ensures sheet == "road" <==> StartsWith(vehicleType, "road")
    ensures sheet == "water" <==> StartsWith(vehicleType, "ship")
    ensures sheet == "air" <==> vehicleType == "helicopter" || StartsWith(vehicleType, "air")
    ensures sheet == "other" <==>
      !(vehicleType == "helicopter" || StartsWith(vehicleType, "rail") || StartsWith(vehicleType, "road")
        || StartsWith(vehicleType, "ship") || StartsWith(vehicleType, "air"))
  {
    PrefixesExclusive(vehicleType);
    if vehicleType == "helicopter" then "air"
    else if StartsWith(vehicleType, "rail") then "rail"
    else if StartsWith(vehicleType, "road") then "road"
    else if StartsWith(vehicleType, "ship") then "water"
    else if StartsWith(vehicleType, "air") then "air"
    else "other"
  }

  /** No vehicle type starts with two of the category prefixes, and "helicopter" starts with none. */
  lemma PrefixesExclusive(v: string)
    ensures v == "helicopter" ==> !StartsWith(v, "rail") && !StartsWith(v, "road") && !StartsWith(v, "ship") && !StartsWith(v, "air")
    ensures StartsWith(v, "rail") ==> !StartsWith(v, "road") && !StartsWith(v, "ship") && !StartsWith(v, "air")
    ensures StartsWith(v, "road") ==> !StartsWith(v, "ship") && !StartsWith(v, "air")
    ensures StartsWith(v, "ship") ==> !StartsWith(v, "air")
  {
    if |v| > 0 {
      assert StartsWith(v, "rail") ==> v[0] == 'r';
      assert StartsWith(v, "road") ==> v[0] == 'r' && v[1] == 'o';
      assert StartsWith(v, "rail") ==> v[1] == 'a';
      assert StartsWith(v, "ship") ==> v[0] == 's';
      assert StartsWith(v, "air") ==> v[0] == 'a';
      assert v == "helicopter" ==> v[0] == 'h';
    }
  }

  /** `btf_name_map.get(id, f"{prefix}{id}")`. */
  function Resolve(table: map<nat, string>, id: nat, prefix: string): (r: string)
    ensures id in table ==> r == table[id]
    ensures id !in table ==> StartsWith(r, prefix) && r[|prefix|..] == NatToString(id)
  {
    if id in table then table[id] else prefix + NatToString(id)
  }

  /**
   * A present id yields its text; a missing one yields the prefix followed by
   * the id in decimal without leading zeros, which reads back as the id.
   */
  lemma ResolveFallback(table: map<nat, string>, id: nat, prefix: string)
    ensures id in table ==> Resolve(table, id, prefix) == table[id]
    ensures id !in table ==>
      var r := Resolve(table, id, prefix);
      && StartsWith(r, prefix) && IsDigits(r[|prefix|..]) && DigitsValue(r[|prefix|..]) == id
      && (|r| > |prefix| + 1 ==> r[|prefix|] != '0')
  {
    if id !in table {
      var r := Resolve(table, id, prefix);
      assert r[|prefix|..] == NatToString(id);
      DigitsValueOfNatToString(id);
    }
  }

  /** The entries of the dictionary a directive can overwrite, and the two candidates kept aside. */
  datatype Field =
    | NameField | StartYearField | EndYearField | CapacityField | CostRubField | CostUsdField
    | SpeedField | CountryField | VehicleTypeField | ResourceTypeField | SkillField

  predicate Writes(d: Directive, f: Field) {
    match f
    case NameField => d.LiteralName? || d.NameRef?
    case StartYearField => d.Available?
    case EndYearField => d.Available?
    case CapacityField => d.ResourceCapacity?
    case CostRubField => d.CostRub?
    case CostUsdField => d.CostUsd?
    case SpeedField => d.MovementSpeed?
    case CountryField => d.CountryRef?
    case VehicleTypeField => d.VehicleType?
    case ResourceTypeField => d.ResourceTransportType?
    case SkillField => d.Skill?
  }

  /** The value a directive writes into a dictionary entry; ids are resolved through the table. */
  function Value(d: Directive, f: Field, table: map<nat, string>): string
    requires Writes(d, f)
  {
    match d
    case LiteralName(text) => text
    case NameRef(id) => Resolve(table, id, "UnknownNameID_")
    case Available(start, end) => if f == StartYearField then start else end
    case ResourceCapacity(capacity) => capacity
    case CostRub(rub) => rub
    case CostUsd(usd) => usd
    case MovementSpeed(speed) => speed
    case CountryRef(id) => Resolve(table, id, "UnknownCountryID_")
    case VehicleType(vtype) => vtype
    case ResourceTransportType(candidate) => candidate
    case Skill(skill, _) => skill
  }

  /** The position of the last directive that writes `f`, or -1 when none does. */
  function LastIndex(ds: seq<Directive>, f: Field): (k: int)
    ensures -1 <= k < |ds|
    ensures k >= 0 ==> Writes(ds[k], f)
    ensures forall j :: k < j < |ds| ==> !Writes(ds[j], f)
    decreases |ds|
  {
    if ds == [] then -1
    else if Writes(ds[|ds| - 1], f) then |ds| - 1
    else LastIndex(ds[..|ds| - 1], f)
  }

  /** The last directive that writes `f`: the one whose value survives. */
  function Latest(ds: seq<Directive>, f: Field): (d: Option<Directive>)
    ensures d.Some? ==> Writes(d.value, f)
  {
    var k := LastIndex(ds, f);
    if k < 0 then None else Some(ds[k])
  }

  /** The entry `f` after the directives `ds`: the last value written to it, or "N/A". */
  function Entry(ds: seq<Directive>, f: Field, table: map<nat, string>): string {
    var d := Latest(ds, f);
    if d.Some? then Value(d.value, f, table) else NA
  }

  lemma LatestSnoc(ds: seq<Directive>, d: Directive, f: Field)
    ensures Latest(ds + [d], f) == if Writes(d, f) then Some(d) else Latest(ds, f)
  {
    assert (ds + [d])[..|ds|] == ds;
  }

  /** The fields of the record that directives write (the two candidates are kept apart). */
  predicate InRecord(f: Field) {
    !f.ResourceTypeField? && !f.SkillField?
  }

  /** The record's entry for `f`. */
  function Get(v: Vehicle, f: Field): string
    requires InRecord(f)
  {
    match f
    case NameField => v.name
    case StartYearField => v.startYear
    case EndYearField => v.endYear
    case CapacityField => v.capacity
    case CostRubField => v.costRub
    case CostUsdField => v.costUsd
    case SpeedField => v.speed
    case CountryField => v.country
    case VehicleTypeField => v.vehicleType
  }

  /** What one classified line does to the record inside the loop of `parse_script_ini`. */
  function Apply(v: Vehicle, d: Directive, table: map<nat, string>): Vehicle {
    match d
    case LiteralName(text) => v.(name := text)
    case NameRef(id) => v.(name := Resolve(table, id, "UnknownNameID_"))
    case Available(start, end) => v.(startYear := start, endYear := end)
    case ResourceCapacity(capacity) => v.(capacity := capacity)
    case CostRub(rub) => v.(costRub := rub)
    case CostUsd(usd) => v.(costUsd := usd)
    case MovementSpeed(speed) => v.(speed := speed)
    case VehicleType(vtype) => v.(vehicleType := vtype, sheet := Some(Category(vtype)))
    case CountryRef(id) => v.(country := Resolve(table, id, "UnknownCountryID_"))
    case _ => v
  }

  /** The record after the directives `ds`, starting from all "N/A". */
  function Fields(ds: seq<Directive>, table: map<nat, string>): Vehicle
    decreases |ds|
  {
    if ds == [] then Blank else Apply(Fields(ds[..|ds| - 1], table), ds[|ds| - 1], table)
  }

  lemma FieldsSnoc(ds: seq<Directive>, d: Directive, table: map<nat, string>)
    ensures Fields(ds + [d], table) == Apply(Fields(ds, table), d, table)
  {
    assert (ds + [d])[..|ds|] == ds;
  }

  /** A directive overwrites exactly the entries it writes, with its own value. */
  lemma ApplyWrites(v: Vehicle, d: Directive, f: Field, table: map<nat, string>)
    requires InRecord(f)
    ensures Get(Apply(v, d, table), f) == if Writes(d, f) then Value(d, f, table) else Get(v, f)
  {
  }

  /**
   * The last directive wins: every entry of the record holds the value of
   * the last line that writes it, or "N/A" when no line does.
   */
  lemma {:induction false} LastDirectiveWins(ds: seq<Directive>, f: Field, table: map<nat, string>)
    requires InRecord(f)
    ensures Get(Fields(ds, table), f) == Entry(ds, f, table)
    decreases |ds|
  {
    if ds != [] {
      var init, d := ds[..|ds| - 1], ds[|ds| - 1];
      assert ds == init + [d];
      LastDirectiveWins(init, f, table);
      LatestSnoc(init, d, f);
      FieldsSnoc(init, d, table);
      ApplyWrites(Fields(init, table), d, f, table);
    }
  }

  /**
   * `_Sheet` is present exactly when some line set a vehicle type, and it is
   * the category of the last one; the transport type is never set by the loop.
   */
  lemma {:induction false} SheetFollowsType(ds: seq<Directive>, table: map<nat, string>)
    ensures var vtype := Latest(ds, VehicleTypeField);
      Fields(ds, table).sheet == if vtype.Some? then Some(Category(vtype.value.vehicleType)) else None
    ensures Fields(ds, table).transportType == NA
    decreases |ds|
  {
    if ds != [] {
      var init, d := ds[..|ds| - 1], ds[|ds| - 1];
      assert ds == init + [d];
      SheetFollowsType(init, table);
      LatestSnoc(init, d, VehicleTypeField);
      FieldsSnoc(init, d, table);
      ApplySheet(Fields(init, table), d, table);
    }
  }

  /** Only a vehicle type line touches `_Sheet`, and no line touches the transport type. */
  lemma ApplySheet(v: Vehicle, d: Directive, table: map<nat, string>)
    ensures Apply(v, d, table).sheet == if d.VehicleType? then Some(Category(d.vehicleType)) else v.sheet
    ensures Apply(v, d, table).transportType == v.transportType
  {
  }

  /**
   * The step after the loop: a non-empty skill name sets the transport type
   * and the capacity, otherwise a non-empty resource type sets the
   * transport type.
   */
  function Finish(v: Vehicle, resource: Option<Directive>, skill: Option<Directive>): (r: Vehicle)
    requires resource.Some? ==> resource.value.ResourceTransportType?
    requires skill.Some? ==> skill.value.Skill?
    ensures r.(transportType := v.transportType, capacity := v.capacity) == v
    ensures r.capacity != v.capacity ==> skill.Some? && r.capacity == skill.value.skillCapacity
  {
    if skill.Some? && skill.value.skill != "" then
      v.(transportType := skill.value.skill, capacity := skill.value.skillCapacity)
    else if resource.Some? && resource.value.candidate != "" then
      v.(transportType := resource.value.candidate)
    else v
  }

  /** The directive of every line of a record, in order. */
  function Classified(lines: seq<string>): (ds: seq<Directive>)
    ensures |ds| == |lines|
    decreases |lines|
  {
    if lines == [] then [] else Classified(lines[..|lines| - 1]) + [Classify(lines[|lines| - 1])]
  }

  lemma {:induction false} ClassifiedAt(lines: seq<string>, i: nat)
    requires i < |lines|
    ensures Classified(lines)[i] == Classify(lines[i])
    decreases |lines|
  {
    if i < |lines| - 1 {
      ClassifiedAt(lines[..|lines| - 1], i);
    }
  }

  predicate Excluded(ds: seq<Directive>) {
    exists i :: 0 <= i < |ds| && ds[i].Exclude?
  }

  /** What the loop of `parse_script_ini` and the step after it make of a record's directives. */
  function Interpret(ds: seq<Directive>, table: map<nat, string>): (r: Option<Vehicle>)
    ensures r.None? <==> Excluded(ds)
  {
    if Excluded(ds) then None
    else Some(Finish(Fields(ds, table), Latest(ds, ResourceTypeField), Latest(ds, SkillField)))
  }

  /** What `parse_script_ini` returns for a record, as a function of its lines. */
  function Expected(lines: seq<string>, table: map<nat, string>): Option<Vehicle> {
    Interpret(Classified(lines), table)
  }

  /** What reading the directive at `i` adds to the state after the ones before it. */
  lemma ReadStep(ds: seq<Directive>, i: nat, table: map<nat, string>)
    requires i < |ds|
    ensures Fields(ds[..i + 1], table) == Apply(Fields(ds[..i], table), ds[i], table)
    ensures Latest(ds[..i + 1], ResourceTypeField) ==
      if ds[i].ResourceTransportType? then Some(ds[i]) else Latest(ds[..i], ResourceTypeField)
    ensures Latest(ds[..i + 1], SkillField) == if ds[i].Skill? then Some(ds[i]) else Latest(ds[..i], SkillField)
    ensures Excluded(ds[..i + 1]) <==> Excluded(ds[..i]) || ds[i].Exclude?
  {
    assert ds[..i + 1] == ds[..i] + [ds[i]];
    LatestSnoc(ds[..i], ds[i], ResourceTypeField);
    LatestSnoc(ds[..i], ds[i], SkillField);
    FieldsSnoc(ds[..i], ds[i], table);
    assert ds[..i + 1][i] == ds[i];
    assert forall k :: 0 <= k < i ==> ds[..i + 1][k] == ds[..i][k];
  }

  /** The assignments a record-field branch of the loop body makes to the dictionary. */
  method Store(data: Vehicle, d: Directive, table: map<nat, string>) returns (next: Vehicle)
    requires !d.Exclude? && !d.ResourceTransportType? && !d.Skill?
    ensures next == Apply(data, d, table)
  {
    next := data;
    match d {
      case LiteralName(text) =>
        next := next.(name := text);
      case NameRef(id) =>
        next := next.(name := Resolve(table, id, "UnknownNameID_"));
      case Available(start, end) =>
        next := next.(startYear := start, endYear := end);
      case ResourceCapacity(capacity) =>
        next := next.(capacity := capacity);
      case CostRub(rub) =>
        next := next.(costRub := rub);
      case CostUsd(usd) =>
        next := next.(costUsd := usd);
      case MovementSpeed(speed) =>
        next := next.(speed := speed);
      case VehicleType(vtype) =>
        next := next.(vehicleType := vtype, sheet := Some(Category(vtype)));
      case CountryRef(id) =>
        next := next.(country := Resolve(table, id, "UnknownCountryID_"));
      case NoEffect =>
    }
  }

  /**
   * The loop of `parse_script_ini` over the directives of the lines, in
   * order, and the skill-over-resource step after it.
   */
  method ReadDirectives(ds: seq<Directive>, table: map<nat, string>) returns (r: Option<Vehicle>)
    ensures r == Interpret(ds, table)
  {
    var data := Blank;
    var resourceType: Option<Directive> := None;
    var skill: Option<Directive> := None;
    var i := 0;
    while i < |ds|
      invariant 0 <= i <= |ds|
      invariant !Excluded(ds[..i])
      invariant data == Fields(ds[..i], table)
      invariant resourceType == Latest(ds[..i], ResourceTypeField)
      invariant skill == Latest(ds[..i], SkillField)
    {
      var d := ds[i];
      ReadStep(ds, i, table);
      match d {
        case Exclude =>
          return None;
        case ResourceTransportType(_) =>
          resourceType := Some(d);
        case Skill(_, _) =>
          skill := Some(d);
        case _ =>
          data := Store(data, d, table);
      }
      i := i + 1;
    }
    assert ds[..|ds|] == ds;
    if skill.Some? && skill.value.skill != "" {
      data := data.(transportType := skill.value.skill, capacity := skill.value.skillCapacity);
    } else if resourceType.Some? && resourceType.value.candidate != "" {
      data := data.(transportType := resourceType.value.candidate);
    }
    r := Some(data);
  }

  /** `parse_script_ini` over the lines of one `script.ini`, with the string table it resolves ids against. */
  method ParseScript(lines: seq<string>, table: map<nat, string>) returns (r: Option<Vehicle>)
    ensures r == Expected(lines, table)
  {
    r := ReadDirectives(Classified(lines), table);
  }

  /** A record is dropped exactly when one of its lines starts with the purchase-exclusion marker. */
  lemma ExclusionIff(lines: seq<string>, table: map<nat, string>)
    ensures Expected(lines, table).None? <==> exists i :: 0 <= i < |lines| && StartsWith(lines[i], "$PURCHASE_EXCLUDE")
  {
    var ds := Classified(lines);
    forall i | 0 <= i < |lines|
      ensures ds[i].Exclude? <==> StartsWith(lines[i], "$PURCHASE_EXCLUDE")
    {
      ClassifiedAt(lines, i);
    }
  }

  lemma ClassifiedSnoc(lines: seq<string>, line: string)
    ensures Classified(lines + [line]) == Classified(lines) + [Classify(line)]
  {
    assert (lines + [line])[..|lines|] == lines;
  }

  /** A directive with no effect leaves the result of the loop and the step after it unchanged. */
  lemma NoEffectChangesNothing(ds: seq<Directive>, table: map<nat, string>)
    ensures Interpret(ds + [NoEffect], table) == Interpret(ds, table)
  {
    FieldsSnoc(ds, NoEffect, table);
    LatestSnoc(ds, NoEffect, ResourceTypeField);
    LatestSnoc(ds, NoEffect, SkillField);
    var ds' := ds + [NoEffect];
    assert Excluded(ds') ==> Excluded(ds) by {
      if Excluded(ds') {
        var i :| 0 <= i < |ds'| && ds'[i].Exclude?;
        assert i < |ds| && ds[i] == ds'[i];
      }
    }
    assert Excluded(ds) ==> Excluded(ds') by {
      if Excluded(ds) {
        var i :| 0 <= i < |ds| && ds[i].Exclude?;
        assert ds'[i] == ds[i];
      }
    }
  }

  /** A line that matches no branch, or whose branch regex fails, leaves the result unchanged. */
  lemma UnmatchedLineChangesNothing(lines: seq<string>, line: string, table: map<nat, string>)
    requires Classify(line) == NoEffect
    ensures Expected(lines + [line], table) == Expected(lines, table)
  {
    ClassifiedSnoc(lines, line);
    NoEffectChangesNothing(Classified(lines), table);
  }

  /**
   * The step after the loop. When the last skill line names a non-empty
   * skill, that skill is the transport type and its capacity replaces any
   * `$RESOURCE_CAPACITY`. Otherwise the last non-empty resource transport
   * type is used, and without one the transport type stays "N/A".
   */
  lemma TransportTypeRule(ds: seq<Directive>, table: map<nat, string>)
    requires !Excluded(ds)
    ensures var v, skill, resource := Interpret(ds, table).value, Latest(ds, SkillField), Latest(ds, ResourceTypeField);
      if skill.Some? && skill.value.skill != "" then
        v.transportType == skill.value.skill && v.capacity == skill.value.skillCapacity
      else
        v.capacity == Entry(ds, CapacityField, table) &&
        v.transportType == if resource.Some? && resource.value.candidate != "" then resource.value.candidate else NA
  {
    SheetFollowsType(ds, table);
    LastDirectiveWins(ds, CapacityField, table);
  }

  /** Every entry other than the transport type and the capacity is what the last line writing it says. */
  lemma OtherEntriesFromLastLine(ds: seq<Directive>, f: Field, table: map<nat, string>)
    requires !Excluded(ds) && InRecord(f) && !f.CapacityField?
    ensures Get(Interpret(ds, table).value, f) == Entry(ds, f, table)
  {
    LastDirectiveWins(ds, f, table);
  }

  /** `_Sheet` is set exactly when a `$TYPE` line matched, and then it is the category of the last vehicle type. */
  lemma SheetOnlyFromType(ds: seq<Directive>, table: map<nat, string>)
    requires !Excluded(ds)
    ensures var v := Interpret(ds, table).value;
      && (v.sheet.Some? <==> exists i :: 0 <= i < |ds| && ds[i].VehicleType?)
      && (v.sheet.Some? ==> v.sheet.value == Category(v.vehicleType))
      && (v.sheet.None? ==> v.vehicleType == NA)
  {
    SheetFollowsType(ds, table);
    LastDirectiveWins(ds, VehicleTypeField, table);
    var k := LastIndex(ds, VehicleTypeField);
    if k >= 0 {
      assert ds[k].VehicleType?;
    }
  }

  /** The years of a kept record are digit runs captured by `$AVAILABLE`, or both still "N/A". */
  lemma YearsDigitsOrNA(lines: seq<string>, table: map<nat, string>)
    requires Expected(lines, table).Some?
    ensures var v := Expected(lines, table).value;
      && (v.startYear == NA <==> v.endYear == NA)
      && (v.startYear != NA ==> IsDigits(v.startYear) && IsDigits(v.endYear))
  {
    var ds := Classified(lines);
    var v := Expected(lines, table).value;
    assert v.startYear == Get(Fields(ds, table), StartYearField);
    assert v.endYear == Get(Fields(ds, table), EndYearField);
    LastDirectiveWins(ds, StartYearField, table);
    LastDirectiveWins(ds, EndYearField, table);
    LastIndexSameWriter(ds, StartYearField, EndYearField);
    var k := LastIndex(ds, StartYearField);
    if k >= 0 {
      ClassifiedAt(lines, k);
      var d := ds[k];
      assert d.Available? && IsDigits(d.startYear) && IsDigits(d.endYear);
      assert v.startYear == d.startYear && v.endYear == d.endYear;
      assert d.startYear[0] != NA[0];
    }
  }

  lemma {:induction false} LastIndexSameWriter(ds: seq<Directive>, f: Field, g: Field)
    requires forall d :: Writes(d, f) <==> Writes(d, g)
    ensures LastIndex(ds, f) == LastIndex(ds, g)
    decreases |ds|
  {
    if ds != [] {
      LastIndexSameWriter(ds[..|ds| - 1], f, g);
    }
  }
}
