/**
 * `gather_all_vehicle_data`, after the string table has been loaded and the
 * `script.ini` files have been found: every record is parsed, dropped when
 * it is excluded or outside the requested year, and appended to the list of
 * its sheet.
 */
module Collector {
  import opened Wrappers
  import opened Strings
  import opened ScriptParser

  /** The sheet a parsed record goes to: its `_Sheet`, or "other" when it has none. */
  function SheetName(v: Vehicle): string {
    v.sheet.GetOr("other")
  }

  /**
   * The year filter. A missing year, or year 0 (which Python treats as
   * false), keeps everything; otherwise both years must read as integers
   * and enclose the year, and a year that does not read ("N/A") drops the
   * record.
   */
  predicate Kept(v: Vehicle, filterYear: Option<int>) {
    if filterYear.None? || filterYear.value == 0 then true
    else
      && IsDigits(v.startYear) && IsDigits(v.endYear)
      && DigitsValue(v.startYear) <= filterYear.value <= DigitsValue(v.endYear)
  }

  /** What `parse_script_ini` returns for each record, in order. */
  function Parsed(records: seq<seq<string>>, table: map<nat, string>): (ps: seq<Option<Vehicle>>)
    ensures |ps| == |records|
    ensures forall i :: 0 <= i < |records| ==> ps[i] == Expected(records[i], table)
  {
    seq(|records|, i requires 0 <= i < |records| => Expected(records[i], table))
  }

  /** The parsed records that are not excluded and pass the year filter, in the order they were read. */
  function Gathered(ps: seq<Option<Vehicle>>, filterYear: Option<int>): seq<Vehicle>
    decreases |ps|
  {
    if ps == [] then []
    else
      var rest := Gathered(ps[..|ps| - 1], filterYear);
      var r := ps[|ps| - 1];
      if r.Some? && Kept(r.value, filterYear) then rest + [r.value] else rest
  }

  /** The vehicles of `vs` that go to `sheet`, in order. */
  function OnSheet(vs: seq<Vehicle>, sheet: string): (b: seq<Vehicle>)
    ensures |b| <= |vs|
    decreases |vs|
  {
    if vs == [] then []
    else
      var rest := OnSheet(vs[..|vs| - 1], sheet);
      if SheetName(vs[|vs| - 1]) == sheet then rest + [vs[|vs| - 1]] else rest
  }

  /** The list `gather_all_vehicle_data` builds for `sheet`. */
  function Bucket(records: seq<seq<string>>, table: map<nat, string>, filterYear: Option<int>, sheet: string): seq<Vehicle> {
    OnSheet(Gathered(Parsed(records, table), filterYear), sheet)
  }

  /** Reading one more record appends it when it was parsed and passes the filter. */
  lemma GatheredStep(ps: seq<Option<Vehicle>>, i: nat, filterYear: Option<int>)
    requires i < |ps|
    ensures Gathered(ps[..i + 1], filterYear) ==
      if ps[i].Some? && Kept(ps[i].value, filterYear) then Gathered(ps[..i], filterYear) + [ps[i].value]
      else Gathered(ps[..i], filterYear)
  {
    assert ps[..i + 1][..i] == ps[..i];
  }

  lemma OnSheetSnoc(vs: seq<Vehicle>, v: Vehicle, sheet: string)
    ensures OnSheet(vs + [v], sheet) == if SheetName(v) == sheet then OnSheet(vs, sheet) + [v] else OnSheet(vs, sheet)
  {
    assert (vs + [v])[..|vs|] == vs;
  }

  /** The dictionary holds, for every sheet that received a vehicle, the vehicles of `kept` on that sheet. */
  ghost predicate Files(bySheet: map<string, seq<Vehicle>>, kept: seq<Vehicle>) {
    && (forall s :: s in bySheet <==> OnSheet(kept, s) != [])
    && (forall s :: s in bySheet ==> bySheet[s] == OnSheet(kept, s))
  }

  /** `vehicles_by_sheet[sheet].append(v)` on the `defaultdict(list)`. */
  function Append(bySheet: map<string, seq<Vehicle>>, v: Vehicle): (m: map<string, seq<Vehicle>>)
    ensures SheetName(v) in m
    ensures m[SheetName(v)] == (if SheetName(v) in bySheet then bySheet[SheetName(v)] else []) + [v]
    ensures forall s :: s != SheetName(v) ==> (s in m <==> s in bySheet)
    ensures forall s :: s != SheetName(v) && s in bySheet ==> m[s] == bySheet[s]
  {
    var sheet := SheetName(v);
    var list := if sheet in bySheet then bySheet[sheet] else [];
    bySheet[sheet := list + [v]]
  }

  /** Appending a vehicle keeps the dictionary in step with the kept vehicles. */
  lemma AppendFiles(bySheet: map<string, seq<Vehicle>>, kept: seq<Vehicle>, v: Vehicle)
    requires Files(bySheet, kept)
    ensures Files(Append(bySheet, v), kept + [v])
  {
    forall s ensures OnSheet(kept + [v], s) == if SheetName(v) == s then OnSheet(kept, s) + [v] else OnSheet(kept, s) {
      OnSheetSnoc(kept, v, s);
    }
  }

  /**
   * `gather_all_vehicle_data` over the lines of every `script.ini` found, in
   * the order found, with the loaded string table and the optional year.
   * The result has a key exactly for the sheets that received a vehicle.
   */
  method Collect(records: seq<seq<string>>, table: map<nat, string>, filterYear: Option<int>)
    returns (bySheet: map<string, seq<Vehicle>>)
    ensures forall s :: s in bySheet <==> Bucket(records, table, filterYear, s) != []
    ensures forall s :: s in bySheet ==> bySheet[s] == Bucket(records, table, filterYear, s)
  {
    ghost var ps := Parsed(records, table);
    ghost var kept: seq<Vehicle> := [];
    bySheet := map[];
    for i := 0 to |records|
      invariant kept == Gathered(ps[..i], filterYear)
      invariant Files(bySheet, kept)
    {
      var vehicle := ParseScript(records[i], table);
      GatheredStep(ps, i, filterYear);
      if vehicle.None? {
        continue;
      }
      var v := vehicle.value;
      if filterYear.Some? && filterYear.value != 0 {
        if !(IsDigits(v.startYear) && IsDigits(v.endYear)) {
          continue;
        }
        if !(DigitsValue(v.startYear) <= filterYear.value <= DigitsValue(v.endYear)) {
          continue;
        }
      }
      AppendFiles(bySheet, kept, v);
      bySheet := Append(bySheet, v);
      kept := kept + [v];
    }
    assert ps[..|records|] == ps;
  }

  /** A vehicle is in a sheet's list exactly when it survived parsing and the filter and belongs to that sheet. */
  lemma {:induction false} OnSheetMembers(vs: seq<Vehicle>, sheet: string, v: Vehicle)
    ensures v in OnSheet(vs, sheet) <==> v in vs && SheetName(v) == sheet
    decreases |vs|
  {
    if vs != [] {
      var init, last := vs[..|vs| - 1], vs[|vs| - 1];
      assert vs == init + [last];
      OnSheetMembers(init, sheet, v);
    }
  }

  /** A vehicle is gathered exactly when some record parses to it and it passes the year filter. */
  lemma {:induction false} GatheredMembers(ps: seq<Option<Vehicle>>, filterYear: Option<int>, v: Vehicle)
    ensures v in Gathered(ps, filterYear) <==> Kept(v, filterYear) && Some(v) in ps
    decreases |ps|
  {
    if ps != [] {
      var init, last := ps[..|ps| - 1], ps[|ps| - 1];
      assert ps == init + [last];
      GatheredMembers(init, filterYear, v);
    }
  }

  /**
   * The lists partition the surviving vehicles by sheet: a vehicle lands in
   * the list of its own sheet, and in no other.
   */
  lemma BucketMembers(records: seq<seq<string>>, table: map<nat, string>, filterYear: Option<int>, sheet: string, v: Vehicle)
    ensures v in Bucket(records, table, filterYear, sheet) <==>
      SheetName(v) == sheet && Kept(v, filterYear) && exists i :: 0 <= i < |records| && Expected(records[i], table) == Some(v)
  {
    var ps := Parsed(records, table);
    OnSheetMembers(Gathered(ps, filterYear), sheet, v);
    GatheredMembers(ps, filterYear, v);
    if Some(v) in ps {
      var i :| 0 <= i < |ps| && ps[i] == Some(v);
      assert Expected(records[i], table) == Some(v);
    }
  }

  /** Every parsed record belongs to one of the five sheets. */
  lemma SheetOfParsed(rec: seq<string>, table: map<nat, string>)
    requires Expected(rec, table).Some?
    ensures SheetName(Expected(rec, table).value) in Categories
  {
    SheetOnlyFromType(Classified(rec), table);
  }

  /** Only the five sheets ever appear as keys. */
  lemma BucketsAreCategories(records: seq<seq<string>>, table: map<nat, string>, filterYear: Option<int>, sheet: string)
    requires Bucket(records, table, filterYear, sheet) != []
    ensures sheet in Categories
  {
    var v := Bucket(records, table, filterYear, sheet)[0];
    BucketMembers(records, table, filterYear, sheet, v);
    var i :| 0 <= i < |records| && Expected(records[i], table) == Some(v);
    SheetOfParsed(records[i], table);
  }

  /** With a year filter, a vehicle is listed only when both of its years are integers enclosing that year. */
  lemma FilterEnclosesYear(records: seq<seq<string>>, table: map<nat, string>, year: int, sheet: string, v: Vehicle)
    requires year != 0
    requires v in Bucket(records, table, Some(year), sheet)
    ensures IsDigits(v.startYear) && IsDigits(v.endYear)
    ensures DigitsValue(v.startYear) <= year <= DigitsValue(v.endYear)
  {
    BucketMembers(records, table, Some(year), sheet, v);
  }

  /** A record whose years were never set is dropped by any year filter, and kept without one. */
  lemma UnsetYearsDropped(v: Vehicle, year: int)
    requires year != 0
    requires v.startYear == NA || v.endYear == NA
    ensures !Kept(v, Some(year))
    ensures Kept(v, None) && Kept(v, Some(0))
  {
    assert !IsDigit(NA[0]);
  }

  /** A record available from 1980 to 1990 is kept for 1985 and dropped for 1995. */
  lemma YearFilterExample(v: Vehicle)
    requires v.startYear == "1980" && v.endYear == "1990"
    ensures Kept(v, Some(1985)) && !Kept(v, Some(1995))
  {
    assert "1980"[..3] == "198" && "198"[..2] == "19" && "19"[..1] == "1" && "1"[..0] == "";
    assert "1990"[..3] == "199" && "199"[..2] == "19";
    assert DigitsValue("1") == 1;
    assert DigitsValue("19") == 19;
    assert DigitsValue("198") == 198 && DigitsValue("199") == 199;
    assert DigitsValue("1980") == 1980 && DigitsValue("1990") == 1990;
  }
}
