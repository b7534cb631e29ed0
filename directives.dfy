/**
 * Recognition of one line of a vehicle's `script.ini`: the prefix dispatch
 * of `parse_script_ini` and the regex each branch applies to the line.
 */
module Directives {
  import opened Wrappers
  import opened Strings

  /** The argument shapes the directive regexes look for. */
  datatype Pattern =
    | Number(token: string)      // <token>\s+(\d+)
    | TwoNumbers(token: string)  // <token>\s+(\d+)\s+(\d+)
    | Quoted(token: string)      // <token>\s+"(.*?)"
    | Word(token: string)        // <token>\s+(\S+)
    | SkillNumber                // \$(SKILL_[A-Z_]+)\s+(\d+)
    | VehicleTypeTag             // \$TYPE\s+(VEHICLETYPE_[A-Z_]+)

  /** The literal text a match of the pattern starts with. */
  function Lead(p: Pattern): string {
    match p
    case Number(t) => t
    case TwoNumbers(t) => t
    case Quoted(t) => t
    case Word(t) => t
    case SkillNumber => "$SKILL_"
    case VehicleTypeTag => "$TYPE"
  }

  predicate AllUpperOrUnderscore(s: string) {
    forall k :: 0 <= k < |s| ==> IsUpperOrUnderscore(s[k])
  }

  /** What the capture groups of a successful match look like. */
  predicate WellFormedGroups(p: Pattern, g: seq<string>) {
    match p
    case Number(_) => |g| == 1 && IsDigits(g[0])
    case TwoNumbers(_) => |g| == 2 && IsDigits(g[0]) && IsDigits(g[1])
    case Quoted(_) => |g| == 1 && '"' !in g[0] && '\n' !in g[0]
    case Word(_) => |g| == 1 && g[0] != [] && forall k :: 0 <= k < |g[0]| ==> !IsSpace(g[0][k])
    case SkillNumber =>
      |g| == 2 && |g[0]| > 6 && StartsWith(g[0], "SKILL_") && AllUpperOrUnderscore(g[0][6..]) && IsDigits(g[1])
    case VehicleTypeTag =>
      |g| == 1 && |g[0]| > 12 && StartsWith(g[0], "VEHICLETYPE_") && AllUpperOrUnderscore(g[0][12..])
  }

  predicate IsQuotedChar(c: char) {
    c != '"' && c != '\n'
  }

  /** `\s+(\d+)` laid out at `a`: whitespace `s[a..b]`, then the whole digit run `s[b..c]`. */
  predicate NumberSplit(s: string, a: nat, b: nat, c: nat) {
    && a < b < c
    && RunOf(s, a, b, IsSpace) && RunOf(s, b, c, IsDigit)
    && (c == |s| || !IsDigit(s[c]))
  }

  /** `\s+"(.*?)"` laid out at `a`: whitespace up to the quote at `b`, and `q` the first quote after it, with no line break between. */
  predicate QuotedSplit(s: string, a: nat, b: nat, q: nat) {
    && a < b < q < |s|
    && RunOf(s, a, b, IsSpace) && s[b] == '"'
    && RunOf(s, b + 1, q, IsQuotedChar) && s[q] == '"'
  }

  /** `\s+(\S+)` laid out at `a`: whitespace `s[a..b]`, then the whole non-space run `s[b..c]`. */
  predicate WordSplit(s: string, a: nat, b: nat, c: nat) {
    && a < b < c
    && RunOf(s, a, b, IsSpace) && RunOf(s, b, c, IsNotSpace)
    && (c == |s| || IsSpace(s[c]))
  }

  /** `\$(SKILL_[A-Z_]+)\s+(\d+)` laid out at `i`: the tag is `s[i + 1..u]`, the number `s[b..c]`. */
  predicate SkillSplit(s: string, i: nat, u: nat, b: nat, c: nat) {
    && HasAt(s, i, "$SKILL_") && i + 7 < u
    && RunOf(s, i + 7, u, IsUpperOrUnderscore)
    && NumberSplit(s, u, b, c)
  }

  /** `\$TYPE\s+(VEHICLETYPE_[A-Z_]+)` laid out at `i`: the tag is the whole run `s[b..u]`. */
  predicate TypeSplit(s: string, i: nat, b: nat, u: nat) {
    && HasAt(s, i, "$TYPE") && i + 5 < b
    && RunOf(s, i + 5, b, IsSpace) && HasAt(s, b, "VEHICLETYPE_")
    && b + 12 < u && RunOf(s, b + 12, u, IsUpperOrUnderscore)
    && (u == |s| || !IsUpperOrUnderscore(s[u]))
  }

  ghost predicate OneNumberAfter(s: string, a: nat, g: seq<string>) {
    exists b: nat, c: nat :: NumberSplit(s, a, b, c) && g == [s[b..c]]
  }

  ghost predicate TwoNumbersAfter(s: string, a: nat, g: seq<string>) {
    exists b: nat, c: nat, d: nat, e: nat :: NumberSplit(s, a, b, c) && NumberSplit(s, c, d, e) && g == [s[b..c], s[d..e]]
  }

  ghost predicate QuotedAfter(s: string, a: nat, g: seq<string>) {
    exists b: nat, q: nat :: QuotedSplit(s, a, b, q) && g == [s[b + 1..q]]
  }

  ghost predicate WordAfter(s: string, a: nat, g: seq<string>) {
    exists b: nat, c: nat :: WordSplit(s, a, b, c) && g == [s[b..c]]
  }

  /**
   * What Python's `re` engine makes of the pattern at position `i`: the
   * pattern matches there, with groups `g`, exactly when the text has the
   * pattern's layout there, every `+` run taken whole and the lazy `.*?`
   * stopped at the first quote.
   */
  ghost predicate Matches(p: Pattern, s: string, i: nat, g: seq<string>) {
    match p
    case Number(t) => HasAt(s, i, t) && OneNumberAfter(s, i + |t|, g)
    case TwoNumbers(t) => HasAt(s, i, t) && TwoNumbersAfter(s, i + |t|, g)
    case Quoted(t) => HasAt(s, i, t) && QuotedAfter(s, i + |t|, g)
    case Word(t) => HasAt(s, i, t) && WordAfter(s, i + |t|, g)
    case SkillNumber => exists u: nat, b: nat, c: nat :: SkillSplit(s, i, u, b, c) && g == [s[i + 1..u], s[b..c]]
    case VehicleTypeTag => exists b: nat, u: nat :: TypeSplit(s, i, b, u) && g == [s[b..u]]
  }

  /** `\s+(\d+)` at `a`: where the digits start and end. */
  function NumberAt(s: string, a: nat): (r: Option<(nat, nat)>)
    requires a <= |s|
    ensures r.Some? ==> NumberSplit(s, a, r.value.0, r.value.1)
  {
    var b := SkipWhile(s, a, IsSpace);
    var c := SkipWhile(s, b, IsDigit);
    if b == a || c == b then None else Some((b, c))
  }

  /** Whitespace followed by a digit run is always read, and read whole. */
  lemma NumberAtComplete(s: string, a: nat, b: nat, c: nat)
    requires NumberSplit(s, a, b, c)
    ensures NumberAt(s, a) == Some((b, c))
  {
    SkipWhileStopsAt(s, a, b, IsSpace);
    SkipWhileStopsAt(s, b, c, IsDigit);
  }

  /** `\s+"(.*?)"` at `a`: where the opening and the closing quote are. */
  function QuotedAt(s: string, a: nat): (r: Option<(nat, nat)>)
    requires a <= |s|
    ensures r.Some? ==> QuotedSplit(s, a, r.value.0, r.value.1)
  {
    var b := SkipWhile(s, a, IsSpace);
    if b == a || b == |s| || s[b] != '"' then None
    else
      var q := SkipWhile(s, b + 1, IsQuotedChar);
      if q == |s| || s[q] != '"' then None else Some((b, q))
  }

  lemma QuotedAtComplete(s: string, a: nat, b: nat, q: nat)
    requires QuotedSplit(s, a, b, q)
    ensures QuotedAt(s, a) == Some((b, q))
  {
    SkipWhileStopsAt(s, a, b, IsSpace);
    SkipWhileStopsAt(s, b + 1, q, IsQuotedChar);
  }

  /** `\s+(\S+)` at `a`: where the word starts and ends. */
  function WordAt(s: string, a: nat): (r: Option<(nat, nat)>)
    requires a <= |s|
    ensures r.Some? ==> WordSplit(s, a, r.value.0, r.value.1)
  {
    var b := SkipWhile(s, a, IsSpace);
    var c := SkipWhile(s, b, IsNotSpace);
    if b == a || c == b then None else Some((b, c))
  }

  lemma WordAtComplete(s: string, a: nat, b: nat, c: nat)
    requires WordSplit(s, a, b, c)
    ensures WordAt(s, a) == Some((b, c))
  {
    SkipWhileStopsAt(s, a, b, IsSpace);
    SkipWhileStopsAt(s, b, c, IsNotSpace);
  }

  /** `[A-Z_]+` at `a`, returning where the whole run ends. */
  function UpperRunAt(s: string, a: nat): (r: Option<nat>)
    requires a <= |s|
    ensures r.Some? ==> a < r.value && RunOf(s, a, r.value, IsUpperOrUnderscore)
    ensures r.Some? ==> r.value == |s| || !IsUpperOrUnderscore(s[r.value])
    ensures r.None? <==> a == |s| || !IsUpperOrUnderscore(s[a])
  {
    var u := SkipWhile(s, a, IsUpperOrUnderscore);
    if u == a then None else Some(u)
  }

  /** `\$(SKILL_[A-Z_]+)\s+(\d+)` at `i`: where the tag ends and where the number starts and ends. */
  function SkillAt(s: string, i: nat): (r: Option<(nat, nat, nat)>)
    requires i <= |s|
    ensures r.Some? ==> SkillSplit(s, i, r.value.0, r.value.1, r.value.2)
  {
    if !HasAt(s, i, "$SKILL_") then None
    else
      var u := UpperRunAt(s, i + 7);
      if u.None? then None
      else
        var n := NumberAt(s, u.value);
        if n.None? then None else Some((u.value, n.value.0, n.value.1))
  }

  lemma SkillAtComplete(s: string, i: nat, u: nat, b: nat, c: nat)
    requires SkillSplit(s, i, u, b, c)
    ensures SkillAt(s, i) == Some((u, b, c))
  {
    SkipWhileStopsAt(s, i + 7, u, IsUpperOrUnderscore);
    NumberAtComplete(s, u, b, c);
  }

  /** `\$TYPE\s+(VEHICLETYPE_[A-Z_]+)` at `i`: where the tag starts and ends. */
  function VehicleTypeAt(s: string, i: nat): (r: Option<(nat, nat)>)
    requires i <= |s|
    ensures r.Some? ==> TypeSplit(s, i, r.value.0, r.value.1)
  {
    if !HasAt(s, i, "$TYPE") then None
    else
      var b := SkipWhile(s, i + 5, IsSpace);
      if b == i + 5 || !HasAt(s, b, "VEHICLETYPE_") then None
      else
        var u := UpperRunAt(s, b + 12);
        if u.None? then None else Some((b, u.value))
  }

  lemma VehicleTypeAtComplete(s: string, i: nat, b: nat, u: nat)
    requires TypeSplit(s, i, b, u)
    ensures VehicleTypeAt(s, i) == Some((b, u))
  {
    assert s[b] == 'V';
    SkipWhileStopsAt(s, i + 5, b, IsSpace);
    SkipWhileStopsAt(s, b + 12, u, IsUpperOrUnderscore);
  }

  /** The groups `\d+` captures at a number split are digit strings. */
  lemma NumberGroupIsDigits(s: string, a: nat, b: nat, c: nat)
    requires NumberSplit(s, a, b, c)
    ensures IsDigits(s[b..c])
  {
    assert forall k :: 0 <= k < c - b ==> s[b..c][k] == s[b + k];
  }

  /** `<token>\s+(\d+)` at `i`. */
  function NumberMatch(s: string, i: nat, t: string): (r: Option<seq<string>>)
    requires i <= |s|
    ensures r.Some? ==> HasAt(s, i, t) && WellFormedGroups(Number(t), r.value)
    ensures r.Some? ==> OneNumberAfter(s, i + |t|, r.value)
  {
    if !HasAt(s, i, t) then None
    else
      match NumberAt(s, i + |t|)
      case None => None
      case Some((b, c)) =>
        NumberGroupIsDigits(s, i + |t|, b, c);
        Some([s[b..c]])
  }

  lemma NumberMatchComplete(s: string, i: nat, t: string, g: seq<string>)
    requires HasAt(s, i, t) && OneNumberAfter(s, i + |t|, g)
    ensures NumberMatch(s, i, t) == Some(g)
  {
    var b: nat, c: nat :| NumberSplit(s, i + |t|, b, c) && g == [s[b..c]];
    NumberAtComplete(s, i + |t|, b, c);
  }

  /** `<token>\s+(\d+)\s+(\d+)` at `i`. */
  function TwoNumbersMatch(s: string, i: nat, t: string): (r: Option<seq<string>>)
    requires i <= |s|
    ensures r.Some? ==> HasAt(s, i, t) && WellFormedGroups(TwoNumbers(t), r.value)
    ensures r.Some? ==> TwoNumbersAfter(s, i + |t|, r.value)
  {
    if !HasAt(s, i, t) then None
    else
      match NumberAt(s, i + |t|)
      case None => None
      case Some((b, c)) =>
        match NumberAt(s, c)
        case None => None
        case Some((d, e)) =>
          NumberGroupIsDigits(s, i + |t|, b, c);
          NumberGroupIsDigits(s, c, d, e);
          Some([s[b..c], s[d..e]])
  }

  lemma TwoNumbersMatchComplete(s: string, i: nat, t: string, g: seq<string>)
    requires HasAt(s, i, t) && TwoNumbersAfter(s, i + |t|, g)
    ensures TwoNumbersMatch(s, i, t) == Some(g)
  {
    var b: nat, c: nat, d: nat, e: nat :| NumberSplit(s, i + |t|, b, c) && NumberSplit(s, c, d, e) && g == [s[b..c], s[d..e]];
    NumberAtComplete(s, i + |t|, b, c);
    NumberAtComplete(s, c, d, e);
    TwoNumbersFrom(s, i, t, b, c, d, e);
  }

  /** Evaluating the two-number matcher once both digit runs are known. */
  lemma TwoNumbersFrom(s: string, i: nat, t: string, b: nat, c: nat, d: nat, e: nat)
    requires i <= |s| && HasAt(s, i, t) && NumberAt(s, i + |t|) == Some((b, c)) && NumberAt(s, c) == Some((d, e))
    ensures TwoNumbersMatch(s, i, t) == Some([s[b..c], s[d..e]])
  {
  }

  /** `<token>\s+"(.*?)"` at `i`. */
  function QuotedMatch(s: string, i: nat, t: string): (r: Option<seq<string>>)
    requires i <= |s|
    ensures r.Some? ==> HasAt(s, i, t) && WellFormedGroups(Quoted(t), r.value)
    ensures r.Some? ==> QuotedAfter(s, i + |t|, r.value)
  {
    if !HasAt(s, i, t) then None
    else
      var q := QuotedAt(s, i + |t|);
      if q.None? then None
      else
        var (b, e) := q.value;
        Some([s[b + 1..e]])
  }

  /** `<token>\s+(\S+)` at `i`. */
  function WordMatch(s: string, i: nat, t: string): (r: Option<seq<string>>)
    requires i <= |s|
    ensures r.Some? ==> HasAt(s, i, t) && WellFormedGroups(Word(t), r.value)
    ensures r.Some? ==> WordAfter(s, i + |t|, r.value)
  {
    if !HasAt(s, i, t) then None
    else
      var w := WordAt(s, i + |t|);
      if w.None? then None
      else
        var (b, c) := w.value;
        assert forall k :: 0 <= k < c - b ==> s[b..c][k] == s[b + k];
        Some([s[b..c]])
  }

  /** `\$(SKILL_[A-Z_]+)\s+(\d+)` at `i`, as groups. */
  function SkillMatch(s: string, i: nat): (r: Option<seq<string>>)
    requires i <= |s|
    ensures r.Some? ==> HasAt(s, i, "$SKILL_") && WellFormedGroups(SkillNumber, r.value)
    ensures r.Some? ==> Matches(SkillNumber, s, i, r.value)
  {
    var m := SkillAt(s, i);
    if m.None? then None
    else
      var (u, b, c) := m.value;
      NumberGroupIsDigits(s, u, b, c);
      assert s[i + 1..i + 7] == "$SKILL_"[1..] == "SKILL_";
      assert s[i + 1..u][..6] == s[i + 1..i + 7];
      assert s[i + 1..u][6..] == s[i + 7..u];
      Some([s[i + 1..u], s[b..c]])
  }

  /** `\$TYPE\s+(VEHICLETYPE_[A-Z_]+)` at `i`, as groups. */
  function VehicleTypeMatch(s: string, i: nat): (r: Option<seq<string>>)
    requires i <= |s|
    ensures r.Some? ==> HasAt(s, i, "$TYPE") && WellFormedGroups(VehicleTypeTag, r.value)
    ensures r.Some? ==> Matches(VehicleTypeTag, s, i, r.value)
  {
    var m := VehicleTypeAt(s, i);
    if m.None? then None
    else
      var (b, u) := m.value;
      assert s[b..u][..12] == "VEHICLETYPE_";
      assert forall k :: 0 <= k < u - b - 12 ==> s[b..u][12..][k] == s[b + 12 + k];
      Some([s[b..u]])
  }

  /**
   * The pattern matched at position `i` of `s`, with its capture groups.
   * Every repetition in these patterns is followed by something it cannot
   * itself consume (digits by whitespace, `[A-Z_]` by whitespace, whitespace
   * by a digit, a quote or a non-space), so the greedy run is the only way
   * to match and no backtracking is needed. The lazy `(.*?)"` stops at the
   * first quote and fails at a line break.
   */
  function MatchAt(p: Pattern, s: string, i: nat): (r: Option<seq<string>>)
    requires i <= |s|
    ensures r.Some? ==> HasAt(s, i, Lead(p)) && WellFormedGroups(p, r.value)
    ensures r.Some? ==> Matches(p, s, i, r.value)
  {
    match p
    case Number(t) => NumberMatch(s, i, t)
    case TwoNumbers(t) => TwoNumbersMatch(s, i, t)
    case Quoted(t) => QuotedMatch(s, i, t)
    case Word(t) => WordMatch(s, i, t)
    case SkillNumber => SkillMatch(s, i)
    case VehicleTypeTag => VehicleTypeMatch(s, i)
  }

  /** Wherever the text has the pattern's layout, the matcher finds it, with the groups of that layout. */
  lemma MatchAtComplete(p: Pattern, s: string, i: nat, g: seq<string>)
    requires i <= |s|
    requires Matches(p, s, i, g)
    ensures MatchAt(p, s, i) == Some(g)
  {
    match p
    case Number(t) =>
      NumberMatchComplete(s, i, t, g);
    case TwoNumbers(t) =>
      TwoNumbersMatchComplete(s, i, t, g);
    case Quoted(t) =>
      QuotedMatchComplete(s, i, t, g);
    case Word(t) =>
      WordMatchComplete(s, i, t, g);
    case SkillNumber =>
      SkillMatchComplete(s, i, g);
    case VehicleTypeTag =>
      VehicleTypeMatchComplete(s, i, g);
  }

  lemma QuotedMatchComplete(s: string, i: nat, t: string, g: seq<string>)
    requires HasAt(s, i, t) && QuotedAfter(s, i + |t|, g)
    ensures QuotedMatch(s, i, t) == Some(g)
  {
    var b: nat, q: nat :| QuotedSplit(s, i + |t|, b, q) && g == [s[b + 1..q]];
    QuotedAtComplete(s, i + |t|, b, q);
  }

  lemma WordMatchComplete(s: string, i: nat, t: string, g: seq<string>)
    requires HasAt(s, i, t) && WordAfter(s, i + |t|, g)
    ensures WordMatch(s, i, t) == Some(g)
  {
    var b: nat, c: nat :| WordSplit(s, i + |t|, b, c) && g == [s[b..c]];
    WordAtComplete(s, i + |t|, b, c);
  }

  lemma SkillMatchComplete(s: string, i: nat, g: seq<string>)
    requires i <= |s| && Matches(SkillNumber, s, i, g)
    ensures SkillMatch(s, i) == Some(g)
  {
    var u: nat, b: nat, c: nat :| SkillSplit(s, i, u, b, c) && g == [s[i + 1..u], s[b..c]];
    SkillAtComplete(s, i, u, b, c);
  }

  lemma VehicleTypeMatchComplete(s: string, i: nat, g: seq<string>)
    requires i <= |s| && Matches(VehicleTypeTag, s, i, g)
    ensures VehicleTypeMatch(s, i) == Some(g)
  {
    var b: nat, u: nat :| TypeSplit(s, i, b, u) && g == [s[b..u]];
    VehicleTypeAtComplete(s, i, b, u);
  }

  /** The matcher at one position is exactly the regex semantics `Matches`. */
  lemma MatchAtIff(p: Pattern, s: string, i: nat, g: seq<string>)
    requires i <= |s|
    ensures MatchAt(p, s, i) == Some(g) <==> Matches(p, s, i, g)
  {
    if Matches(p, s, i, g) {
      MatchAtComplete(p, s, i, g);
    }
  }

  /** The first successful attempt in `ms`, if any. */
  function FirstMatch(ms: seq<Option<seq<string>>>): (r: Option<seq<string>>)
    ensures r.Some? ==> exists j :: 0 <= j < |ms| && ms[j] == r && forall k :: 0 <= k < j ==> ms[k].None?
    ensures r.None? ==> forall j :: 0 <= j < |ms| ==> ms[j].None?
  {
    if ms == [] then None
    else if ms[0].Some? then ms[0]
    else
      var r := FirstMatch(ms[1..]);
      assert forall j :: 0 < j < |ms| ==> ms[j] == ms[1..][j - 1];
      r
  }

  /** The attempts to match `p` at every position of `s` from `i` on, in order. */
  function Attempts(p: Pattern, s: string, i: nat): (ms: seq<Option<seq<string>>>)
    requires i <= |s|
    ensures |ms| == |s| + 1 - i
    ensures forall k :: 0 <= k < |ms| ==> ms[k] == MatchAt(p, s, i + k)
  {
    seq(|s| + 1 - i, k requires 0 <= k < |s| + 1 - i => MatchAt(p, s, i + k))
  }

  /** `re.search`: the first position from `i` on where the pattern matches, with its groups. */
  function Search(p: Pattern, s: string, i: nat): (r: Option<seq<string>>)
    requires i <= |s|
    ensures r.Some? ==> WellFormedGroups(p, r.value)
  {
    FirstMatch(Attempts(p, s, i))
  }

  /**
   * The search returns the match at the leftmost position where the pattern
   * matches, and no match when it matches nowhere.
   */
  lemma SearchIsLeftmost(p: Pattern, s: string, i: nat)
    requires i <= |s|
    ensures var r := Search(p, s, i);
      && (r.Some? ==>
        exists j :: i <= j <= |s| && MatchAt(p, s, j) == r && forall k :: i <= k < j ==> MatchAt(p, s, k).None?)
      && (r.None? ==> forall j :: i <= j <= |s| ==> MatchAt(p, s, j).None?)
  {
    var ms := Attempts(p, s, i);
    assert forall j :: i <= j <= |s| ==> MatchAt(p, s, j) == ms[j - i];
  }

  /** `re.search` returns the groups of the leftmost position where the text has the pattern's layout. */
  lemma SearchFindsLeftmost(p: Pattern, s: string, j: nat, g: seq<string>)
    requires j <= |s|
    requires Matches(p, s, j, g)
    requires forall k, h :: 0 <= k < j ==> !Matches(p, s, k, h)
    ensures MatchAt(p, s, j) == Some(g) && Search(p, s, 0) == Some(g)
  {
    MatchAtComplete(p, s, j, g);
    forall k | 0 <= k < j
      ensures MatchAt(p, s, k).None?
    {
    }
    SearchIsLeftmost(p, s, 0);
  }

  /** The effect one line can have on the record being parsed. */
  datatype Directive =
    | Exclude
    | LiteralName(text: string)
    | NameRef(nameId: nat)
    | Available(startYear: string, endYear: string)
    | ResourceCapacity(capacity: string)
    | CostRub(rub: string)
    | CostUsd(usd: string)
    | MovementSpeed(speed: string)
    | ResourceTransportType(candidate: string)
    | Skill(skill: string, skillCapacity: string)
    | VehicleType(vehicleType: string)
    | CountryRef(countryId: nat)
    | NoEffect

  /** `tag.replace(prefix, "").replace("_", " ").lower()`. */
  function CleanTag(tag: string, prefix: string): (r: string)
    requires prefix != []
    ensures '_' !in r
    ensures AllUpperOrUnderscore(tag) ==> forall k :: 0 <= k < |r| ==> ('a' <= r[k] <= 'z' || r[k] == ' ')
  {
    var stripped := ReplaceAll(tag, prefix, "");
    var spaced := ReplaceChar(stripped, '_', ' ');
    assert forall k :: 0 <= k < |spaced| ==> spaced[k] in stripped || spaced[k] == ' ';
    Lower(spaced)
  }

  /**
   * A tag made of the prefix and a body that does not contain the prefix
   * again cleans to the body, lower-cased, with underscores as spaces.
   */
  lemma CleanTagOfPrefixed(prefix: string, body: string)
    requires prefix != [] && !Contains(body, prefix)
    ensures CleanTag(prefix + body, prefix) == Lower(ReplaceChar(body, '_', ' '))
  {
    ReplaceAllPrefix(body, prefix, "");
    ReplaceAllAbsent(body, prefix, "");
    assert "" + body == body;
  }

  /** The resource transport type tag, cleaned, with the game's misspelling corrected. */
  function CleanResourceType(tag: string): (r: string)
    ensures r != "passanger"
    ensures '_' !in r
    ensures CleanTag(tag, "RESOURCE_TRANSPORT_") == "passanger" ==> r == "passenger"
    ensures CleanTag(tag, "RESOURCE_TRANSPORT_") != "passanger" ==> r == CleanTag(tag, "RESOURCE_TRANSPORT_")
  {
    var cleaned := CleanTag(tag, "RESOURCE_TRANSPORT_");
    if cleaned == "passanger" then "passenger" else cleaned
  }

  /** The branches of the `if`/`elif` chain of `parse_script_ini` after the exclusion test, one per directive. */
  datatype Branch =
    | NameStrBranch | NameBranch | AvailableBranch | CapacityBranch | CostRubBranch | CostUsdBranch
    | SpeedBranch | ResourceTypeBranch | SkillBranch | TypeBranch | CountryBranch

  /** The order in which the chain tests its branches. */
  const Chain: seq<Branch> := [
    NameStrBranch, NameBranch, AvailableBranch, CapacityBranch, CostRubBranch, CostUsdBranch,
    SpeedBranch, ResourceTypeBranch, SkillBranch, TypeBranch, CountryBranch]

  /** The test that selects a branch: a prefix test, except for skills, which may appear anywhere. */
  predicate Selects(b: Branch, line: string) {
    match b
    case NameStrBranch => StartsWith(line, "$NAME_STR")
    case NameBranch => StartsWith(line, "$NAME")
    case AvailableBranch => StartsWith(line, "$AVAILABLE")
    case CapacityBranch => StartsWith(line, "$RESOURCE_CAPACITY")
    case CostRubBranch => StartsWith(line, "$COST_RUB")
    case CostUsdBranch => StartsWith(line, "$COST_USD")
    case SpeedBranch => StartsWith(line, "$MOVEMENT_SPEED")
    case ResourceTypeBranch => StartsWith(line, "$RESOURCE_TRANSPORT_TYPE")
    case SkillBranch => Contains(line, "$SKILL_")
    case TypeBranch => StartsWith(line, "$TYPE")
    case CountryBranch => StartsWith(line, "$COUNTRY")
  }

  /** The kind of directive a branch writes. */
  predicate Yields(b: Branch, d: Directive) {
    match b
    case NameStrBranch => d.LiteralName?
    case NameBranch => d.NameRef?
    case AvailableBranch => d.Available?
    case CapacityBranch => d.ResourceCapacity?
    case CostRubBranch => d.CostRub?
    case CostUsdBranch => d.CostUsd?
    case SpeedBranch => d.MovementSpeed?
    case ResourceTypeBranch => d.ResourceTransportType?
    case SkillBranch => d.Skill?
    case TypeBranch => d.VehicleType?
    case CountryBranch => d.CountryRef?
  }

  /** The regex each branch searches the line for. */
  function PatternOf(b: Branch): Pattern {
    match b
    case NameStrBranch => Quoted("$NAME_STR")
    case NameBranch => Number("$NAME")
    case AvailableBranch => TwoNumbers("$AVAILABLE")
    case CapacityBranch => Number("$RESOURCE_CAPACITY")
    case CostRubBranch => Number("$COST_RUB")
    case CostUsdBranch => Number("$COST_USD")
    case SpeedBranch => Number("$MOVEMENT_SPEED")
    case ResourceTypeBranch => Word("$RESOURCE_TRANSPORT_TYPE")
    case SkillBranch => SkillNumber
    case TypeBranch => VehicleTypeTag
    case CountryBranch => Number("$COUNTRY")
  }

  /**
   * What a branch writes from the groups of its match: ids through `int()`,
   * years, capacity, prices and speed as the captured text, tags cleaned.
   */
  function Build(b: Branch, g: seq<string>): (d: Directive)
    requires WellFormedGroups(PatternOf(b), g)
    ensures Yields(b, d)
    ensures !d.Exclude? && !d.NoEffect?
    ensures d.Available? ==> IsDigits(d.startYear) && IsDigits(d.endYear)
    ensures d.ResourceCapacity? ==> IsDigits(d.capacity)
    ensures d.Skill? ==> IsDigits(d.skillCapacity)
  {
    match b
    case NameStrBranch => LiteralName(g[0])
    case NameBranch => NameRef(DigitsValue(g[0]))
    case AvailableBranch => Available(g[0], g[1])
    case CapacityBranch => ResourceCapacity(g[0])
    case CostRubBranch => CostRub(g[0])
    case CostUsdBranch => CostUsd(g[0])
    case SpeedBranch => MovementSpeed(g[0])
    case ResourceTypeBranch => ResourceTransportType(CleanResourceType(g[0]))
    case SkillBranch => Skill(CleanTag(g[0], "SKILL_"), g[1])
    case TypeBranch => VehicleType(CleanTag(g[0], "VEHICLETYPE_"))
    case CountryBranch => CountryRef(DigitsValue(g[0]))
  }

  /**
   * The body of a selected branch: `re.search` for its regex anywhere in the
   * line; the leftmost match decides what is written, and a line where the
   * regex matches nowhere has no effect.
   */
  function Take(b: Branch, line: string): (d: Directive)
    ensures Yields(b, d) || d == NoEffect
    ensures !d.Exclude?
    ensures d.Available? ==> IsDigits(d.startYear) && IsDigits(d.endYear)
    ensures d.ResourceCapacity? ==> IsDigits(d.capacity)
    ensures d.Skill? ==> IsDigits(d.skillCapacity)
  {
    var m := Search(PatternOf(b), line, 0);
    if m.None? then NoEffect else Build(b, m.value)
  }

  /** When the regex first matches the line at `j` with groups `g`, the branch writes what `g` says. */
  lemma TakeLeftmost(b: Branch, line: string, j: nat, g: seq<string>)
    requires j <= |line|
    requires Matches(PatternOf(b), line, j, g)
    requires forall k, h :: 0 <= k < j ==> !Matches(PatternOf(b), line, k, h)
    ensures MatchAt(PatternOf(b), line, j) == Some(g) && Take(b, line) == Build(b, g)
  {
    SearchFindsLeftmost(PatternOf(b), line, j, g);
  }

  /** A branch has no effect exactly when its regex matches nowhere in the line. */
  lemma TakeNoEffect(b: Branch, line: string)
    ensures Take(b, line) == NoEffect <==> forall k, h :: 0 <= k <= |line| ==> !Matches(PatternOf(b), line, k, h)
  {
    SearchIsLeftmost(PatternOf(b), line, 0);
    if Search(PatternOf(b), line, 0).None? {
      forall k, h | 0 <= k <= |line|
        ensures !Matches(PatternOf(b), line, k, h)
      {
        MatchAtIff(PatternOf(b), line, k, h);
      }
    } else {
      var j :| 0 <= j <= |line| && MatchAt(PatternOf(b), line, j) == Search(PatternOf(b), line, 0);
      assert Matches(PatternOf(b), line, j, MatchAt(PatternOf(b), line, j).value);
    }
  }

  /** The first branch of `bs` whose test holds decides the line; when none holds the line has no effect. */
  function FirstBranch(line: string, bs: seq<Branch>): (d: Directive)
    ensures !d.Exclude?
    ensures d.Available? ==> IsDigits(d.startYear) && IsDigits(d.endYear)
    ensures d.ResourceCapacity? ==> IsDigits(d.capacity)
    ensures d.Skill? ==> IsDigits(d.skillCapacity)
    decreases |bs|
  {
    if bs == [] then NoEffect
    else if Selects(bs[0], line) then Take(bs[0], line)
    else FirstBranch(line, bs[1..])
  }

  /**
   * The `if`/`elif` chain of `parse_script_ini` for one line: the exclusion
   * marker first, then the branches in the order of `Chain`. `$NAME_STR` is
   * tested before `$NAME`, and the substring test for `$SKILL_` comes before
   * `$TYPE` and `$COUNTRY`.
   */
  function Classify(line: string): (d: Directive)
    ensures d.Exclude? <==> StartsWith(line, "$PURCHASE_EXCLUDE")
    ensures d.Available? ==> IsDigits(d.startYear) && IsDigits(d.endYear)
    ensures d.ResourceCapacity? ==> IsDigits(d.capacity)
    ensures d.Skill? ==> IsDigits(d.skillCapacity)
  {
    if StartsWith(line, "$PURCHASE_EXCLUDE") then Exclude else FirstBranch(line, Chain)
  }

  lemma {:induction false} FirstBranchSkips(line: string, bs: seq<Branch>, j: nat)
    requires j <= |bs|
    requires forall k :: 0 <= k < j ==> !Selects(bs[k], line)
    ensures FirstBranch(line, bs) == FirstBranch(line, bs[j..])
    decreases j
  {
    if j > 0 {
      assert !Selects(bs[0], line);
      FirstBranchSkips(line, bs[1..], j - 1);
      assert bs[1..][j - 1..] == bs[j..];
    }
  }

  lemma FirstBranchHead(line: string, bs: seq<Branch>)
    requires bs != [] && Selects(bs[0], line)
    ensures FirstBranch(line, bs) == Take(bs[0], line)
  {
  }

  /** Branches whose tests fail are skipped: the line is decided by the rest of the chain. */
  lemma ClassifySkips(line: string, j: nat)
    requires !StartsWith(line, "$PURCHASE_EXCLUDE")
    requires j <= |Chain|
    requires forall k :: 0 <= k < j ==> !Selects(Chain[k], line)
    ensures Classify(line) == FirstBranch(line, Chain[j..])
  {
    FirstBranchSkips(line, Chain, j);
  }

  /**
   * The chain is an `elif` chain: a line without the exclusion marker is
   * handled by the first branch whose test holds, and by none when no test
   * holds.
   */
  lemma ClassifyPicksFirst(line: string, j: nat)
    requires !StartsWith(line, "$PURCHASE_EXCLUDE")
    requires j <= |Chain|
    requires forall k :: 0 <= k < j ==> !Selects(Chain[k], line)
    ensures j < |Chain| && Selects(Chain[j], line) ==> Classify(line) == Take(Chain[j], line)
    ensures j == |Chain| ==> Classify(line) == NoEffect
  {
    ClassifySkips(line, j);
    if j < |Chain| {
      assert Chain[j..][0] == Chain[j];
    }
  }

  /** Two prefixes that differ at some position cannot both start a line. */
  lemma PrefixesDiffer(line: string, p: string, q: string, k: nat)
    requires k < |p| && k < |q| && p[k] != q[k]
    ensures !(StartsWith(line, p) && StartsWith(line, q))
  {
    if StartsWith(line, p) && |q| <= |line| {
      assert line[..|p|][k] == p[k];
      assert line[..|q|][k] != q[k];
    }
  }

  /** A `$NAME_STR` line is never read as a `$NAME` id, although it also starts with `$NAME`. */
  lemma NameStrIsLiteral(line: string)
    requires StartsWith(line, "$NAME_STR")
    ensures Classify(line).LiteralName? || Classify(line) == NoEffect
  {
    PrefixesDiffer(line, "$NAME_STR", "$PURCHASE_EXCLUDE", 1);
    ClassifySkips(line, 0);
    assert Chain[0..][0] == NameStrBranch;
  }

  /** A line that none of the tests before the skill test selects, and that mentions `$SKILL_`, is a skill line. */
  lemma SkillBranchReached(line: string)
    requires !StartsWith(line, "$PURCHASE_EXCLUDE")
    requires !StartsWith(line, "$NAME_STR") && !StartsWith(line, "$NAME") && !StartsWith(line, "$AVAILABLE")
    requires !StartsWith(line, "$RESOURCE_CAPACITY") && !StartsWith(line, "$COST_RUB") && !StartsWith(line, "$COST_USD")
    requires !StartsWith(line, "$MOVEMENT_SPEED") && !StartsWith(line, "$RESOURCE_TRANSPORT_TYPE")
    requires Contains(line, "$SKILL_")
    ensures Classify(line) == Take(SkillBranch, line)
  {
    assert forall k :: 0 <= k < 8 ==> !Selects(Chain[k], line) by {
      assert Chain[..8] == [NameStrBranch, NameBranch, AvailableBranch, CapacityBranch, CostRubBranch, CostUsdBranch,
        SpeedBranch, ResourceTypeBranch];
    }
    ClassifySkips(line, 8);
    FirstBranchHead(line, Chain[8..]);
  }

  /** None of the tests before the skill test selects a line whose second character is `T` or `C` and whose fourth is not `S`. */
  lemma EarlierTestsFail(line: string)
    requires |line| > 3 && (line[1] == 'T' || line[1] == 'C') && line[3] != 'S'
    ensures !StartsWith(line, "$PURCHASE_EXCLUDE")
    ensures !StartsWith(line, "$NAME_STR") && !StartsWith(line, "$NAME") && !StartsWith(line, "$AVAILABLE")
    ensures !StartsWith(line, "$RESOURCE_CAPACITY") && !StartsWith(line, "$COST_RUB") && !StartsWith(line, "$COST_USD")
    ensures !StartsWith(line, "$MOVEMENT_SPEED") && !StartsWith(line, "$RESOURCE_TRANSPORT_TYPE")
  {
    PrefixesDiffer(line, line[..4], "$PURCHASE_EXCLUDE", 1);
    PrefixesDiffer(line, line[..4], "$NAME_STR", 1);
    PrefixesDiffer(line, line[..4], "$NAME", 1);
    PrefixesDiffer(line, line[..4], "$AVAILABLE", 1);
    PrefixesDiffer(line, line[..4], "$RESOURCE_CAPACITY", 1);
    PrefixesDiffer(line, line[..4], "$COST_RUB", 3);
    PrefixesDiffer(line, line[..4], "$COST_USD", 3);
    PrefixesDiffer(line, line[..4], "$MOVEMENT_SPEED", 1);
    PrefixesDiffer(line, line[..4], "$RESOURCE_TRANSPORT_TYPE", 1);
  }

  /**
   * The skill test is a substring test placed before `$TYPE` and `$COUNTRY`:
   * a `$TYPE` or `$COUNTRY` line that mentions `$SKILL_` is read as a skill line.
   */
  lemma SkillBeforeTypeAndCountry(line: string)
    requires StartsWith(line, "$TYPE") || StartsWith(line, "$COUNTRY")
    requires Contains(line, "$SKILL_")
    ensures Classify(line).Skill? || Classify(line) == NoEffect
  {
    TypeOrCountryShape(line);
    EarlierTestsFail(line);
    SkillBranchReached(line);
    SkillBranchKind(line);
  }

  /** The skill branch sets a skill or does nothing. */
  lemma SkillBranchKind(line: string)
    ensures Take(SkillBranch, line).Skill? || Take(SkillBranch, line) == NoEffect
  {
    var d := Take(SkillBranch, line);
    assert Yields(SkillBranch, d) || d == NoEffect;
  }

  lemma TypeOrCountryShape(line: string)
    requires StartsWith(line, "$TYPE") || StartsWith(line, "$COUNTRY")
    ensures |line| > 3 && (line[1] == 'T' || line[1] == 'C') && line[3] != 'S'
  {
    if StartsWith(line, "$TYPE") {
      assert line[..5][1] == 'T' && line[..5][3] == 'P';
    } else {
      assert line[..8][1] == 'C' && line[..8][3] == 'U';
    }
  }

  /**
   * A line without the exclusion marker that the `j`-th test is the first to
   * select, and whose text has that branch's regex layout at its start, is
   * decided by the groups of that layout.
   */
  lemma ClassifyAt(j: nat, line: string, g: seq<string>)
    requires !StartsWith(line, "$PURCHASE_EXCLUDE")
    requires j < |Chain|
    requires forall k :: 0 <= k < j ==> !Selects(Chain[k], line)
    requires Selects(Chain[j], line)
    requires Matches(PatternOf(Chain[j]), line, 0, g)
    ensures MatchAt(PatternOf(Chain[j]), line, 0) == Some(g)
    ensures Classify(line) == Build(Chain[j], g)
  {
    ClassifyPicksFirst(line, j);
    TakeLeftmost(Chain[j], line, 0, g);
  }

  /** `$NAME_STR "<text>"` sets the literal name to the text up to the first closing quote. */
  lemma NameStrLine(line: string, b: nat, q: nat)
    requires StartsWith(line, "$NAME_STR") && QuotedSplit(line, 9, b, q)
    ensures Classify(line) == LiteralName(line[b + 1..q])
  {
    PrefixesDiffer(line, "$NAME_STR", "$PURCHASE_EXCLUDE", 1);
    assert line[0..9] == line[..9];
    ClassifyAt(0, line, [line[b + 1..q]]);
  }

  /** `$NAME <digits>` sets the name id to the value of the digits. */
  lemma NameLine(line: string, b: nat, c: nat)
    requires StartsWith(line, "$NAME") && NumberSplit(line, 5, b, c)
    ensures Classify(line) == NameRef(DigitsValue(line[b..c]))
  {
    PrefixesDiffer(line, "$NAME", "$PURCHASE_EXCLUDE", 1);
    assert IsSpace(line[..6][5]);
    PrefixesDiffer(line, line[..6], "$NAME_STR", 5);
    assert Chain[..1] == [NameStrBranch];
    assert line[0..5] == line[..5];
    NumberGroupIsDigits(line, 5, b, c);
    ClassifyAt(1, line, [line[b..c]]);
  }

  /** `$AVAILABLE <digits> <digits>` sets the first and last year to the two digit runs. */
  lemma AvailableLine(line: string, b: nat, c: nat, d: nat, e: nat)
    requires StartsWith(line, "$AVAILABLE") && NumberSplit(line, 10, b, c) && NumberSplit(line, c, d, e)
    ensures Classify(line) == Available(line[b..c], line[d..e])
  {
    PrefixesDiffer(line, "$AVAILABLE", "$PURCHASE_EXCLUDE", 1);
    PrefixesDiffer(line, "$AVAILABLE", "$NAME_STR", 1);
    PrefixesDiffer(line, "$AVAILABLE", "$NAME", 1);
    assert forall k :: 0 <= k < 2 ==> !Selects(Chain[k], line) by {
      assert Chain[..2] == [NameStrBranch, NameBranch];
    }
    assert line[0..10] == line[..10];
    NumberGroupIsDigits(line, 10, b, c);
    NumberGroupIsDigits(line, c, d, e);
    ClassifyAt(2, line, [line[b..c], line[d..e]]);
  }

  /** The tests before the `j`-th, for a line whose first letter after `$` differs from each of their tokens' (`N`, `N`, `A`, ...). */
  lemma NoEarlierToken(line: string, token: string, j: nat)
    requires 1 < |token| && StartsWith(line, token) && 2 <= j <= 6
    requires token[1] != 'P' && token[1] != 'N' && token[1] != 'A'
    requires j > 3 ==> token[1] != 'R'
    requires j > 4 ==> token[1] != 'C'
    ensures !StartsWith(line, "$PURCHASE_EXCLUDE")
    ensures forall k :: 0 <= k < j ==> !Selects(Chain[k], line)
  {
    var c := line[1];
    assert c == token[1] by {
      assert line[..|token|][1] == token[1];
    }
    PrefixesDiffer(line, line[..2], "$PURCHASE_EXCLUDE", 1);
    PrefixesDiffer(line, line[..2], "$NAME_STR", 1);
    PrefixesDiffer(line, line[..2], "$NAME", 1);
    PrefixesDiffer(line, line[..2], "$AVAILABLE", 1);
    if j > 3 {
      PrefixesDiffer(line, line[..2], "$RESOURCE_CAPACITY", 1);
    }
    if j > 4 {
      PrefixesDiffer(line, line[..2], "$COST_RUB", 1);
    }
    if j > 5 {
      PrefixesDiffer(line, line[..2], "$COST_USD", 1);
    }
    assert Chain[..6] == [NameStrBranch, NameBranch, AvailableBranch, CapacityBranch, CostRubBranch, CostUsdBranch];
  }

  /** `$RESOURCE_CAPACITY <digits>` sets the capacity to the digit run. */
  lemma CapacityLine(line: string, b: nat, c: nat)
    requires StartsWith(line, "$RESOURCE_CAPACITY") && NumberSplit(line, 18, b, c)
    ensures Classify(line) == ResourceCapacity(line[b..c])
  {
    NoEarlierToken(line, "$RESOURCE_CAPACITY", 3);
    assert line[0..18] == line[..18];
    NumberGroupIsDigits(line, 18, b, c);
    ClassifyAt(3, line, [line[b..c]]);
  }

  /** `$COST_RUB <digits>` sets the rouble price to the digit run. */
  lemma CostRubLine(line: string, b: nat, c: nat)
    requires StartsWith(line, "$COST_RUB") && NumberSplit(line, 9, b, c)
    ensures Classify(line) == CostRub(line[b..c])
  {
    NoEarlierToken(line, "$COST_RUB", 4);
    assert line[0..9] == line[..9];
    NumberGroupIsDigits(line, 9, b, c);
    ClassifyAt(4, line, [line[b..c]]);
  }

  /** `$COST_USD <digits>` sets the dollar price to the digit run. */
  lemma CostUsdLine(line: string, b: nat, c: nat)
    requires StartsWith(line, "$COST_USD") && NumberSplit(line, 9, b, c)
    ensures Classify(line) == CostUsd(line[b..c])
  {
    NoEarlierToken(line, "$COST_USD", 4);
    PrefixesDiffer(line, "$COST_USD", "$COST_RUB", 6);
    assert forall k :: 0 <= k < 5 ==> !Selects(Chain[k], line) by {
      assert Chain[..5] == [NameStrBranch, NameBranch, AvailableBranch, CapacityBranch, CostRubBranch];
    }
    assert line[0..9] == line[..9];
    NumberGroupIsDigits(line, 9, b, c);
    ClassifyAt(5, line, [line[b..c]]);
  }

  /** `$MOVEMENT_SPEED <digits>` sets the speed to the digit run. */
  lemma SpeedLine(line: string, b: nat, c: nat)
    requires StartsWith(line, "$MOVEMENT_SPEED") && NumberSplit(line, 15, b, c)
    ensures Classify(line) == MovementSpeed(line[b..c])
  {
    NoEarlierToken(line, "$MOVEMENT_SPEED", 6);
    assert line[0..15] == line[..15];
    NumberGroupIsDigits(line, 15, b, c);
    ClassifyAt(6, line, [line[b..c]]);
  }

  /** `$RESOURCE_TRANSPORT_TYPE <word>` sets the resource type to the cleaned word. */
  lemma ResourceTypeLine(line: string, b: nat, c: nat)
    requires StartsWith(line, "$RESOURCE_TRANSPORT_TYPE") && WordSplit(line, 24, b, c)
    ensures Classify(line) == ResourceTransportType(CleanResourceType(line[b..c]))
  {
    NoEarlierToken(line, "$RESOURCE_TRANSPORT_TYPE", 3);
    PrefixesDiffer(line, "$RESOURCE_TRANSPORT_TYPE", "$RESOURCE_CAPACITY", 10);
    PrefixesDiffer(line, "$RESOURCE_TRANSPORT_TYPE", "$COST_RUB", 1);
    PrefixesDiffer(line, "$RESOURCE_TRANSPORT_TYPE", "$COST_USD", 1);
    PrefixesDiffer(line, "$RESOURCE_TRANSPORT_TYPE", "$MOVEMENT_SPEED", 1);
    assert forall k :: 0 <= k < 7 ==> !Selects(Chain[k], line) by {
      assert Chain[..7] == [NameStrBranch, NameBranch, AvailableBranch, CapacityBranch, CostRubBranch, CostUsdBranch, SpeedBranch];
    }
    assert line[0..24] == line[..24];
    assert forall k :: 0 <= k < c - b ==> line[b..c][k] == line[b + k];
    ClassifyAt(7, line, [line[b..c]]);
  }

  /** `$SKILL_<TAG> <digits>` adds a skill: the cleaned tag with the digit run as its capacity. */
  lemma SkillLine(line: string, u: nat, b: nat, c: nat)
    requires SkillSplit(line, 0, u, b, c)
    ensures Classify(line) == Skill(CleanTag(line[1..u], "SKILL_"), line[b..c])
  {
    assert StartsWith(line, "$SKILL_") by {
      assert line[..7] == line[0..7];
    }
    NoEarlierToken(line, "$SKILL_", 6);
    PrefixesDiffer(line, "$SKILL_", "$MOVEMENT_SPEED", 1);
    PrefixesDiffer(line, "$SKILL_", "$RESOURCE_TRANSPORT_TYPE", 1);
    assert forall k :: 0 <= k < 8 ==> !Selects(Chain[k], line) by {
      assert Chain[..8] == [NameStrBranch, NameBranch, AvailableBranch, CapacityBranch, CostRubBranch, CostUsdBranch,
        SpeedBranch, ResourceTypeBranch];
    }
    assert Matches(SkillNumber, line, 0, [line[1..u], line[b..c]]);
    ClassifyAt(8, line, [line[1..u], line[b..c]]);
  }

  /** `$TYPE VEHICLETYPE_<TAG>` sets the vehicle type to the cleaned tag, unless the line also mentions `$SKILL_`. */
  lemma TypeLine(line: string, b: nat, u: nat)
    requires TypeSplit(line, 0, b, u) && !Contains(line, "$SKILL_")
    ensures Classify(line) == VehicleType(CleanTag(line[b..u], "VEHICLETYPE_"))
  {
    assert StartsWith(line, "$TYPE") by {
      assert line[..5] == line[0..5];
    }
    TypeOrCountryShape(line);
    EarlierTestsFail(line);
    assert forall k :: 0 <= k < 9 ==> !Selects(Chain[k], line) by {
      assert Chain[..9] == [NameStrBranch, NameBranch, AvailableBranch, CapacityBranch, CostRubBranch, CostUsdBranch,
        SpeedBranch, ResourceTypeBranch, SkillBranch];
    }
    assert Matches(VehicleTypeTag, line, 0, [line[b..u]]);
    ClassifyAt(9, line, [line[b..u]]);
  }

  /** `$COUNTRY <digits>` sets the country id to the value of the digits, unless the line also mentions `$SKILL_`. */
  lemma CountryLine(line: string, b: nat, c: nat)
    requires StartsWith(line, "$COUNTRY") && NumberSplit(line, 8, b, c) && !Contains(line, "$SKILL_")
    ensures Classify(line) == CountryRef(DigitsValue(line[b..c]))
  {
    TypeOrCountryShape(line);
    EarlierTestsFail(line);
    PrefixesDiffer(line, "$COUNTRY", "$TYPE", 1);
    assert forall k :: 0 <= k < 10 ==> !Selects(Chain[k], line) by {
      assert Chain[..10] == [NameStrBranch, NameBranch, AvailableBranch, CapacityBranch, CostRubBranch, CostUsdBranch,
        SpeedBranch, ResourceTypeBranch, SkillBranch, TypeBranch];
    }
    assert line[0..8] == line[..8];
    NumberGroupIsDigits(line, 8, b, c);
    ClassifyAt(10, line, [line[b..c]]);
  }
}
