/**
 * The ID-to-text lookup loaded from the text export of the game's string
 * file: one entry per line of the form `String <id>: "<text>"`.
 */
module StringTable {
  import opened Wrappers
  import opened Strings

  datatype Entry = Entry(id: nat, text: string)

  /**
   * `t` is laid out as `^String\s+(\d+):\s+"(.*)"$` requires, with the digits
   * at `t[b..c]` and the opening quote at `t[d]`. The text is what lies
   * between that quote and the final one, and `.` does not cross a newline.
   */
  predicate EntrySplit(t: string, b: nat, c: nat, d: nat) {
    && StartsWith(t, "String") && 6 < b < c && c + 1 < d < |t| - 1
    && RunOf(t, 6, b, IsSpace) && RunOf(t, b, c, IsDigit) && t[c] == ':'
    && RunOf(t, c + 1, d, IsSpace) && t[d] == '"' && t[|t| - 1] == '"'
    && '\n' !in t[d + 1..|t| - 1]
  }

  /**
   * `^String\s+(\d+):\s+"(.*)"$` matched against a stripped line. A line
   * matches exactly when it has that layout, and then the id is the value of
   * its digits and the text what lies between the quotes. Each run is greedy
   * and no shorter run could be followed by what the pattern needs next, so
   * the layout is unique.
   */
  function MatchEntry(t: string): (r: Option<Entry>)
    ensures r.Some? ==> exists b: nat, c: nat, d: nat ::
      EntrySplit(t, b, c, d) && r.value == Entry(DigitsValue(t[b..c]), t[d + 1..|t| - 1])
  {
    if !StartsWith(t, "String") then None
    else
      var b := SkipWhile(t, 6, IsSpace);
      var c := SkipWhile(t, b, IsDigit);
      if b == 6 || c == b || c == |t| || t[c] != ':' then None
      else
        var d := SkipWhile(t, c + 1, IsSpace);
        if d == c + 1 || d >= |t| - 1 || t[d] != '"' || t[|t| - 1] != '"' then None
        else if '\n' in t[d + 1..|t| - 1] then None
        else
          assert EntrySplit(t, b, c, d);
          Some(Entry(DigitsValue(t[b..c]), t[d + 1..|t| - 1]))
  }

  /** The split points of the layout are where the greedy runs stop. */
  lemma EntrySplitDetermined(t: string, b: nat, c: nat, d: nat)
    requires EntrySplit(t, b, c, d)
    ensures b == SkipWhile(t, 6, IsSpace) && c == SkipWhile(t, b, IsDigit) && d == SkipWhile(t, c + 1, IsSpace)
  {
    SkipWhileStopsAt(t, 6, b, IsSpace);
    SkipWhileStopsAt(t, b, c, IsDigit);
    SkipWhileStopsAt(t, c + 1, d, IsSpace);
  }

  /** Every line laid out as the pattern requires matches, with the id its digits denote and the text between its quotes. */
  lemma MatchEntryComplete(t: string, b: nat, c: nat, d: nat)
    requires EntrySplit(t, b, c, d)
    ensures MatchEntry(t) == Some(Entry(DigitsValue(t[b..c]), t[d + 1..|t| - 1]))
  {
    EntrySplitDetermined(t, b, c, d);
  }

  /** What one line of the export contributes: the match against the stripped line. */
  function ParseEntry(line: string): Option<Entry> {
    MatchEntry(Strip(line))
  }

  /** The match of every line of the export, in order. */
  function Entries(lines: seq<string>): (es: seq<Option<Entry>>)
    ensures |es| == |lines|
    ensures forall i :: 0 <= i < |lines| ==> es[i] == ParseEntry(lines[i])
  {
    seq(|lines|, i requires 0 <= i < |lines| => ParseEntry(lines[i]))
  }

  predicate Defines(e: Option<Entry>, id: nat) {
    e.Some? && e.value.id == id
  }

  /** The line the export tool writes for an entry. */
  function FormatEntry(e: Entry): string {
    "String " + NatToString(e.id) + ": \"" + e.text + "\""
  }

  /** The matcher accepts any line laid out as `String <digits>: "<text>"`. */
  lemma MatchEntryOfLayout(t: string, ds: string, text: string)
    requires IsDigits(ds) && '\n' !in text
    requires |t| == 11 + |ds| + |text|
    requires t[..6] == "String" && t[6] == ' ' && t[7..7 + |ds|] == ds
    requires t[7 + |ds|] == ':' && t[8 + |ds|] == ' ' && t[9 + |ds|] == '"'
    requires t[10 + |ds|..|t| - 1] == text && t[|t| - 1] == '"'
    ensures MatchEntry(t) == Some(Entry(DigitsValue(ds), text))
  {
    var n := |ds|;
    assert forall k :: 7 <= k < 7 + n ==> t[k] == ds[k - 7];
    SkipWhileStopsAt(t, 6, 7, IsSpace);
    SkipWhileStopsAt(t, 7, 7 + n, IsDigit);
    SkipWhileStopsAt(t, 8 + n, 9 + n, IsSpace);
  }

  /** Where the parts of a formatted entry sit in the line. */
  lemma FormatEntryLayout(e: Entry)
    ensures var t, n := FormatEntry(e), |NatToString(e.id)|;
      && |t| == 11 + n + |e.text|
      && t[..6] == "String" && t[6] == ' ' && t[7..7 + n] == NatToString(e.id)
      && t[7 + n] == ':' && t[8 + n] == ' ' && t[9 + n] == '"'
      && t[10 + n..|t| - 1] == e.text && t[|t| - 1] == '"'
  {
    var ds := NatToString(e.id);
    assert FormatEntry(e) == "String " + ds + ": \"" + e.text + "\"";
  }

  /** Every entry whose text has no line break is read back from the line that carries it. */
  lemma EntryRoundTrip(e: Entry)
    requires '\n' !in e.text
    ensures ParseEntry(FormatEntry(e)) == Some(e)
  {
    var t := FormatEntry(e);
    FormatEntryLayout(e);
    MatchEntryOfLayout(t, NatToString(e.id), e.text);
    DigitsValueOfNatToString(e.id);
    assert !IsSpace(t[0]) && !IsSpace(t[|t| - 1]);
  }

  /** The text of the last matching line that defines `id`, if any line does. */
  function LastText(es: seq<Option<Entry>>, id: nat): Option<string>
    decreases |es|
  {
    if es == [] then None
    else if Defines(es[|es| - 1], id) then Some(es[|es| - 1].value.text)
    else LastText(es[..|es| - 1], id)
  }

  lemma LastTextSnoc(es: seq<Option<Entry>>, e: Option<Entry>)
    ensures forall id :: LastText(es + [e], id) == if Defines(e, id) then Some(e.value.text) else LastText(es, id)
  {
    assert (es + [e])[..|es|] == es;
  }

  /** An id has a text exactly when some line defines it. */
  lemma {:induction false} LastTextDefined(es: seq<Option<Entry>>, id: nat)
    ensures LastText(es, id).Some? <==> exists i :: 0 <= i < |es| && Defines(es[i], id)
    decreases |es|
  {
    if es != [] {
      var n := |es| - 1;
      var init := es[..n];
      LastTextDefined(init, id);
      if !Defines(es[n], id) {
        if LastText(es, id).Some? {
          var i :| 0 <= i < n && Defines(init[i], id);
          assert es[i] == init[i];
        } else {
          forall i | 0 <= i < |es| ensures !Defines(es[i], id) {
            if i < n { assert init[i] == es[i]; }
          }
        }
      }
    }
  }

  /** The text of an id is the one on the last line that defines it: a later duplicate overwrites an earlier one. */
  lemma {:induction false} LastTextIsLastDefinition(es: seq<Option<Entry>>, id: nat)
    requires LastText(es, id).Some?
    ensures exists i ::
      && 0 <= i < |es|
      && es[i] == Some(Entry(id, LastText(es, id).value))
      && forall j :: i < j < |es| ==> !Defines(es[j], id)
    decreases |es|
  {
    var n := |es| - 1;
    if Defines(es[n], id) {
      assert es[n] == Some(Entry(id, LastText(es, id).value));
    } else {
      var init := es[..n];
      LastTextIsLastDefinition(init, id);
      var i :| 0 <= i < n && init[i] == Some(Entry(id, LastText(init, id).value))
        && forall j :: i < j < n ==> !Defines(init[j], id);
      assert es[i] == init[i];
      forall j | i < j < |es| ensures !Defines(es[j], id) {
        if j < n { assert init[j] == es[j]; }
      }
    }
  }

  /**
   * The table holds, for every id some line defines, the decoded text of the
   * last such line. `decode` stands for the `unicode_escape` decoding, which
   * fails (`None`) on a malformed escape.
   */
  ghost predicate Mirrors(table: map<nat, string>, es: seq<Option<Entry>>, decode: string -> Option<string>) {
    && (forall id :: id in table <==> LastText(es, id).Some?)
    && (forall id :: id in table ==> decode(LastText(es, id).value) == Some(table[id]))
  }

  /** A matching line whose text does not decode: `load_btf_mapping` raises there. */
  predicate Fails(e: Option<Entry>, decode: string -> Option<string>) {
    e.Some? && decode(e.value.text).None?
  }

  /** Every matching line among `es` has a text that decodes. */
  predicate AllDecode(es: seq<Option<Entry>>, decode: string -> Option<string>) {
    forall k :: 0 <= k < |es| ==> !Fails(es[k], decode)
  }

  lemma AllDecodeSnoc(es: seq<Option<Entry>>, e: Option<Entry>, decode: string -> Option<string>)
    requires AllDecode(es, decode) && !Fails(e, decode)
    ensures AllDecode(es + [e], decode)
  {
  }

  /** `mapping[id] = text` for a matching line whose text decodes; nothing for a line that does not match. */
  function Store(table: map<nat, string>, e: Option<Entry>, decode: string -> Option<string>): (t: map<nat, string>)
    requires !Fails(e, decode)
    ensures e.Some? ==> e.value.id in t && Some(t[e.value.id]) == decode(e.value.text)
    ensures forall id :: id in t <==> id in table || (e.Some? && id == e.value.id)
    ensures forall id :: id in table && (e.None? || id != e.value.id) ==> t[id] == table[id]
  {
    if e.Some? then table[e.value.id := decode(e.value.text).value] else table
  }

  /** Storing the next line's entry keeps the table in step with the lines read so far. */
  lemma StoreMirrors(table: map<nat, string>, es: seq<Option<Entry>>, e: Option<Entry>, decode: string -> Option<string>)
    requires Mirrors(table, es, decode) && !Fails(e, decode)
    ensures Mirrors(Store(table, e, decode), es + [e], decode)
  {
    LastTextSnoc(es, e);
  }

  /** Reading one more element of a sequence extends the prefix read so far by that element. */
  lemma PrefixStep<T>(xs: seq<T>, i: nat)
    requires i < |xs|
    ensures xs[..i + 1] == xs[..i] + [xs[i]]
  {
  }

  /**
   * `load_btf_mapping` over the lines of the export: each matching line
   * stores its decoded text under its id, later lines overwriting earlier
   * ones. The first matching line whose text does not decode raises, and
   * nothing is returned (`None`).
   */
  method LoadStringTable(lines: seq<string>, decode: string -> Option<string>) returns (table: Option<map<nat, string>>)
    ensures table.None? <==> exists i :: 0 <= i < |lines| && Fails(ParseEntry(lines[i]), decode)
    ensures table.Some? ==> forall id :: id in table.value <==> LastText(Entries(lines), id).Some?
    ensures table.Some? ==> forall id :: id in table.value ==> decode(LastText(Entries(lines), id).value) == Some(table.value[id])
  {
    ghost var es := Entries(lines);
    var t: map<nat, string> := map[];
    for i := 0 to |lines|
      invariant Mirrors(t, es[..i], decode)
      invariant AllDecode(es[..i], decode)
    {
      var m := ParseEntry(lines[i]);
      assert m == es[i];
      if m.Some? && decode(m.value.text).None? {
        assert Fails(ParseEntry(lines[i]), decode);
        return None;
      }
      PrefixStep(es, i);
      StoreMirrors(t, es[..i], m, decode);
      AllDecodeSnoc(es[..i], m, decode);
      if m.Some? {
        t := t[m.value.id := decode(m.value.text).value];
      }
    }
    assert es[..|lines|] == es;
    forall i | 0 <= i < |lines| ensures !Fails(ParseEntry(lines[i]), decode) {
      assert es[i] == ParseEntry(lines[i]);
      assert !Fails(es[i], decode);
    }
    return Some(t);
  }
}
