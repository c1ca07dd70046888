/**
 * The one-off conversion of the COBIDAS appendix table into the YAML
 * catalog the checker loads: each row's detail text and label are
 * normalised by a fixed, ordered table of literal character substitutions,
 * and each row becomes one catalog entry, written with three writes.
 *
 * The spreadsheet is abstracted as a sequence of rows whose cells may be
 * missing; the YAML output as the sequence of strings passed to `f.write`,
 * each of which is one line of the file only when no cell holds a newline.
 */
module ConvertCobidas {
  import opened Wrappers
  import Text

  // ---------------------------------------------------------------------
  // The substitution table

  /** One entry of `re_replacements`: a literal pattern and its replacement. */
  datatype Substitution = Substitution(pattern: string, replacement: string)

  /** `re_replacements`, in insertion order. Each pattern is a literal
      character, possibly with a space before or after it; the replacement
      `\\"` is two characters, a backslash and a straight double quote. */
  const Substitutions: seq<Substitution> := [
    Substitution(" \U{AD}", "-"),
    Substitution("\U{AD} ", "-"),
    Substitution("\U{AD}", "-"),
    Substitution("\U{D7}", "x"),
    Substitution("\U{37E}", ";"),
    Substitution(" \U{2013}", "-"),
    Substitution("\U{2013} ", "-"),
    Substitution("\U{2013}", "-"),
    Substitution(" \U{2014}", "-"),
    Substitution("\U{2014} ", "-"),
    Substitution("\U{2014}", "-"),
    Substitution("\U{2018}", "'"),
    Substitution("\U{2019}", "'"),
    Substitution("\U{201C}", "\\\""),
    Substitution("\U{201D}", "\\\""),
    Substitution(" \U{2212}", "-"),
    Substitution("\U{2212} ", "-"),
    Substitution("\U{2212}", "-")
  ]

  /** The characters the table replaces: soft hyphen, multiplication sign,
      Greek question mark, en and em dash, curly single and double quotes,
      minus sign. */
  const Replaced: set<char> := {
    '\U{AD}', '\U{D7}', '\U{37E}', '\U{2013}', '\U{2014}',
    '\U{2018}', '\U{2019}', '\U{201C}', '\U{201D}', '\U{2212}'
  }

  /** The characters any replacement of the table introduces. */
  const ReplacementChars: set<char> := {'-', 'x', ';', '\'', '\\', '"'}

  /** Applies the substitutions of `table` to `s`, one after the other, each
      to every occurrence in the text the previous ones left. */
  function ApplyTable(table: seq<Substitution>, s: string): string {
    if table == [] then s
    else
      var last := table[|table| - 1];
      Text.ReplaceAll(ApplyTable(table[..|table| - 1], s), last.pattern, last.replacement)
  }

  lemma {:induction false} ApplyTableAppend(t1: seq<Substitution>, t2: seq<Substitution>, s: string)
    ensures ApplyTable(t1 + t2, s) == ApplyTable(t2, ApplyTable(t1, s))
    decreases |t2|
  {
    if t2 == [] {
      assert t1 + t2 == t1;
    } else {
      assert (t1 + t2)[..|t1 + t2| - 1] == t1 + t2[..|t2| - 1];
      ApplyTableAppend(t1, t2[..|t2| - 1], s);
    }
  }

  /** A table none of whose patterns can occur in `s` leaves `s` unchanged. */
  lemma {:induction false} ApplyTableMissing(table: seq<Substitution>, s: string)
    requires forall j :: 0 <= j < |table| ==> Text.Misses(table[j].pattern, s)
    ensures ApplyTable(table, s) == s
    decreases |table|
  {
    if table != [] {
      var last := table[|table| - 1];
      ApplyTableMissing(table[..|table| - 1], s);
      Text.ReplaceAllMissing(s, last.pattern, last.replacement);
    }
  }

  /** A character that no replacement introduces, and that some entry of the
      table replaces on its own, is gone after the table. */
  lemma {:induction false} ApplyTableRemoves(table: seq<Substitution>, s: string, c: char, k: nat)
    requires k < |table| && table[k].pattern == [c]
    requires forall j :: 0 <= j < |table| ==> c !in table[j].replacement
    ensures c !in ApplyTable(table, s)
    decreases |table|
  {
    var init, last := table[..|table| - 1], table[|table| - 1];
    if k < |table| - 1 {
      ApplyTableRemoves(init, s, c, k);
    }
  }

  /** A table whose patterns touch neither quotes nor backslashes, and whose
      replacements are themselves escaped, keeps every quote escaped. */
  lemma {:induction false} ApplyTableKeepsQuotesEscaped(table: seq<Substitution>, s: string)
    requires forall j :: 0 <= j < |table| ==> QuoteSafe(table[j])
    requires Text.QuotesEscaped(s)
    ensures Text.QuotesEscaped(ApplyTable(table, s))
    decreases |table|
  {
    if table != [] {
      var last := table[|table| - 1];
      ApplyTableKeepsQuotesEscaped(table[..|table| - 1], s);
      Text.ReplaceAllKeepsQuotesEscaped(ApplyTable(table[..|table| - 1], s), last.pattern, last.replacement);
    }
  }

  predicate QuoteSafe(sub: Substitution) {
    && |sub.pattern| > 0
    && '"' !in sub.pattern && '\\' !in sub.pattern
    && Text.QuotesEscaped(sub.replacement)
  }

  /** Each pattern holds a replaced character, at its start or at its end. */
  predicate Keyed(pattern: string) {
    |pattern| > 0 && (pattern[0] in Replaced || pattern[|pattern| - 1] in Replaced)
  }

  lemma TablePatternsKeyed()
    ensures forall j :: 0 <= j < |Substitutions| ==> Keyed(Substitutions[j].pattern)
  {
  }

  /** No replacement introduces a replaced character. */
  lemma TableReplacementsPlain()
    ensures forall j, c :: 0 <= j < |Substitutions| && c in Substitutions[j].replacement ==> c in ReplacementChars
    ensures ReplacementChars !! Replaced
  {
  }

  /** No pattern touches a quote or a backslash, every replacement has its
      quotes escaped, and the curly double quotes become an escaped `\"`. */
  lemma TableQuoteSafe()
    ensures forall j :: 0 <= j < |Substitutions| ==> QuoteSafe(Substitutions[j])
    ensures Substitutions[13] == Substitution("\U{201C}", "\\\"")
    ensures Substitutions[14] == Substitution("\U{201D}", "\\\"")
  {
  }

  /** A table whose patterns are all keyed leaves text that holds no replaced
      character unchanged. */
  lemma KeyedTableIdentity(table: seq<Substitution>, s: string)
    requires forall j :: 0 <= j < |table| ==> Keyed(table[j].pattern)
    requires forall c :: c in s ==> c !in Replaced
    ensures ApplyTable(table, s) == s
  {
    forall j | 0 <= j < |table|
      ensures Text.Misses(table[j].pattern, s)
    {
      var pat := table[j].pattern;
      if pat[0] in Replaced {
        assert pat[0] !in s;
      } else {
        assert pat[|pat| - 1] !in s;
      }
    }
    ApplyTableMissing(table, s);
  }

  /** Every replaced character lies at or above the soft hyphen, so text below
      it holds none of them. */
  lemma BelowSoftHyphen(s: string)
    requires forall i :: 0 <= i < |s| ==> s[i] < '\U{AD}'
    ensures forall c :: c in s ==> c !in Replaced
  {
  }

  /** The table leaves text that holds no replaced character unchanged. */
  lemma SubstituteIdentity(s: string)
    requires forall c :: c in s ==> c !in Replaced
    ensures ApplyTable(Substitutions, s) == s
  {
    TablePatternsKeyed();
    KeyedTableIdentity(Substitutions, s);
  }

  /** After the table, none of the replaced characters is left. */
  lemma SubstituteRemovesAll(s: string)
    ensures forall c :: c in Replaced ==> c !in ApplyTable(Substitutions, s)
  {
    TableReplacementsPlain();
    forall c | c in Replaced
      ensures c !in ApplyTable(Substitutions, s)
    {
      assert c !in ReplacementChars;
      var k :=
        if c == '\U{AD}' then 2 else if c == '\U{D7}' then 3 else if c == '\U{37E}' then 4
        else if c == '\U{2013}' then 7 else if c == '\U{2014}' then 10
        else if c == '\U{2018}' then 11 else if c == '\U{2019}' then 12
        else if c == '\U{201C}' then 13 else if c == '\U{201D}' then 14 else 17;
      ApplyTableRemoves(Substitutions, s, c, k);
    }
  }

  /** None of the first five entries, which concern the soft hyphen, the
      multiplication sign and the Greek question mark, applies to a text
      with an en dash. */
  lemma LeadingEntriesMiss()
    ensures ApplyTable(Substitutions[..5], "a \U{2013} b") == "a \U{2013} b"
  {
    var s, before := "a \U{2013} b", Substitutions[..5];
    forall j | 0 <= j < |before|
      ensures Text.Misses(before[j].pattern, s)
    {
      var pat := before[j].pattern;
      var i := if pat[0] == ' ' then 1 else 0;
      assert pat[i] !in s;
    }
    ApplyTableMissing(before, s);
  }

  /** The space-prefixed en dash entry takes the space before the dash. */
  lemma SpacedDashStep()
    ensures Text.ReplaceAll("a \U{2013} b", " \U{2013}", "-") == "a- b"
  {
    var s, pat := "a \U{2013} b", " \U{2013}";
    assert s[2..] == "\U{2013} b" && s[1..] == " \U{2013} b";
    assert pat[1] !in " b";
    Text.ReplaceAllMissing(" b", pat, "-");
    assert Text.ReplaceAll(s[3..], pat, "-") == " b";
    assert Text.ReplaceAll(s[1..], pat, "-") == "- b";
  }

  /** The entries after the space-prefixed en dash leave a text of plain
      characters unchanged. */
  lemma TrailingEntriesKeep()
    ensures ApplyTable(Substitutions[6..], "a- b") == "a- b"
  {
    var after := Substitutions[6..];
    TablePatternsKeyed();
    forall j | 0 <= j < |after|
      ensures Keyed(after[j].pattern)
    {
      assert after[j] == Substitutions[j + 6];
    }
    BelowSoftHyphen("a- b");
    KeyedTableIdentity(after, "a- b");
  }

  /** The table runs in insertion order: the space-prefixed form of a dash is
      tried before the space-suffixed and the bare forms, so the space before
      the dash is consumed and the one after it kept. */
  lemma SubstituteOrder()
    ensures ApplyTable(Substitutions, "a \U{2013} b") == "a- b"
  {
    var s := "a \U{2013} b";
    var before, at, after := Substitutions[..5], Substitutions[5], Substitutions[6..];
    assert Substitutions == before + [at] + after;
    LeadingEntriesMiss();
    assert ApplyTable([at], s) == "a- b" by {
      assert [at][..0] == [];
      SpacedDashStep();
    }
    ApplyTableAppend(before, [at], s);
    ApplyTableAppend(before + [at], after, s);
    TrailingEntriesKeep();
  }

  /** The loop over `re_replacements`: each substitution in turn, each
      replacing every occurrence in the text the previous ones left. */
  method ApplySubstitutions(s: string) returns (r: string)
    ensures r == ApplyTable(Substitutions, s)
    ensures forall c :: c in Replaced ==> c !in r
  {
    r := s;
    for k := 0 to |Substitutions|
      invariant r == ApplyTable(Substitutions[..k], s)
    {
      r := Text.ReplaceAll(r, Substitutions[k].pattern, Substitutions[k].replacement);
      assert Substitutions[..k + 1][..k] == Substitutions[..k];
    }
    assert Substitutions[..|Substitutions|] == Substitutions;
    SubstituteRemovesAll(s);
  }

  // ---------------------------------------------------------------------
  // Normalising one row

  /** `s.replace('"', '\\"')`. */
  function EscapeQuotes(s: string): string {
    Text.ReplaceAll(s, "\"", "\\\"")
  }

  /** `.replace('--', '-')` and then `.replace(' -', '-')`: one left-to-right pass
      each, which never lengthens the text. */
  function Collapse(s: string): (r: string)
    ensures |r| <= |s|
  {
    Text.ReplaceAll(Text.ReplaceAll(s, "--", "-"), " -", "-")
  }

  /** Each collapsing pass is a single pass: three hyphens become two. */
  lemma CollapseIsSinglePass()
    ensures Collapse("---") == "--"
  {
    assert Text.ReplaceAll("-", "--", "-") == "-";
    assert Text.ReplaceAll("---", "--", "-") == "--";
    assert Text.ReplaceAll("--", " -", "-") == "--" by {
      assert Text.ReplaceAll("-", " -", "-") == "-";
    }
  }

  /** The detail text after its quotes are escaped, the table is applied and
      the hyphens are collapsed. */
  function NormalisedDetail(detail: string): string {
    Collapse(ApplyTable(Substitutions, EscapeQuotes(detail)))
  }

  /** The normalised detail holds no replaced character, and every double
      quote in it is escaped by a backslash. */
  lemma NormalisedDetailClean(detail: string)
    ensures forall c :: c in Replaced ==> c !in NormalisedDetail(detail)
    ensures Text.QuotesEscaped(NormalisedDetail(detail))
  {
    var escaped := EscapeQuotes(detail);
    var substituted := ApplyTable(Substitutions, escaped);
    SubstituteRemovesAll(escaped);
    Text.EscapingQuotesEscapes(detail);
    TableQuoteSafe();
    ApplyTableKeepsQuotesEscaped(Substitutions, escaped);
    var once := Text.ReplaceAll(substituted, "--", "-");
    Text.ReplaceAllKeepsQuotesEscaped(substituted, "--", "-");
    Text.ReplaceAllKeepsQuotesEscaped(once, " -", "-");
  }

  /** Normalises the detail text of one row, step by step. */
  method NormaliseDetail(detail: string) returns (d: string)
    ensures d == NormalisedDetail(detail)
    ensures forall c :: c in Replaced ==> c !in d
    ensures Text.QuotesEscaped(d)
  {
    d := Text.ReplaceAll(detail, "\"", "\\\"");
    d := ApplySubstitutions(d);
    d := Text.ReplaceAll(d, "--", "-");
    d := Text.ReplaceAll(d, " -", "-");
    NormalisedDetailClean(detail);
  }

  /** ` | ` and the aspect, when the aspect is present. */
  function OptionalAspect(aspect: Option<string>): string {
    if aspect.Some? then " | " + aspect.value else ""
  }

  /** The label before substitution: the table name and the first aspect,
      then each further aspect that is present, in order, all separated by ` | `. */
  function InfoLabel(table1: string, aspect1: string, aspect2: Option<string>,
                     aspect3: Option<string>, aspect4: Option<string>): string
  {
    table1 + " | " + aspect1 + OptionalAspect(aspect2) + OptionalAspect(aspect3) + OptionalAspect(aspect4)
  }

  /** `info_list.append(aspect)` when the aspect is present. */
  method AppendAspect(infoList: seq<string>, ghost joined: string, aspect: Option<string>)
    returns (infoList': seq<string>, ghost joined': string)
    requires infoList != [] && Text.Join(infoList, " | ") == joined
    ensures infoList' != [] && Text.Join(infoList', " | ") == joined'
    ensures joined' == joined + OptionalAspect(aspect)
  {
    infoList', joined' := infoList, joined + OptionalAspect(aspect);
    if aspect.Some? {
      Text.JoinSnoc(infoList, aspect.value, " | ");
      infoList' := infoList + [aspect.value];
      assert joined + " | " + aspect.value == joined + (" | " + aspect.value);
    } else {
      assert joined + "" == joined;
    }
  }

  /** Builds `info_list`, joins it with ` | ` and applies the substitution table
      (but neither the quote escaping nor the hyphen collapsing). */
  method BuildInfo(table1: string, aspect1: string, aspect2: Option<string>,
                   aspect3: Option<string>, aspect4: Option<string>) returns (info: string)
    ensures info == ApplyTable(Substitutions, InfoLabel(table1, aspect1, aspect2, aspect3, aspect4))
    ensures forall c :: c in Replaced ==> c !in info
  {
    var infoList := [table1, aspect1];
    ghost var joined := table1 + " | " + aspect1;
    assert Text.Join(infoList, " | ") == joined by {
      assert infoList[..1] == [table1];
    }
    infoList, joined := AppendAspect(infoList, joined, aspect2);
    infoList, joined := AppendAspect(infoList, joined, aspect3);
    infoList, joined := AppendAspect(infoList, joined, aspect4);
    info := Text.Join(infoList, " | ");
    info := ApplySubstitutions(info);
  }

  /** The joined keeps straight quotes unescaped and double hyphens uncollapsed,
      unlike the detail text. */
  lemma InfoIsNotEscaped()
    ensures ApplyTable(Substitutions, InfoLabel("Design", "say \"a -- b\"", None, None, None))
      == "Design | say \"a -- b\""
  {
    var joined := InfoLabel("Design", "say \"a -- b\"", None, None, None);
    assert joined == "Design | say \"a -- b\"";
    BelowSoftHyphen(joined);
    SubstituteIdentity(joined);
  }

  // ---------------------------------------------------------------------
  // Converting the rows

  /** One row of the appendix table. Every cell but the reference may be
      missing (a spreadsheet blank). */
  datatype Row = Row(reference: string, table1: Option<string>, aspect1: Option<string>,
                     aspect2: Option<string>, aspect3: Option<string>, aspect4: Option<string>,
                     detail: Option<string>)

  /** One catalog entry: its index, its label and its quoted detail text. */
  datatype CatalogEntry = CatalogEntry(index: string, info: string, text: string)

  /** Why the conversion stops: the row (counted from 0) whose detail cell, or
      whose table or first aspect cell, is blank. */
  datatype ConversionError = MissingDetail(row: nat) | MissingLabel(row: nat)

  /** The cells every row must hold for the conversion to go through it. */
  predicate Complete(row: Row) {
    row.detail.Some? && row.table1.Some? && row.aspect1.Some?
  }

  /** The entry a complete row becomes. */
  function EntryOf(row: Row): CatalogEntry
    requires Complete(row)
  {
    CatalogEntry(
      row.reference,
      ApplyTable(Substitutions, InfoLabel(row.table1.value, row.aspect1.value, row.aspect2, row.aspect3, row.aspect4)),
      "\"" + NormalisedDetail(row.detail.value) + "\"")
  }

  /** The error an incomplete row raises: its detail is normalised before its
      label is built, so a blank detail is reported first. */
  function ErrorOf(row: Row, k: nat): ConversionError
    requires !Complete(row)
  {
    if row.detail.None? then MissingDetail(k) else MissingLabel(k)
  }

  /** Every entry is a double-quoted text whose inner quotes are escaped, and
      neither its text nor its label holds a replaced character. */
  lemma EntryProperties(row: Row)
    requires Complete(row)
    ensures var e := EntryOf(row);
      && |e.text| >= 2 && e.text[0] == '"' && e.text[|e.text| - 1] == '"'
      && Text.QuotesEscaped(e.text[1..|e.text| - 1])
      && (forall c :: c in Replaced ==> c !in e.text && c !in e.info)
  {
    var d := NormalisedDetail(row.detail.value);
    var e := EntryOf(row);
    NormalisedDetailClean(row.detail.value);
    assert e.text[1..|e.text| - 1] == d;
    SubstituteRemovesAll(InfoLabel(row.table1.value, row.aspect1.value, row.aspect2, row.aspect3, row.aspect4));
  }

  /** The loop over the rows: each row in order, stopping at the first row
      with a blank detail, table or first aspect. */
  method ConvertRows(rows: seq<Row>) returns (r: Result<seq<CatalogEntry>, ConversionError>)
    ensures r.Success? <==> forall k :: 0 <= k < |rows| ==> Complete(rows[k])
    ensures r.Success? ==> |r.value| == |rows|
    ensures r.Success? ==> forall k :: 0 <= k < |rows| ==> Complete(rows[k]) && r.value[k] == EntryOf(rows[k])
    ensures r.Failure? ==> exists k :: 0 <= k < |rows| && !Complete(rows[k]) && r.error == ErrorOf(rows[k], k)
                                  && forall j :: 0 <= j < k ==> Complete(rows[j])
  {
    var entries: seq<CatalogEntry> := [];
    for k := 0 to |rows|
      invariant |entries| == k
      invariant forall j :: 0 <= j < k ==> Complete(rows[j]) && entries[j] == EntryOf(rows[j])
    {
      var row := rows[k];
      if row.detail.None? {
        return Failure(MissingDetail(k));
      }
      var text := NormaliseDetail(row.detail.value);
      if row.table1.None? || row.aspect1.None? {
        return Failure(MissingLabel(k));
      }
      var info := BuildInfo(row.table1.value, row.aspect1.value, row.aspect2, row.aspect3, row.aspect4);
      entries := entries + [CatalogEntry(row.reference, info, "\"" + text + "\"")];
    }
    return Success(entries);
  }

  // ---------------------------------------------------------------------
  // Writing the catalog

  /** The first write: the heading of the catalog. */
  const Heading := "guidelines:\n"

  const IndexPrefix := "  "
  const IndexSuffix := ":\n"
  const InfoPrefix := "      info: "
  const TextPrefix := "      text: "
  const LineEnd := "\n"

  /** The three writes one entry is written with. */
  function EntryLines(e: CatalogEntry): seq<string> {
    [IndexPrefix + e.index + IndexSuffix, InfoPrefix + e.info + LineEnd, TextPrefix + e.text + LineEnd]
  }

  /** The writes of all entries, in order. */
  function EntriesLines(entries: seq<CatalogEntry>): (lines: seq<string>)
    ensures |lines| == 3 * |entries|
  {
    if entries == [] then []
    else EntriesLines(entries[..|entries| - 1]) + EntryLines(entries[|entries| - 1])
  }

  /** The middle of `line` between `prefix` and `suffix`, when it has both. */
  function Strip(line: string, prefix: string, suffix: string): (m: Option<string>)
    ensures m.Some? ==> line == prefix + m.value + suffix
  {
    if |line| >= |prefix| + |suffix| && line[..|prefix|] == prefix && line[|line| - |suffix|..] == suffix
    then
      assert line == line[..|prefix|] + line[|prefix|..|line| - |suffix|] + line[|line| - |suffix|..];
      Some(line[|prefix|..|line| - |suffix|])
    else None
  }

  lemma StripConcat(prefix: string, middle: string, suffix: string)
    ensures Strip(prefix + middle + suffix, prefix, suffix) == Some(middle)
  {
    var line := prefix + middle + suffix;
    assert line[..|prefix|] == prefix;
    assert line[|line| - |suffix|..] == suffix;
    assert line[|prefix|..|line| - |suffix|] == middle;
  }

  /** Reads one entry back from its three writes. */
  function ReadEntry(header: string, info: string, text: string): Option<CatalogEntry> {
    var index, i, t := Strip(header, IndexPrefix, IndexSuffix), Strip(info, InfoPrefix, LineEnd),
                       Strip(text, TextPrefix, LineEnd);
    if index.Some? && i.Some? && t.Some? then Some(CatalogEntry(index.value, i.value, t.value)) else None
  }

  /** Reads the entries back from their writes, three at a time. */
  function ReadEntries(lines: seq<string>): Option<seq<CatalogEntry>> {
    if lines == [] then Some([])
    else if |lines| < 3 then None
    else
      var n := |lines|;
      var init, last := ReadEntries(lines[..n - 3]), ReadEntry(lines[n - 3], lines[n - 2], lines[n - 1]);
      if init.Some? && last.Some? then Some(init.value + [last.value]) else None
  }

  /** Reads the entries back from the whole sequence of writes. */
  function ReadCatalog(lines: seq<string>): Option<seq<CatalogEntry>> {
    if lines != [] && lines[0] == Heading then ReadEntries(lines[1..]) else None
  }

  /** Reading one entry back from its writes gives the entry. */
  lemma ReadEntryLines(e: CatalogEntry)
    ensures var lines := EntryLines(e); ReadEntry(lines[0], lines[1], lines[2]) == Some(e)
  {
    StripConcat(IndexPrefix, e.index, IndexSuffix);
    StripConcat(InfoPrefix, e.info, LineEnd);
    StripConcat(TextPrefix, e.text, LineEnd);
  }

  /** Reading back one more entry's writes appends that entry. */
  lemma ReadEntriesStep(prefix: seq<string>, e: CatalogEntry)
    ensures ReadEntries(prefix + EntryLines(e))
      == if ReadEntries(prefix).Some? then Some(ReadEntries(prefix).value + [e]) else None
  {
    var lines, last := prefix + EntryLines(e), EntryLines(e);
    var n := |lines|;
    assert lines[..n - 3] == prefix;
    assert lines[n - 3] == last[0] && lines[n - 2] == last[1] && lines[n - 1] == last[2];
    ReadEntryLines(e);
  }

  /** Reading the writes of the entries back gives the entries. */
  lemma {:induction false} ReadEntriesLines(entries: seq<CatalogEntry>)
    ensures ReadEntries(EntriesLines(entries)) == Some(entries)
  {
    if entries != [] {
      var init, e := entries[..|entries| - 1], entries[|entries| - 1];
      ReadEntriesLines(init);
      ReadEntriesStep(EntriesLines(init), e);
      assert init + [e] == entries;
    }
  }

  /** Writes `3k` to `3k + 2` of the entries' writes are those of entry `k`. */
  lemma {:induction false} EntriesLinesAt(entries: seq<CatalogEntry>, k: nat)
    requires k < |entries|
    ensures EntriesLines(entries)[3 * k..3 * k + 3] == EntryLines(entries[k])
    decreases |entries|
  {
    var init := entries[..|entries| - 1];
    if k < |init| {
      EntriesLinesAt(init, k);
      assert EntriesLines(entries)[..3 * |init|] == EntriesLines(init);
    }
  }

  lemma SliceAfterHead<T>(head: T, s: seq<T>, i: nat, j: nat)
    requires i <= j <= |s|
    ensures ([head] + s)[i + 1..j + 1] == s[i..j]
  {
  }

  /** The catalog's writes read back give the entries. */
  lemma CatalogReadsBack(entries: seq<CatalogEntry>)
    ensures ReadCatalog([Heading] + EntriesLines(entries)) == Some(entries)
  {
    var lines := [Heading] + EntriesLines(entries);
    assert lines[1..] == EntriesLines(entries);
    ReadEntriesLines(entries);
  }

  /** Writes `1 + 3k` to `3 + 3k` of the catalog are those of entry `k`. */
  lemma CatalogLinesAt(entries: seq<CatalogEntry>, k: nat)
    requires k < |entries|
    ensures ([Heading] + EntriesLines(entries))[1 + 3 * k..4 + 3 * k] == EntryLines(entries[k])
  {
    EntriesLinesAt(entries, k);
    SliceAfterHead(Heading, EntriesLines(entries), 3 * k, 3 * k + 3);
  }

  /** A write that ends in a newline and holds no other: one line of the file. */
  predicate SingleLine(w: string) {
    |w| > 0 && w[|w| - 1] == '\n' && '\n' !in w[..|w| - 1]
  }

  lemma LineOfParts(prefix: string, middle: string, suffix: string)
    requires '\n' !in prefix && '\n' !in middle && SingleLine(suffix)
    ensures SingleLine(prefix + middle + suffix)
  {
    var w := prefix + middle + suffix;
    assert w[..|w| - 1] == prefix + middle + suffix[..|suffix| - 1];
  }

  /** When no index, label or text holds a newline, every write of the catalog
      is exactly one line of the file. */
  lemma {:induction false} WritesAreLines(entries: seq<CatalogEntry>)
    requires forall k :: 0 <= k < |entries| ==>
      '\n' !in entries[k].index && '\n' !in entries[k].info && '\n' !in entries[k].text
    ensures forall w :: w in [Heading] + EntriesLines(entries) ==> SingleLine(w)
    decreases |entries|
  {
    assert SingleLine(Heading) by {
      assert Heading[..|Heading| - 1] == "guidelines:";
    }
    if entries != [] {
      var init, e := entries[..|entries| - 1], entries[|entries| - 1];
      WritesAreLines(init);
      assert SingleLine(IndexSuffix) by {
        assert IndexSuffix[..1] == ":";
      }
      assert SingleLine(LineEnd) by {
        assert LineEnd[..0] == [];
      }
      LineOfParts(IndexPrefix, e.index, IndexSuffix);
      LineOfParts(InfoPrefix, e.info, LineEnd);
      LineOfParts(TextPrefix, e.text, LineEnd);
      assert [Heading] + EntriesLines(entries) == ([Heading] + EntriesLines(init)) + EntryLines(e);
    }
  }

  /** Writes the catalog: the heading, then three writes per entry. */
  method WriteCatalog(entries: seq<CatalogEntry>) returns (lines: seq<string>)
    ensures lines == [Heading] + EntriesLines(entries)
    ensures |lines| == 1 + 3 * |entries|
    ensures forall k :: 0 <= k < |entries| ==> lines[1 + 3 * k..4 + 3 * k] == EntryLines(entries[k])
    ensures ReadCatalog(lines) == Some(entries)
  {
    lines := [Heading];
    for k := 0 to |entries|
      invariant lines == [Heading] + EntriesLines(entries[..k])
    {
      var e := entries[k];
      lines := lines + [IndexPrefix + e.index + IndexSuffix];
      lines := lines + [InfoPrefix + e.info + LineEnd];
      lines := lines + [TextPrefix + e.text + LineEnd];
      assert entries[..k + 1][..k] == entries[..k];
    }
    assert entries[..|entries|] == entries;
    CatalogReadsBack(entries);
    forall k | 0 <= k < |entries|
      ensures lines[1 + 3 * k..4 + 3 * k] == EntryLines(entries[k])
    {
      CatalogLinesAt(entries, k);
    }
  }

  /** The whole conversion: the rows are converted and, when every row is
      complete, written out; otherwise nothing is written. */
  method ConvertCatalog(rows: seq<Row>) returns (r: Result<seq<string>, ConversionError>)
    ensures r.Success? <==> forall k :: 0 <= k < |rows| ==> Complete(rows[k])
    ensures r.Success? ==> ReadCatalog(r.value).Some? && |ReadCatalog(r.value).value| == |rows|
    ensures r.Success? ==> forall k :: 0 <= k < |rows| ==>
      Complete(rows[k]) && ReadCatalog(r.value).value[k] == EntryOf(rows[k])
    ensures r.Success? ==>
      r.value == [Heading] + EntriesLines(seq(|rows|, k requires 0 <= k < |rows| && Complete(rows[k]) => EntryOf(rows[k])))
    ensures r.Failure? ==> exists k :: 0 <= k < |rows| && !Complete(rows[k]) && r.error == ErrorOf(rows[k], k)
                                  && forall j :: 0 <= j < k ==> Complete(rows[j])
  {
    var converted := ConvertRows(rows);
    if converted.Failure? {
      return Failure(converted.error);
    }
    var lines := WriteCatalog(converted.value);
    assert converted.value == seq(|rows|, k requires 0 <= k < |rows| && Complete(rows[k]) => EntryOf(rows[k]));
    return Success(lines);
  }
}
