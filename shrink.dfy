/**
 * The shrink table: maps a creature's body id to the item id of its
 * shrunken figurine, loaded once from a tab-separated configuration file.
 * The file is given as its lines, or as nothing when it does not exist; the
 * integer parser is a partial function whose failure stands for the parse
 * exception the loader swallows.
 */
module Shrink {
  import opened Wrappers

  /** The item shown when no entry is found: the yellow virtue stone. */
  const DefaultItemID: int := 0x1870

  /** The number of body ids a loaded table covers. */
  const TableSize: nat := 1000

  type Text = seq<char>

  // ---------------------------------------------------------------------
  // Lookup

  /**
   * The entry for `body`, or `defaultValue` when the body is out of range
   * or its entry is zero, which marks it absent.
   */
  function Lookup(table: seq<int>, body: int, defaultValue: int): (r: int)
    ensures 0 <= body < |table| && table[body] != 0 ==> r == table[body]
    ensures !(0 <= body < |table|) || table[body] == 0 ==> r == defaultValue
    ensures r == 0 ==> defaultValue == 0
  {
    var val := if 0 <= body < |table| then table[body] else 0;
    if val == 0 then defaultValue else val
  }

  /** The one-argument lookup: never zero, either an entry or the virtue stone. */
  function LookupOrStone(table: seq<int>, body: int): (r: int)
    ensures r != 0
    ensures r == DefaultItemID || (0 <= body < |table| && r == table[body])
  {
    Lookup(table, body, DefaultItemID)
  }

  // ---------------------------------------------------------------------
  // Line handling

  /** The characters the runtime's trim removes. */
  predicate IsWhiteSpace(c: char)
  {
    ('\U{9}' <= c <= '\U{D}') || c == ' ' || c == '\U{85}' || c == '\U{A0}' || c == '\U{1680}'
    || ('\U{2000}' <= c <= '\U{200A}') || c == '\U{2028}' || c == '\U{2029}'
    || c == '\U{202F}' || c == '\U{205F}' || c == '\U{3000}'
  }

  /** Drops leading white space. */
  function TrimStart(s: Text): (r: Text)
    ensures |r| <= |s| && r == s[|s| - |r|..]
    ensures |r| == 0 || !IsWhiteSpace(r[0])
    ensures forall i :: 0 <= i < |s| - |r| ==> IsWhiteSpace(s[i])
  {
    if |s| > 0 && IsWhiteSpace(s[0]) then TrimStart(s[1..]) else s
  }

  /** Drops trailing white space. */
  function TrimEnd(s: Text): (r: Text)
    ensures |r| <= |s| && r == s[..|r|]
    ensures |r| == 0 || !IsWhiteSpace(r[|r| - 1])
    ensures forall i :: |r| <= i < |s| ==> IsWhiteSpace(s[i])
  {
    if |s| > 0 && IsWhiteSpace(s[|s| - 1]) then TrimEnd(s[..|s| - 1]) else s
  }

  /** Drops white space at both ends. */
  function Trim(s: Text): (r: Text)
    ensures |r| == 0 || (!IsWhiteSpace(r[0]) && !IsWhiteSpace(r[|r| - 1]))
  {
    TrimEnd(TrimStart(s))
  }

  /** Trimming a trimmed line changes nothing. */
  lemma TrimIdempotent(s: Text)
    ensures Trim(Trim(s)) == Trim(s)
  {
    var r := Trim(s);
    if |r| > 0 {
      assert TrimStart(r) == r;
      assert TrimEnd(r) == r;
    }
  }

  /** The fields of `s` between separators; empty fields are kept. */
  function Split(s: Text, sep: char): (r: seq<Text>)
    ensures |r| >= 1
    ensures forall i :: 0 <= i < |r| ==> sep !in r[i]
  {
    if |s| == 0 then [[]]
    else
      var rest := Split(s[1..], sep);
      if s[0] == sep then [[]] + rest else [[s[0]] + rest[0]] + rest[1..]
  }

  /** The fields joined back with the separator between them. */
  function Join(fields: seq<Text>, sep: char): Text
    requires |fields| >= 1
  {
    if |fields| == 1 then fields[0] else fields[0] + [sep] + Join(fields[1..], sep)
  }

  /** Splitting loses nothing: joining the fields gives the text back. */
  lemma {:induction false} JoinSplit(s: Text, sep: char)
    ensures Join(Split(s, sep), sep) == s
  {
    if |s| > 0 {
      var rest := Split(s[1..], sep);
      JoinSplit(s[1..], sep);
      if s[0] != sep {
        if |rest| > 1 {
          assert rest == [rest[0]] + rest[1..];
          assert Join(rest, sep) == rest[0] + [sep] + Join(rest[1..], sep);
          assert ([[s[0]] + rest[0]] + rest[1..])[1..] == rest[1..];
        }
      } else {
        assert ([[]] + rest)[1..] == rest;
      }
    }
  }

  /** There are at least two fields exactly when the separator occurs. */
  lemma {:induction false} SplitHasTwoFields(s: Text, sep: char)
    ensures |Split(s, sep)| >= 2 <==> sep in s
  {
    if |s| > 0 {
      SplitHasTwoFields(s[1..], sep);
      assert sep in s <==> s[0] == sep || sep in s[1..];
    }
  }

  /**
   * What one configuration line sets, if anything: trimmed, an empty or a
   * `#` comment line sets nothing; otherwise its first two tab-separated
   * fields, when there are two and both parse, are the body and the item.
   */
  function ParseLine(line: Text, parse: Text -> Option<int>): (r: Option<(int, int)>)
    ensures r.Some? ==> Trim(line) != [] && Trim(line)[0] != '#' && '\t' in Trim(line)
  {
    var text := Trim(line);
    if |text| == 0 || text[0] == '#' then None
    else
      var split := Split(text, '\t');
      SplitHasTwoFields(text, '\t');
      if |split| < 2 then None
      else match (parse(split[0]), parse(split[1]))
        case (Some(body), Some(item)) => Some((body, item))
        case _ => None
  }

  // ---------------------------------------------------------------------
  // Loading

  /** One line applied to the table: an in-range body takes the item. */
  function Apply(table: seq<int>, entry: Option<(int, int)>): (r: seq<int>)
    ensures |r| == |table|
  {
    match entry
    case Some((body, item)) => if 0 <= body < |table| then table[body := item] else table
    case None => table
  }

  /** What each line sets, line by line. */
  function Parsed(lines: seq<Text>, parse: Text -> Option<int>): (r: seq<Option<(int, int)>>)
    ensures |r| == |lines|
    ensures forall j :: 0 <= j < |lines| ==> r[j] == ParseLine(lines[j], parse)
  {
    seq(|lines|, j requires 0 <= j < |lines| => ParseLine(lines[j], parse))
  }

  /** A zeroed table with `entries` applied in order. */
  function Replay(entries: seq<Option<(int, int)>>): (r: seq<int>)
    ensures |r| == TableSize
  {
    if |entries| == 0 then seq(TableSize, _ => 0)
    else Apply(Replay(entries[..|entries| - 1]), entries[|entries| - 1])
  }

  /** The table after reading `lines` in order into a zeroed table. */
  function LoadedTable(lines: seq<Text>, parse: Text -> Option<int>): (r: seq<int>)
    ensures |r| == TableSize
  {
    Replay(Parsed(lines, parse))
  }

  /** The table for a file that may not exist: a missing file loads as empty. */
  function TableOf(file: Option<seq<Text>>, parse: Text -> Option<int>): (r: seq<int>)
    ensures file.None? ==> r == []
    ensures file.Some? ==> |r| == TableSize
  {
    match file
    case None => []
    case Some(lines) => LoadedTable(lines, parse)
  }

  /**
   * Loads the table: no file gives an empty table; otherwise a zeroed
   * 1000-entry table is filled line by line, each usable line setting its
   * body's entry in place.
   */
  method Load(file: Option<seq<Text>>, parse: Text -> Option<int>) returns (table: array<int>)
    ensures fresh(table)
    ensures table[..] == TableOf(file, parse)
  {
    if file.None? {
      table := new int[0];
      return;
    }
    var lines := file.value;
    table := new int[TableSize](_ => 0);
    var i := 0;
    while i < |lines|
      invariant 0 <= i <= |lines|
      invariant table.Length == TableSize
      invariant table[..] == LoadedTable(lines[..i], parse)
    {
      LoadStep(lines, parse, i);
      LoadLine(table, lines[i], parse);
      i := i + 1;
    }
    assert lines[..i] == lines;
  }

  /**
   * One pass of the loading loop: a blank or comment line is skipped;
   * otherwise, when the tab-separated body and item both parse and the body
   * is in range, the entry is set.
   */
  method LoadLine(table: array<int>, rawLine: Text, parse: Text -> Option<int>)
    modifies table
    ensures table[..] == Apply(old(table[..]), ParseLine(rawLine, parse))
  {
    var line := Trim(rawLine);
    if |line| == 0 || line[0] == '#' {
      return;
    }
    var split := Split(line, '\t');
    if |split| >= 2 {
      var body := parse(split[0]);
      var item := parse(split[1]);
      if body.Some? && item.Some? && 0 <= body.value < table.Length {
        table[body.value] := item.value;
      }
    }
  }

  /** Replaying one more entry applies it to the table so far. */
  lemma ReplaySnoc(entries: seq<Option<(int, int)>>, e: Option<(int, int)>)
    ensures Replay(entries + [e]) == Apply(Replay(entries), e)
  {
    assert (entries + [e])[..|entries|] == entries;
  }

  /** Reading one more line applies what it sets to the table so far. */
  lemma LoadStep(lines: seq<Text>, parse: Text -> Option<int>, i: nat)
    requires i < |lines|
    ensures LoadedTable(lines[..i + 1], parse) == Apply(LoadedTable(lines[..i], parse), ParseLine(lines[i], parse))
  {
    assert Parsed(lines[..i + 1], parse) == Parsed(lines[..i], parse) + [ParseLine(lines[i], parse)];
    ReplaySnoc(Parsed(lines[..i], parse), ParseLine(lines[i], parse));
  }

  // ---------------------------------------------------------------------
  // Properties of a loaded table

  /** Whether an entry sets the table entry of `body`. */
  predicate SetsBody(e: Option<(int, int)>, body: int)
  {
    e.Some? && e.value.0 == body
  }

  /** Whether a line sets the entry of `body`. */
  predicate Sets(line: Text, parse: Text -> Option<int>, body: int)
  {
    SetsBody(ParseLine(line, parse), body)
  }

  /** An entry no replayed entry sets stays zero. */
  lemma {:induction false} ReplayUnset(entries: seq<Option<(int, int)>>, body: nat)
    requires body < TableSize
    requires forall j :: 0 <= j < |entries| ==> !SetsBody(entries[j], body)
    ensures Replay(entries)[body] == 0
  {
    if |entries| > 0 {
      var init := entries[..|entries| - 1];
      assert forall j :: 0 <= j < |init| ==> init[j] == entries[j];
      ReplayUnset(init, body);
      ApplyElsewhere(Replay(init), entries[|entries| - 1], body);
    }
  }

  /** The last replayed entry that sets `body` decides it. */
  lemma {:induction false} ReplayLastWins(entries: seq<Option<(int, int)>>, body: nat, k: nat)
    requires body < TableSize && k < |entries|
    requires SetsBody(entries[k], body)
    requires forall j :: k < j < |entries| ==> !SetsBody(entries[j], body)
    ensures Replay(entries)[body] == entries[k].value.1
  {
    var n := |entries| - 1;
    var init := entries[..n];
    if k < n {
      assert forall j :: k < j < |init| ==> init[j] == entries[j];
      ReplayLastWins(init, body, k);
      ApplyElsewhere(Replay(init), entries[n], body);
    } else {
      ApplyHere(Replay(init), entries[n], body);
    }
  }

  /** An entry no line sets stays zero, so its lookup gives the default. */
  lemma UnsetEntryIsZero(lines: seq<Text>, parse: Text -> Option<int>, body: nat)
    requires body < TableSize
    requires forall j :: 0 <= j < |lines| ==> !Sets(lines[j], parse, body)
    ensures LoadedTable(lines, parse)[body] == 0
  {
    var entries := Parsed(lines, parse);
    forall j | 0 <= j < |entries|
      ensures !SetsBody(entries[j], body)
    {
      assert !Sets(lines[j], parse, body);
    }
    ReplayUnset(entries, body);
  }

  /** Later lines overwrite: an entry holds the item of the last line that sets it. */
  lemma LastLineWins(lines: seq<Text>, parse: Text -> Option<int>, body: nat, k: nat)
    requires body < TableSize && k < |lines|
    requires Sets(lines[k], parse, body)
    requires forall j :: k < j < |lines| ==> !Sets(lines[j], parse, body)
    ensures LoadedTable(lines, parse)[body] == ParseLine(lines[k], parse).value.1
  {
    var entries := Parsed(lines, parse);
    forall j | k < j < |entries|
      ensures !SetsBody(entries[j], body)
    {
      assert !Sets(lines[j], parse, body);
    }
    ReplayLastWins(entries, body, k);
  }

  /** A line that sets an in-range entry leaves its item there. */
  lemma ApplyHere(table: seq<int>, entry: Option<(int, int)>, body: nat)
    requires body < |table|
    requires SetsBody(entry, body)
    ensures Apply(table, entry)[body] == entry.value.1
  {
  }

  /** An entry keeps its value through a line that does not set it. */
  lemma ApplyElsewhere(table: seq<int>, entry: Option<(int, int)>, body: nat)
    requires body < |table|
    requires !SetsBody(entry, body)
    ensures Apply(table, entry)[body] == table[body]
  {
  }

  /** Comment lines, blank lines and lines without a tab change nothing. */
  lemma IgnoredLine(lines: seq<Text>, parse: Text -> Option<int>, line: Text)
    requires Trim(line) == [] || Trim(line)[0] == '#' || '\t' !in Trim(line)
    ensures LoadedTable(lines + [line], parse) == LoadedTable(lines, parse)
  {
    assert Parsed(lines + [line], parse) == Parsed(lines, parse) + [None];
    ReplaySnoc(Parsed(lines, parse), None);
  }

  /** Without the file every lookup gives the default. */
  lemma MissingFileLooksUpDefault(parse: Text -> Option<int>, body: int, defaultValue: int)
    ensures Lookup(TableOf(None, parse), body, defaultValue) == defaultValue
  {
  }

  /**
   * After loading, a body no line sets, or one outside the table, looks up
   * as the default.
   */
  lemma LookupAfterLoad(lines: seq<Text>, parse: Text -> Option<int>, body: int, defaultValue: int)
    ensures !(0 <= body < TableSize) ==> Lookup(LoadedTable(lines, parse), body, defaultValue) == defaultValue
    ensures 0 <= body < TableSize && (forall j :: 0 <= j < |lines| ==> !Sets(lines[j], parse, body))
            ==> Lookup(LoadedTable(lines, parse), body, defaultValue) == defaultValue
  {
    if 0 <= body < TableSize && (forall j :: 0 <= j < |lines| ==> !Sets(lines[j], parse, body)) {
      UnsetEntryIsZero(lines, parse, body);
    }
  }

  /**
   * After loading, a body whose last setting line gives a nonzero item
   * looks up as that item, and one whose last setting line gives zero looks
   * up as the default.
   */
  lemma LookupLastLine(lines: seq<Text>, parse: Text -> Option<int>, body: nat, k: nat, defaultValue: int)
    requires body < TableSize && k < |lines|
    requires Sets(lines[k], parse, body)
    requires forall j :: k < j < |lines| ==> !Sets(lines[j], parse, body)
    ensures var item := ParseLine(lines[k], parse).value.1;
            Lookup(LoadedTable(lines, parse), body, defaultValue) == if item != 0 then item else defaultValue
  {
    LastLineWins(lines, parse, body, k);
  }
}
