/**
 Sizes out of supplied barcodes, and the conflicts among them
 (apps/api/src/cli/master-source-normalization.ts:215-280).
 */
module BarcodeSource {
  import opened SourceText

  /** A worksheet cell: null, or the text `String(v)` gives for it. */
  datatype Cell = Null | Text(text: string)

  datatype Row = Row(number: nat, cells: seq<Cell>)

  datatype Columns = Columns(season: nat, style: nat, barcode: nat)

  datatype Record = Record(row: nat, season: string, style: string, size: string, barcode: string)

  datatype Code = SizeUnresolved | BarcodeConflict | OwnershipConflict

  datatype Finding = Finding(code: Code, row: nat)

  function CellText(r: Row, column: nat): string {
    if column < |r.cells| && r.cells[column].Text? then r.cells[column].text else ""
  }

  predicate Blank(r: Row) {
    forall c <- r.cells :: c == Null || c == Text("")
  }

  function Upper(c: char): char {
    if 'a' <= c <= 'z' then c - 'a' + 'A' else c
  }

  /** normalizeMrpSeason: hyphens and white space dropped, upper case. */
  function NormalizeSeason(s: string): string {
    if s == "" then ""
    else (if s[0] == '-' || IsSpace(s[0]) then "" else [Upper(s[0])]) + NormalizeSeason(s[1..])
  }

  /** The end of the run of digits that starts at `i`. */
  function DigitsEnd(s: string, i: nat): (k: nat)
    requires i <= |s|
    ensures i <= k <= |s| && (forall n | i <= n < k :: IsDigit(s[n])) && (k < |s| ==> !IsDigit(s[k]))
    decreases |s| - i
  {
    if i < |s| && IsDigit(s[i]) then DigitsEnd(s, i + 1) else i
  }

  /** /^[A-Z]{5}(\d+)-(\d{1,2})Y$/ with its first group equal to `style`; the second group, or "". */
  function DecodeLettered(barcode: string, style: string): string {
    if |barcode| < 5 || exists n | 0 <= n < 5 :: !IsUpper(barcode[n]) then ""
    else
      var k := DigitsEnd(barcode, 5);
      if k == 5 || k == |barcode| || barcode[k] != '-' then ""
      else
        var tail := barcode[k + 1..];
        if 2 <= |tail| <= 3 && tail[|tail| - 1] == 'Y' && AllDigits(tail[..|tail| - 1]) && barcode[5..k] == style
        then tail[..|tail| - 1] else ""
  }

  /** The text after `prefix` when it matches /^[1-9]\d?$/, else "". */
  function DecodePrefixed(barcode: string, prefix: string): string {
    if !(prefix <= barcode) then ""
    else
      var rest := barcode[|prefix|..];
      if 1 <= |rest| <= 2 && '1' <= rest[0] <= '9' && AllDigits(rest) then rest else ""
  }

  function Decode(season: string, style: string, barcode: string): string {
    if season == "AW25" then DecodeLettered(barcode, style)
    else if season == "SS26" then DecodePrefixed(barcode, style)
    else if season == "AW26" then DecodePrefixed(barcode, "3" + style)
    else ""
  }

  function NumberOf(digits: string): nat
    requires AllDigits(digits)
  {
    if digits == "" then 0
    else
      var last := digits[|digits| - 1];
      assert last in digits;
      NumberOf(digits[..|digits| - 1]) * 10 + (last as int - '0' as int)
  }

  predicate StyleNumber(style: string) {
    7 <= |style| <= 8 && AllDigits(style)
  }

  /** Nothing but one or two digits is ever decoded. */
  lemma DecodedIsDigits(season: string, style: string, barcode: string)
    ensures var size := Decode(season, style, barcode); size != "" ==> 1 <= |size| <= 2 && AllDigits(size)
  {
  }

  /** The size the source keeps: "" when the row does not fit its season's regime. */
  function Resolve(season: string, style: string, barcode: string): (size: string)
    ensures size != "" ==>
              && season in {"AW25", "SS26", "AW26"} && StyleNumber(style)
              && 1 <= |size| <= 2 && AllDigits(size) && 3 <= NumberOf(size) <= 14
  {
    var size := Decode(season, style, barcode);
    DecodedIsDigits(season, style, barcode);
    if size == "" || NumberOf(size) < 3 || NumberOf(size) > 14 || !StyleNumber(style) then "" else size
  }

  function RecordOf(r: Row, c: Columns): Record {
    var season := NormalizeSeason(CellText(r, c.season));
    var style := Trim(CellText(r, c.style));
    var barcode := CellText(r, c.barcode);
    Record(r.number, season, style, Resolve(season, style, barcode), barcode)
  }

  function Key(r: Record): string {
    r.season + "|" + r.style + "|" + r.size
  }

  /** One record for every row that is not blank, in order. */
  function Records(rows: seq<Row>, c: Columns): seq<Record> {
    if rows == [] then []
    else
      var last := rows[|rows| - 1];
      Records(rows[..|rows| - 1], c) + if Blank(last) then [] else [RecordOf(last, c)]
  }

  /** The rows of the records without a size, in order. */
  function Sizeless(records: seq<Record>): seq<nat> {
    if records == [] then []
    else
      var last := records[|records| - 1];
      Sizeless(records[..|records| - 1]) + if last.size == "" then [last.row] else []
  }

  function RowsOf(findings: seq<Finding>, code: Code): seq<nat> {
    if findings == [] then []
    else
      var last := findings[|findings| - 1];
      RowsOf(findings[..|findings| - 1], code) + if last.code == code then [last.row] else []
  }

  /** What resolving a size guarantees of a record that has one. */
  predicate Shaped(r: Record) {
    r.size != "" ==> r.season in {"AW25", "SS26", "AW26"} && AllDigits(r.style) && AllDigits(r.size)
  }

  lemma KeyEnd(r: Record)
    ensures |Key(r)| > 0 && Key(r)[|Key(r)| - 1] == if r.size == "" then '|' else r.size[|r.size| - 1]
  {
  }

  /** A key shows whether its record has a size. */
  lemma SameKeySameSize(a: Record, b: Record)
    requires Key(a) == Key(b) && Shaped(b) && b.size != ""
    ensures a.size != ""
  {
    KeyEnd(a);
    KeyEnd(b);
    assert b.size[|b.size| - 1] in b.size;
  }

  lemma JoinedDigits(s: string, x: string, p: string, t: string, y: string, q: string)
    requires |s| == |t| && AllDigits(x) && AllDigits(y)
    requires s + "|" + x + "|" + p == t + "|" + y + "|" + q
    ensures s == t && x == y && p == q
  {
    var k, l := s + "|" + x + "|" + p, t + "|" + y + "|" + q;
    assert k[..|s|] == s && l[..|s|] == t;
    assert forall n | 0 <= n < |x| :: k[|s| + 1 + n] == x[n] && x[n] in x;
    assert forall n | 0 <= n < |y| :: l[|s| + 1 + n] == y[n] && y[n] in y;
    assert k[|s| + 1 + |x|] == '|' && l[|s| + 1 + |y|] == '|';
    assert |x| == |y|;
    assert k[|s| + 1..|s| + 1 + |x|] == x && l[|s| + 1..|s| + 1 + |x|] == y;
    assert k[|s| + 2 + |x|..] == p && l[|s| + 2 + |x|..] == q;
  }

  /** On records with a size the text key loses nothing. */
  lemma KeyIsInjective(a: Record, b: Record)
    requires Shaped(a) && Shaped(b) && a.size != "" && b.size != "" && Key(a) == Key(b)
    ensures a.season == b.season && a.style == b.style && a.size == b.size
  {
    JoinedDigits(a.season, a.style, a.size, b.season, b.style, b.size);
  }

  /** A key, the value seen with it, and whether a second value for the key is reported. */
  datatype Sighting = Sighting(key: string, value: string, reported: bool)

  predicate Clash(a: Sighting, b: Sighting) {
    b.reported && a.key == b.key && a.value != b.value
  }

  predicate AnyClash(seen: seq<Sighting>) {
    exists i, j | 0 <= i < j < |seen| :: Clash(seen[i], seen[j])
  }

  /** `last` holds the last value seen with each key; all sightings of a key are reported, or none. */
  ghost predicate Remembers(seen: seq<Sighting>, last: map<string, string>) {
    && (forall k <- last :: exists i | 0 <= i < |seen| :: seen[i].key == k && seen[i].value == last[k])
    && (forall i | 0 <= i < |seen| :: seen[i].key in last)
    && (!AnyClash(seen) ==> forall i | 0 <= i < |seen| && seen[i].reported :: last[seen[i].key] == seen[i].value)
  }

  predicate SameReporting(seen: seq<Sighting>, s: Sighting) {
    forall i | 0 <= i < |seen| && seen[i].key == s.key :: seen[i].reported == s.reported
  }

  lemma ClashGrows(seen: seq<Sighting>, s: Sighting)
    ensures AnyClash(seen + [s]) <==> AnyClash(seen) || exists i | 0 <= i < |seen| :: Clash(seen[i], s)
  {
    var all := seen + [s];
    if i, j :| 0 <= i < j < |seen| && Clash(seen[i], seen[j]) {
      assert Clash(all[i], all[j]);
    }
    if i :| 0 <= i < |seen| && Clash(seen[i], s) {
      assert Clash(all[i], all[|seen|]);
    }
  }

  /** Comparing with the last value alone finds a clash exactly when there is one with any. */
  lemma LastValueIsEnough(seen: seq<Sighting>, s: Sighting, last: map<string, string>)
    requires Remembers(seen, last) && SameReporting(seen, s)
    ensures AnyClash(seen + [s]) <==> AnyClash(seen) || (s.reported && s.key in last && last[s.key] != s.value)
    ensures Remembers(seen + [s], last[s.key := s.value])
  {
    ClashGrows(seen, s);
    var all, now := seen + [s], last[s.key := s.value];
    if s.key in last {
      var i :| 0 <= i < |seen| && seen[i].key == s.key && seen[i].value == last[s.key];
      assert s.reported && last[s.key] != s.value ==> Clash(seen[i], s);
    }
    forall k <- now ensures exists i | 0 <= i < |all| :: all[i].key == k && all[i].value == now[k] {
      if k != s.key {
        var i :| 0 <= i < |seen| && seen[i].key == k && seen[i].value == last[k];
        assert all[i].key == k;
      } else {
        assert all[|seen|].key == k;
      }
    }
    if !AnyClash(all) {
      forall i | 0 <= i < |all| && all[i].reported ensures now[all[i].key] == all[i].value {
        assert i < |seen| ==> !Clash(seen[i], s);
      }
    }
  }

  /** Which barcodes each style and size was seen with. */
  function Slots(records: seq<Record>): (seen: seq<Sighting>)
    ensures |seen| == |records|
    ensures forall i | 0 <= i < |records| :: seen[i] == SlotOf(records[i])
  {
    seq(|records|, i requires 0 <= i < |records| => SlotOf(records[i]))
  }

  function SlotOf(r: Record): Sighting {
    Sighting(Key(r), r.barcode, r.size != "")
  }

  /** Which style and size each barcode was seen with. */
  function Holders(records: seq<Record>): (seen: seq<Sighting>)
    ensures |seen| == |records|
    ensures forall i | 0 <= i < |records| :: seen[i] == HolderOf(records[i])
  {
    seq(|records|, i requires 0 <= i < |records| => HolderOf(records[i]))
  }

  function HolderOf(r: Record): Sighting {
    Sighting(r.barcode, Key(r), true)
  }

  lemma SlotsReportAlike(records: seq<Record>, r: Record)
    requires Shaped(r) && forall x <- records :: Shaped(x)
    ensures SameReporting(Slots(records), SlotOf(r))
  {
    forall i | 0 <= i < |records| && Key(records[i]) == Key(r) ensures records[i].size != "" <==> r.size != "" {
      assert records[i] in records;
      if r.size != "" { SameKeySameSize(records[i], r); }
      if records[i].size != "" { SameKeySameSize(r, records[i]); }
    }
  }

  lemma {:induction false} RecordsShaped(rows: seq<Row>, c: Columns)
    ensures forall r <- Records(rows, c) :: Shaped(r)
  {
    if rows != [] {
      RecordsShaped(rows[..|rows| - 1], c);
    }
  }

  /** The rows reported as unresolved, and whether a conflict of either kind was reported. */
  predicate Reports(findings: seq<Finding>, unresolved: seq<nat>, conflict: bool, ownership: bool) {
    && RowsOf(findings, SizeUnresolved) == unresolved
    && (RowsOf(findings, BarcodeConflict) != [] <==> conflict)
    && (RowsOf(findings, OwnershipConflict) != [] <==> ownership)
  }

  /** The findings describe exactly these records. */
  predicate Describes(findings: seq<Finding>, records: seq<Record>) {
    Reports(findings, Sizeless(records), AnyClash(Slots(records)), AnyClash(Holders(records)))
  }

  method Report(findings: seq<Finding>, row: nat, unresolved: bool, conflict: bool, ownership: bool)
    returns (found: seq<Finding>)
    ensures forall u, c, o | Reports(findings, u, c, o) ::
              Reports(found, u + if unresolved then [row] else [], c || conflict, o || ownership)
  {
    found := ReportIf(unresolved, findings, SizeUnresolved, row);
    found := ReportIf(conflict, found, BarcodeConflict, row);
    found := ReportIf(ownership, found, OwnershipConflict, row);
  }

  /** The loop body, from the decoded record on. */
  method Observe(
    r: Record, ghost records: seq<Record>, findings: seq<Finding>, identities: map<string, string>,
    holders: map<string, string>)
    returns (found: seq<Finding>, newIdentities: map<string, string>, newHolders: map<string, string>)
    requires Describes(findings, records) && SameReporting(Slots(records), SlotOf(r))
    requires Remembers(Slots(records), identities) && Remembers(Holders(records), holders)
    ensures Describes(found, records + [r])
    ensures Remembers(Slots(records + [r]), newIdentities) && Remembers(Holders(records + [r]), newHolders)
  {
    SlotMemorised(records, r, identities);
    HolderMemorised(records, r, holders);
    SizelessGrows(records, r);
    found := Report(
      findings, r.row, r.size == "",
      r.size != "" && Key(r) in identities && identities[Key(r)] != r.barcode,
      r.barcode in holders && holders[r.barcode] != Key(r));
    newIdentities := identities[Key(r) := r.barcode];
    newHolders := holders[r.barcode := Key(r)];
  }

  lemma SizelessGrows(records: seq<Record>, r: Record)
    ensures Sizeless(records + [r]) == Sizeless(records) + if r.size == "" then [r.row] else []
  {
    assert (records + [r])[..|records|] == records;
  }

  lemma SlotMemorised(records: seq<Record>, r: Record, identities: map<string, string>)
    requires Remembers(Slots(records), identities) && SameReporting(Slots(records), SlotOf(r))
    ensures AnyClash(Slots(records + [r])) <==>
              AnyClash(Slots(records)) || (r.size != "" && Key(r) in identities && identities[Key(r)] != r.barcode)
    ensures Remembers(Slots(records + [r]), identities[Key(r) := r.barcode])
  {
    LastValueIsEnough(Slots(records), SlotOf(r), identities);
    assert Slots(records + [r]) == Slots(records) + [SlotOf(r)];
  }

  lemma HolderMemorised(records: seq<Record>, r: Record, holders: map<string, string>)
    requires Remembers(Holders(records), holders)
    ensures AnyClash(Holders(records + [r])) <==>
              AnyClash(Holders(records)) || (r.barcode in holders && holders[r.barcode] != Key(r))
    ensures Remembers(Holders(records + [r]), holders[r.barcode := Key(r)])
  {
    assert SameReporting(Holders(records), HolderOf(r));
    LastValueIsEnough(Holders(records), HolderOf(r), holders);
    assert Holders(records + [r]) == Holders(records) + [HolderOf(r)];
  }

  /** What the loop has established once the first `n` rows are done. */
  ghost predicate Parsed(
    rows: seq<Row>, n: nat, c: Columns, records: seq<Record>, findings: seq<Finding>,
    identities: map<string, string>, holders: map<string, string>)
    requires n <= |rows|
  {
    && records == Records(rows[..n], c)
    && Describes(findings, records)
    && Remembers(Slots(records), identities) && Remembers(Holders(records), holders)
  }

  lemma NothingParsed(rows: seq<Row>, c: Columns)
    ensures Parsed(rows, 0, c, [], [], map[], map[])
  {
    assert Slots([]) == [] && Holders([]) == [];
  }

  lemma BlankParsed(
    rows: seq<Row>, n: nat, c: Columns, records: seq<Record>, findings: seq<Finding>,
    identities: map<string, string>, holders: map<string, string>)
    requires n < |rows| && Blank(rows[n]) && Parsed(rows, n, c, records, findings, identities, holders)
    ensures Parsed(rows, n + 1, c, records, findings, identities, holders)
  {
    NextRow(rows, n, c);
  }

  /** The loop body for a row that is not blank. */
  method ParseRow(
    rows: seq<Row>, n: nat, c: Columns, records: seq<Record>, findings: seq<Finding>,
    identities: map<string, string>, holders: map<string, string>)
    returns (r: Record, found: seq<Finding>, newIdentities: map<string, string>, newHolders: map<string, string>)
    requires n < |rows| && !Blank(rows[n]) && Parsed(rows, n, c, records, findings, identities, holders)
    ensures Parsed(rows, n + 1, c, records + [r], found, newIdentities, newHolders)
  {
    NextRow(rows, n, c);
    r := RecordOf(rows[n], c);
    found, newIdentities, newHolders := Observe(r, records, findings, identities, holders);
  }

  // ---------------------------------------------------------------------------
  // Which rows, and what of them
  // ---------------------------------------------------------------------------

  /** The row has a cell with a text in it. */
  predicate Filled(r: Row) {
    exists n | 0 <= n < |r.cells| :: r.cells[n].Text? && r.cells[n].text != ""
  }

  /** The text of a cell; a cell that is null or beyond the row's end has none. */
  predicate Reads(r: Row, column: nat, text: string) {
    if column < |r.cells| && r.cells[column].Text? then text == r.cells[column].text else text == ""
  }

  /** The record carries the row's number, its barcode cell, and its trimmed style and normalised season. */
  ghost predicate TellsOf(r: Row, c: Columns, record: Record) {
    && record.row == r.number && Reads(r, c.barcode, record.barcode)
    && (exists style: string :: Reads(r, c.style, style) && record.style == Trim(style))
    && (exists season: string :: Reads(r, c.season, season) && record.season == NormalizeSeason(season))
  }

  ghost predicate Increasing(from: seq<nat>) {
    forall k, l | 0 <= k < l < |from| :: from[k] < from[l]
  }

  /** `from` lists the positions of the filled rows in order, and the records tell of those rows, one each. */
  ghost predicate OnePerFilledRow(rows: seq<Row>, c: Columns, records: seq<Record>, from: seq<nat>) {
    && |records| == |from| && Increasing(from)
    && (forall n <- from :: n < |rows| && Filled(rows[n]))
    && (forall n | 0 <= n < |rows| && Filled(rows[n]) :: n in from)
    && (forall k | 0 <= k < |records| :: from[k] < |rows| && TellsOf(rows[from[k]], c, records[k]))
  }

  /** `from` lists the positions of the records without size in order, and the rows reported are theirs. */
  ghost predicate OnePerUnsized(records: seq<Record>, reported: seq<nat>, from: seq<nat>) {
    && |reported| == |from| && Increasing(from)
    && (forall n <- from :: n < |records| && records[n].size == "")
    && (forall n | 0 <= n < |records| && records[n].size == "" :: n in from)
    && (forall k | 0 <= k < |from| :: from[k] < |records| && reported[k] == records[from[k]].row)
  }

  lemma BlankExactly(r: Row)
    ensures Blank(r) <==> !Filled(r)
  {
    if Filled(r) {
      var n :| 0 <= n < |r.cells| && r.cells[n].Text? && r.cells[n].text != "";
      assert r.cells[n] in r.cells;
    }
    if c :| c in r.cells && c != Null && c != Text("") {
      var n :| 0 <= n < |r.cells| && r.cells[n] == c;
    }
  }

  lemma RecordTells(r: Row, c: Columns)
    ensures TellsOf(r, c, RecordOf(r, c))
  {
    assert Reads(r, c.style, CellText(r, c.style)) && Reads(r, c.season, CellText(r, c.season));
  }

  lemma IncreasingAppends(from: seq<nat>, n: nat)
    requires Increasing(from) && forall m <- from :: m < n
    ensures Increasing(from + [n])
  {
    assert forall k | 0 <= k < |from| :: from[k] in from;
  }

  lemma OneMoreFilled(rows: seq<Row>, c: Columns, records: seq<Record>, from: seq<nat>, r: Row, record: Record)
    requires OnePerFilledRow(rows, c, records, from)
    ensures !Filled(r) ==> OnePerFilledRow(rows + [r], c, records, from)
    ensures Filled(r) && TellsOf(r, c, record) ==> OnePerFilledRow(rows + [r], c, records + [record], from + [|rows|])
  {
    IncreasingAppends(from, |rows|);
    var all := rows + [r];
    assert forall n | 0 <= n < |rows| :: all[n] == rows[n];
    assert forall k | 0 <= k < |from| :: from[k] in from && all[from[k]] == rows[from[k]];
  }

  /** Row conservation: every row with a text in it gives exactly one record, in order, and no other row gives one. */
  lemma {:induction false} EveryFilledRowIsKept(rows: seq<Row>, c: Columns) returns (from: seq<nat>)
    ensures OnePerFilledRow(rows, c, Records(rows, c), from)
  {
    if rows == [] {
      from := [];
    } else {
      var n := |rows| - 1;
      from := EveryFilledRowIsKept(rows[..n], c);
      BlankExactly(rows[n]);
      RecordTells(rows[n], c);
      OneMoreFilled(rows[..n], c, Records(rows[..n], c), from, rows[n], RecordOf(rows[n], c));
      assert rows == rows[..n] + [rows[n]];
      from := if Filled(rows[n]) then from + [n] else from;
    }
  }

  lemma OneMoreUnsized(records: seq<Record>, reported: seq<nat>, from: seq<nat>, r: Record)
    requires OnePerUnsized(records, reported, from)
    ensures r.size != "" ==> OnePerUnsized(records + [r], reported, from)
    ensures r.size == "" ==> OnePerUnsized(records + [r], reported + [r.row], from + [|records|])
  {
    IncreasingAppends(from, |records|);
    var all := records + [r];
    assert forall n | 0 <= n < |records| :: all[n] == records[n];
    assert forall k | 0 <= k < |from| :: from[k] in from && all[from[k]] == records[from[k]];
  }

  lemma {:induction false} EveryUnsizedIsReported(records: seq<Record>) returns (from: seq<nat>)
    ensures OnePerUnsized(records, Sizeless(records), from)
  {
    if records == [] {
      from := [];
    } else {
      var n := |records| - 1;
      from := EveryUnsizedIsReported(records[..n]);
      OneMoreUnsized(records[..n], Sizeless(records[..n]), from, records[n]);
      assert records == records[..n] + [records[n]];
      from := if records[n].size == "" then from + [n] else from;
    }
  }

  /**
   The loop of parseBarcodeRows. Every row that is not blank gives exactly one record, in
   order; the records without a size are exactly those reported as unresolved; and a
   conflict of either kind is reported exactly when there is one among all records.
   */
  method ParseBarcodeRows(rows: seq<Row>, c: Columns) returns (records: seq<Record>, findings: seq<Finding>)
    ensures records == Records(rows, c)
    ensures exists from :: OnePerFilledRow(rows, c, records, from)
    ensures exists from :: OnePerUnsized(records, RowsOf(findings, SizeUnresolved), from)
    ensures RowsOf(findings, SizeUnresolved) == Sizeless(records)
    ensures RowsOf(findings, BarcodeConflict) != [] <==> AnyClash(Slots(records))
    ensures RowsOf(findings, OwnershipConflict) != [] <==> AnyClash(Holders(records))
  {
    records, findings := [], [];
    var identities: map<string, string>, holders: map<string, string> := map[], map[];
    NothingParsed(rows, c);
    for n := 0 to |rows|
      invariant Parsed(rows, n, c, records, findings, identities, holders)
    {
      if Blank(rows[n]) {
        BlankParsed(rows, n, c, records, findings, identities, holders);
      } else {
        var r;
        r, findings, identities, holders := ParseRow(rows, n, c, records, findings, identities, holders);
        records := records + [r];
      }
    }
    assert rows[..|rows|] == rows;
    ghost var kept := EveryFilledRowIsKept(rows, c);
    ghost var reported := EveryUnsizedIsReported(records);
  }

  lemma NextRow(rows: seq<Row>, n: nat, c: Columns)
    requires n < |rows|
    ensures Records(rows[..n + 1], c) == Records(rows[..n], c) + if Blank(rows[n]) then [] else [RecordOf(rows[n], c)]
    ensures SameReporting(Slots(Records(rows[..n], c)), SlotOf(RecordOf(rows[n], c)))
  {
    assert rows[..n + 1][..n] == rows[..n];
    RecordsShaped(rows[..n], c);
    SlotsReportAlike(Records(rows[..n], c), RecordOf(rows[n], c));
  }

  method ReportIf(condition: bool, findings: seq<Finding>, code: Code, row: nat) returns (more: seq<Finding>)
    ensures RowsOf(more, code) == RowsOf(findings, code) + if condition then [row] else []
    ensures forall other | other != code :: RowsOf(more, other) == RowsOf(findings, other)
  {
    more := findings;
    if condition {
      more := findings + [Finding(code, row)];
      assert more[..|findings|] == findings;
    }
  }

  predicate TwoBarcodes(a: Record, b: Record) {
    a.size != "" && b.size != "" && a.barcode != b.barcode && (a.season, a.style, a.size) == (b.season, b.style, b.size)
  }

  /** A barcode conflict is two barcodes for one season, style and size, neither more nor less. */
  lemma ConflictIsTwoBarcodes(rows: seq<Row>, c: Columns)
    ensures var records := Records(rows, c);
            AnyClash(Slots(records)) <==> exists a, b | a in records && b in records :: TwoBarcodes(a, b)
  {
    var records := Records(rows, c);
    RecordsShaped(rows, c);
    if i, j :| 0 <= i < j < |records| && Clash(Slots(records)[i], Slots(records)[j]) {
      SameKeySameSize(records[i], records[j]);
      KeyIsInjective(records[i], records[j]);
      assert TwoBarcodes(records[i], records[j]);
    }
    if a, b :| a in records && b in records && TwoBarcodes(a, b) {
      var i :| 0 <= i < |records| && records[i] == a;
      var j :| 0 <= j < |records| && records[j] == b;
      assert Clash(Slots(records)[i], Slots(records)[j]) && Clash(Slots(records)[j], Slots(records)[i]);
    }
  }

  /** With no conflict reported, sizes of styles and their barcodes correspond one to one. */
  lemma NoConflictMeansBijection(rows: seq<Row>, c: Columns, a: Record, b: Record)
    requires !AnyClash(Slots(Records(rows, c))) && !AnyClash(Holders(Records(rows, c)))
    requires a in Records(rows, c) && b in Records(rows, c) && a.size != "" && b.size != ""
    ensures a.barcode == b.barcode <==> (a.season, a.style, a.size) == (b.season, b.style, b.size)
  {
    var records := Records(rows, c);
    RecordsShaped(rows, c);
    var i :| 0 <= i < |records| && records[i] == a;
    var j :| 0 <= j < |records| && records[j] == b;
    var x, y := if i <= j then i else j, if i <= j then j else i;
    assert x < y ==> !Clash(Slots(records)[x], Slots(records)[y]) && !Clash(Holders(records)[x], Holders(records)[y]);
    if Key(a) == Key(b) {
      KeyIsInjective(a, b);
    }
  }

  // ---------------------------------------------------------------------------
  // Building and decoding barcodes
  // ---------------------------------------------------------------------------

  /** The text of a size, as the barcodes write it. */
  function SizeText(n: nat): (text: string)
    requires 3 <= n <= 14
    ensures 1 <= |text| <= 2 && AllDigits(text) && '1' <= text[0] <= '9' && NumberOf(text) == n
  {
    var digit := ((n % 10) + '0' as int) as char;
    if n < 10 then
      assert NumberOf([digit]) == n by { assert [digit][..0] == ""; }
      [digit]
    else
      assert NumberOf(['1', digit]) == n by {
        assert ['1', digit][..1] == ['1'] && ['1'][..0] == "";
      }
      ['1', digit]
  }

  /** The documented barcode of a style and size; `letters` only matters in AW25. */
  function Build(season: string, letters: string, style: string, size: string): string {
    if season == "AW25" then letters + style + "-" + size + "Y"
    else if season == "SS26" then style + size
    else "3" + style + size
  }

  predicate Letters(s: string) {
    |s| == 5 && forall c <- s :: IsUpper(c)
  }

  lemma DigitsEndAt(s: string, i: nat, k: nat)
    requires i <= k < |s| && !IsDigit(s[k]) && forall n | i <= n < k :: IsDigit(s[n])
    ensures DigitsEnd(s, i) == k
  {
  }

  /** Round trip: every documented barcode decodes to its own size. */
  lemma BuiltBarcodesDecode(season: string, letters: string, style: string, n: nat)
    requires season in {"AW25", "SS26", "AW26"} && Letters(letters) && StyleNumber(style) && 3 <= n <= 14
    ensures Resolve(season, style, Build(season, letters, style, SizeText(n))) == SizeText(n)
  {
    var size := SizeText(n);
    var barcode := Build(season, letters, style, size);
    if season == "AW25" {
      LetteredDecodes(letters, style, size);
    } else if season == "SS26" {
      assert barcode[|style|..] == size;
    } else {
      assert barcode[|"3" + style|..] == size && "3" + style <= barcode;
    }
  }

  lemma LetteredDecodes(letters: string, style: string, size: string)
    requires Letters(letters) && style != "" && AllDigits(style) && 1 <= |size| <= 2 && AllDigits(size)
    ensures DecodeLettered(letters + style + "-" + size + "Y", style) == size
  {
    var barcode := letters + style + "-" + size + "Y";
    var k := 5 + |style|;
    assert forall n | 0 <= n < 5 :: barcode[n] == letters[n] && letters[n] in letters;
    assert forall n | 5 <= n < k :: barcode[n] == style[n - 5] && style[n - 5] in style;
    assert barcode[k] == '-';
    DigitsEndAt(barcode, 5, k);
    assert barcode[k + 1..] == size + "Y";
    assert (size + "Y")[..|size|] == size;
    assert barcode[5..k] == style;
  }

  lemma LetteredIsBuilt(style: string, barcode: string)
    requires DecodeLettered(barcode, style) != ""
    ensures Letters(barcode[..5]) && barcode == Build("AW25", barcode[..5], style, DecodeLettered(barcode, style))
  {
    var letters, k := barcode[..5], DigitsEnd(barcode, 5);
    var tail := barcode[k + 1..];
    assert tail == tail[..|tail| - 1] + "Y" && barcode[k..k + 1] == "-";
    assert barcode == letters + barcode[5..k] + barcode[k..k + 1] + tail;
  }

  lemma NumericIsBuilt(season: string, style: string, barcode: string)
    requires season in {"SS26", "AW26"} && Decode(season, style, barcode) != ""
    ensures barcode == Build(season, "", style, Decode(season, style, barcode))
  {
    var prefix := if season == "AW26" then "3" + style else style;
    assert barcode == prefix + barcode[|prefix|..];
  }

  /** And nothing else does: a resolved barcode is the documented one of its season, style and size. */
  lemma ResolvedBarcodesAreBuilt(season: string, style: string, barcode: string)
    requires Resolve(season, style, barcode) != ""
    ensures exists letters: string :: (season == "AW25" ==> Letters(letters)) &&
              barcode == Build(season, letters, style, Resolve(season, style, barcode))
  {
    if season == "AW25" {
      LetteredIsBuilt(style, barcode);
    } else {
      NumericIsBuilt(season, style, barcode);
    }
  }
}
