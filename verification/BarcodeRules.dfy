/**
 Which sizes are resolved and which conflicts reported, in terms of the texts alone
 (apps/api/src/cli/master-source-normalization.ts:215-280).
 */
module BarcodeRules {
  import opened SourceText
  import opened BarcodeSource
  import opened BarcodeCollisions

  // ---------------------------------------------------------------------------
  // Which sizes
  // ---------------------------------------------------------------------------

  /** The sizes 3 to 14 as a barcode writes them; only AW25 accepts a leading zero. */
  predicate SizeWritten(season: string, size: string) {
    || (|size| == 1 && '3' <= size[0] <= '9')
    || (|size| == 2 && size[0] == '1' && '0' <= size[1] <= '4')
    || (|size| == 2 && size[0] == '0' && '3' <= size[1] <= '9' && season == "AW25")
  }

  /** The barcode is what the documents prescribe for the style in this size. */
  predicate Prescribed(season: string, style: string, size: string, barcode: string) {
    || (season == "AW25" && |barcode| >= 5 && (forall n | 0 <= n < 5 :: 'A' <= barcode[n] <= 'Z')
        && barcode[5..] == style + "-" + size + "Y")
    || (season == "SS26" && barcode == style + size)
    || (season == "AW26" && barcode == "3" + style + size)
  }

  predicate SevenOrEightDigits(style: string) {
    (|style| == 7 || |style| == 8) && forall n | 0 <= n < |style| :: '0' <= style[n] <= '9'
  }

  lemma StyleNumberExactly(style: string)
    ensures StyleNumber(style) <==> SevenOrEightDigits(style)
  {
    if SevenOrEightDigits(style) {
      forall c <- style ensures IsDigit(c) {
        var n :| 0 <= n < |style| && style[n] == c;
      }
    }
    if StyleNumber(style) {
      assert forall n | 0 <= n < |style| :: style[n] in style;
    }
  }

  lemma SizeTexts(x: string)
    requires 1 <= |x| <= 2
    ensures AllDigits(x) && 3 <= NumberOf(x) <= 14 <==> SizeWritten("AW25", x)
    ensures SizeWritten("AW25", x) ==> (SizeWritten("SS26", x) <==> '1' <= x[0] <= '9')
  {
    assert AllDigits(x) <==> IsDigit(x[0]) && IsDigit(x[|x| - 1]) by {
      assert x[0] in x && x[|x| - 1] in x;
      assert forall c <- x :: c == x[0] || c == x[|x| - 1];
    }
    if AllDigits(x) {
      NumberOfShort(x);
    }
  }

  lemma WrittenIsShort(season: string, size: string)
    requires SizeWritten(season, size)
    ensures 1 <= |size| <= 2 && SizeWritten("AW25", size)
  {
  }

  lemma LetteredExactly(style: string, size: string, barcode: string)
    requires SevenOrEightDigits(style) && SizeWritten("AW25", size)
    requires Prescribed("AW25", style, size, barcode)
    ensures DecodeLettered(barcode, style) == size
  {
    StyleNumberExactly(style);
    WrittenIsShort("AW25", size);
    SizeTexts(size);
    assert Letters(barcode[..5]) by {
      assert forall c <- barcode[..5] :: IsUpper(c);
    }
    LetteredDecodes(barcode[..5], style, size);
    assert barcode == barcode[..5] + style + "-" + size + "Y";
  }

  lemma NumericExactly(prefix: string, size: string, barcode: string)
    requires SizeWritten("SS26", size) && barcode == prefix + size
    ensures DecodePrefixed(barcode, prefix) == size
  {
    WrittenIsShort("SS26", size);
    SizeTexts(size);
    assert barcode[|prefix|..] == size;
  }

  lemma ResolvedIsPrescribed(season: string, style: string, barcode: string)
    requires Resolve(season, style, barcode) != ""
    ensures var size := Resolve(season, style, barcode);
            SevenOrEightDigits(style) && SizeWritten(season, size) && Prescribed(season, style, size, barcode)
  {
    var size := Resolve(season, style, barcode);
    StyleNumberExactly(style);
    SizeTexts(size);
    if season == "AW25" {
      LetteredIsBuilt(style, barcode);
      assert forall n | 0 <= n < 5 :: barcode[..5][n] in barcode[..5];
      assert barcode[5..] == style + "-" + size + "Y";
    } else {
      NumericIsBuilt(season, style, barcode);
    }
  }

  /**
   The size that is kept, exactly: a barcode resolves to a size if and only if the style has
   7 or 8 digits, the size is one of the twelve, and the barcode is the prescribed one.
   */
  lemma ResolvesExactly(season: string, style: string, barcode: string, size: string)
    requires size != ""
    ensures Resolve(season, style, barcode) == size <==>
              SevenOrEightDigits(style) && SizeWritten(season, size) && Prescribed(season, style, size, barcode)
  {
    StyleNumberExactly(style);
    if Resolve(season, style, barcode) == size {
      ResolvedIsPrescribed(season, style, barcode);
    }
    if SevenOrEightDigits(style) && SizeWritten(season, size) && Prescribed(season, style, size, barcode) {
      WrittenIsShort(season, size);
      SizeTexts(size);
      if season == "AW25" {
        LetteredExactly(style, size, barcode);
      } else {
        NumericExactly(if season == "AW26" then "3" + style else style, size, barcode);
      }
    }
  }

  // ---------------------------------------------------------------------------
  // Which conflicts
  // ---------------------------------------------------------------------------

  predicate SameBarcodeOtherKey(a: Record, b: Record) {
    && a.barcode == b.barcode
    && a.season + "|" + a.style + "|" + a.size != b.season + "|" + b.style + "|" + b.size
  }

  predicate SameKeyOtherBarcode(a: Record, b: Record) {
    a.size != "" && (a.season, a.style, a.size) == (b.season, b.style, b.size) && a.barcode != b.barcode
  }

  /** A barcode conflict: two records of one season, style and size with different barcodes. */
  lemma ConflictsExactly(rows: seq<Row>, c: Columns)
    ensures var records := Records(rows, c);
            AnyClash(Slots(records)) <==> exists a, b | a in records && b in records :: SameKeyOtherBarcode(a, b)
  {
    var records := Records(rows, c);
    ConflictIsTwoBarcodes(rows, c);
    if a, b :| a in records && b in records && SameKeyOtherBarcode(a, b) {
      assert TwoBarcodes(a, b);
    }
    if a, b :| a in records && b in records && TwoBarcodes(a, b) {
      assert SameKeyOtherBarcode(a, b);
    }
  }

  /** An ownership conflict: two records with one barcode that differ in season, style and size, written as one text. */
  lemma OwnersExactly(records: seq<Record>)
    ensures AnyClash(Holders(records)) <==> exists a, b | a in records && b in records :: SameBarcodeOtherKey(a, b)
  {
    if i, j :| 0 <= i < j < |records| && Clash(Holders(records)[i], Holders(records)[j]) {
      assert records[i] in records && records[j] in records && SameBarcodeOtherKey(records[i], records[j]);
    }
    if a, b :| a in records && b in records && SameBarcodeOtherKey(a, b) {
      SharedBarcodeClashes(records, a, b);
    }
  }

  /** A row is listed for a code exactly when a finding of that code names it. */
  lemma {:induction false} RowsOfExactly(findings: seq<Finding>, code: Code)
    ensures forall row :: row in RowsOf(findings, code) <==> Finding(code, row) in findings
  {
    if findings != [] {
      var before, last := findings[..|findings| - 1], findings[|findings| - 1];
      RowsOfExactly(before, code);
      assert findings == before + [last];
    }
  }

  // ---------------------------------------------------------------------------
  // Seasons
  // ---------------------------------------------------------------------------

  /** The character a season keeps of this one, if any. */
  function Kept(c: char): string {
    if c == '-' || IsSpace(c) then "" else if 'a' <= c <= 'z' then [(c as int - 32) as char] else [c]
  }

  /** A season is normalised character by character: hyphens and white space go, small letters become capitals. */
  lemma {:induction false} NormalizeSeasonExactly(s: string, c: char)
    ensures NormalizeSeason("") == "" && NormalizeSeason(s + [c]) == NormalizeSeason(s) + Kept(c)
  {
    if s == "" {
      assert "" + [c] == [c] && [c][1..] == "";
    } else {
      assert (s + [c])[1..] == s[1..] + [c];
      NormalizeSeasonExactly(s[1..], c);
    }
  }
}
