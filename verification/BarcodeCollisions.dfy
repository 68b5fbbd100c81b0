/**
 When correct barcodes are ambiguous: two texts for one size, and one barcode for two
 styles (apps/api/src/cli/master-source-normalization.ts:228-268).
 */
module BarcodeCollisions {
  import opened SourceText
  import opened BarcodeSource

  /** The record's size is what its barcode resolves to. */
  predicate Resolved(r: Record) {
    r.size == Resolve(r.season, r.style, r.barcode)
  }

  lemma {:induction false} RecordsResolved(rows: seq<Row>, c: Columns)
    ensures forall r <- Records(rows, c) :: Resolved(r)
  {
    if rows != [] {
      RecordsResolved(rows[..|rows| - 1], c);
    }
  }

  lemma NumberOfShort(x: string)
    requires AllDigits(x) && 1 <= |x| <= 2
    ensures IsDigit(x[0]) && IsDigit(x[|x| - 1])
    ensures NumberOf(x) == if |x| == 1 then x[0] as int - '0' as int
                           else (x[0] as int - '0' as int) * 10 + (x[1] as int - '0' as int)
  {
    assert x[0] in x && x[|x| - 1] in x;
    assert x[..1][..0] == "" && x[..1] == [x[0]];
  }

  /** Two sizes of one number are the same text exactly when they have the same length. */
  lemma SameNumberSameLength(x: string, y: string)
    requires AllDigits(x) && AllDigits(y) && 1 <= |x| <= 2 && 1 <= |y| <= 2 && NumberOf(x) == NumberOf(y)
    ensures x == y <==> |x| == |y|
  {
    NumberOfShort(x);
    NumberOfShort(y);
  }

  predicate Numeric(season: string) {
    season in {"SS26", "AW26"}
  }

  /** Outside AW25 a size has no leading zero, so its number gives the text back. */
  lemma NumericSizeIsItsText(season: string, style: string, barcode: string)
    requires Numeric(season) && Resolve(season, style, barcode) != ""
    ensures var size := Resolve(season, style, barcode); size == SizeText(NumberOf(size))
  {
    var size := Resolve(season, style, barcode);
    NumberOfShort(size);
    NumberOfShort(SizeText(NumberOf(size)));
  }

  // ---------------------------------------------------------------------------
  // Two texts for one size
  // ---------------------------------------------------------------------------

  /** Two records of one season, style and size, the size read as a number. */
  predicate SameNumber(a: Record, b: Record) {
    && a.size != "" && b.size != "" && AllDigits(a.size) && AllDigits(b.size)
    && a.season == b.season && a.style == b.style && NumberOf(a.size) == NumberOf(b.size)
  }

  /** Two AW25 records of one style and size, one of them written with a leading zero. */
  predicate SplitByZero(a: Record, b: Record) {
    SameNumber(a, b) && a.season == "AW25" && |a.size| != |b.size|
  }

  lemma SameNumberSameSize(a: Record, b: Record)
    requires Resolved(a) && Resolved(b) && SameNumber(a, b) && a.barcode != b.barcode && !SplitByZero(a, b)
    ensures TwoBarcodes(a, b)
  {
    if Numeric(a.season) {
      NumericSizeIsItsText(a.season, a.style, a.barcode);
      NumericSizeIsItsText(b.season, b.style, b.barcode);
    } else {
      SameNumberSameLength(a.size, b.size);
    }
  }

  /**
   The size is compared as text. So when no barcode conflict is reported, each season,
   style and size, read as a number, has one barcode exactly if no size of an AW25 style is
   written both with and without a leading zero.
   */
  lemma OneBarcodePerNumberExactly(rows: seq<Row>, c: Columns)
    requires !AnyClash(Slots(Records(rows, c)))
    ensures var records := Records(rows, c);
            (forall a, b | a in records && b in records && SameNumber(a, b) :: a.barcode == b.barcode) <==>
            (forall a, b | a in records && b in records :: !SplitByZero(a, b))
  {
    var records := Records(rows, c);
    RecordsResolved(rows, c);
    ConflictIsTwoBarcodes(rows, c);
    if forall a, b | a in records && b in records :: !SplitByZero(a, b) {
      forall a, b | a in records && b in records && SameNumber(a, b) ensures a.barcode == b.barcode {
        if a.barcode != b.barcode {
          SameNumberSameSize(a, b);
        }
      }
    }
    forall a, b | a in records && b in records && SplitByZero(a, b) ensures a.barcode != b.barcode {
      LetteredBarcode(a);
      LetteredBarcode(b);
    }
  }

  lemma {:induction false} TrimDigits(s: string)
    requires AllDigits(s)
    ensures Trim(s) == s
  {
    if s != "" {
      assert s[0] in s && s[|s| - 1] in s;
    }
  }

  function LetteredRow(number: nat, letters: string, style: string, size: string): Row {
    Row(number, [Text("AW25"), Text(style), Text(letters + style + "-" + size + "Y")])
  }

  lemma LetteredRecord(number: nat, letters: string, style: string, size: string)
    requires Letters(letters) && StyleNumber(style) && size in {"3", "03"}
    ensures RecordOf(LetteredRow(number, letters, style, size), Columns(0, 1, 2))
            == Record(number, "AW25", style, size, letters + style + "-" + size + "Y")
  {
    var r, c := LetteredRow(number, letters, style, size), Columns(0, 1, 2);
    TrimDigits(style);
    assert CellText(r, c.season) == "AW25" && Trim(CellText(r, c.style)) == style;
    NormalizedSeason();
    LetteredResolves(letters, style, size);
  }

  lemma NormalizedSeason()
    ensures NormalizeSeason("AW25") == "AW25"
  {
    assert "AW25"[1..] == "W25" && "W25"[1..] == "25" && "25"[1..] == "5" && "5"[1..] == "";
  }

  lemma LetteredResolves(letters: string, style: string, size: string)
    requires Letters(letters) && StyleNumber(style) && size in {"3", "03"}
    ensures Resolve("AW25", style, letters + style + "-" + size + "Y") == size
  {
    LetteredDecodes(letters, style, size);
    NumberOfShort(size);
  }

  lemma TwoRows(a: Row, b: Row, c: Columns)
    requires !Blank(a) && !Blank(b)
    ensures Records([a, b], c) == [RecordOf(a, c), RecordOf(b, c)]
  {
    assert [a, b][..1] == [a] && [a][..0] == [];
    assert Records([a], c) == [RecordOf(a, c)];
  }

  lemma ZeroSplits(a: Record, b: Record)
    requires a.season == b.season == "AW25" && a.style == b.style && AllDigits(a.style)
    requires a.size == "3" && b.size == "03" && a.barcode != b.barcode
    ensures SplitByZero(a, b) && Key(a) != Key(b)
  {
    NumberOfShort(a.size);
    NumberOfShort(b.size);
    if Key(a) == Key(b) {
      JoinedDigits(a.season, a.style, a.size, b.season, b.style, b.size);
    }
  }

  lemma NoClashOfTwo(a: Record, b: Record)
    requires a.barcode != b.barcode && Key(a) != Key(b)
    ensures !AnyClash(Slots([a, b])) && !AnyClash(Holders([a, b]))
  {
  }

  /** Such a sheet, for any AW25 style: two barcodes of one size, and no conflict of either kind. */
  lemma LeadingZeroHidesConflict(letters: string, style: string) returns (rows: seq<Row>, c: Columns)
    requires Letters(letters) && StyleNumber(style)
    ensures var records := Records(rows, c);
            && |records| == 2 && SplitByZero(records[0], records[1])
            && !AnyClash(Slots(records)) && !AnyClash(Holders(records))
  {
    c, rows := Columns(0, 1, 2), [LetteredRow(1, letters, style, "3"), LetteredRow(2, letters, style, "03")];
    LetteredRecord(1, letters, style, "3");
    LetteredRecord(2, letters, style, "03");
    assert rows[0].cells[0] in rows[0].cells && rows[1].cells[0] in rows[1].cells;
    TwoRows(rows[0], rows[1], c);
    var a, b := RecordOf(rows[0], c), RecordOf(rows[1], c);
    assert |a.barcode| != |b.barcode|;
    ZeroSplits(a, b);
    NoClashOfTwo(a, b);
  }

  // ---------------------------------------------------------------------------
  // One barcode for two styles
  // ---------------------------------------------------------------------------

  /** The longer prefix takes the leading 1 of a two-digit size: p13 is (p1)3, p14 is (p1)4. */
  predicate Shifted(p: string, x: nat, q: string, y: nat) {
    q == p + "1" && x >= 13 && x == y + 10
  }

  predicate Alike(p: string, x: nat, q: string, y: nat) {
    (p == q && x == y) || Shifted(p, x, q, y) || Shifted(q, y, p, x)
  }

  lemma SizeTextExactly(n: nat)
    requires 3 <= n <= 14
    ensures SizeText(n) == if n < 10 then [('0' as int + n) as char] else "1" + [('0' as int + n - 10) as char]
  {
  }

  lemma SplitAt(p: string, x: string, q: string, y: string)
    requires |p| == |q| && p + x == q + y
    ensures p == q && x == y
  {
    assert (p + x)[..|p|] == p && (q + y)[..|q|] == q;
    assert (p + x)[|p|..] == x && (q + y)[|q|..] == y;
  }

  lemma LongerPrefix(p: string, x: nat, q: string, y: nat)
    requires 3 <= x <= 14 && 3 <= y <= 14 && |p| < |q|
    ensures p + SizeText(x) == q + SizeText(y) <==> Shifted(p, x, q, y)
  {
    SizeTextExactly(x);
    SizeTextExactly(y);
    if p + SizeText(x) == q + SizeText(y) {
      assert |SizeText(x)| == 2 && |SizeText(y)| == 1;
      var last := SizeText(x)[1..];
      assert SizeText(x) == "1" + last && p + SizeText(x) == (p + "1") + last;
      SplitAt(p + "1", last, q, SizeText(y));
    }
    if Shifted(p, x, q, y) {
      assert p + SizeText(x) == p + "1" + SizeText(y);
    }
  }

  /** A prefix followed by a size is ambiguous in this one way. */
  lemma AlikeExactly(p: string, x: nat, q: string, y: nat)
    requires 3 <= x <= 14 && 3 <= y <= 14
    ensures p + SizeText(x) == q + SizeText(y) <==> Alike(p, x, q, y)
  {
    if |p| < |q| {
      LongerPrefix(p, x, q, y);
    } else if |q| < |p| {
      LongerPrefix(q, y, p, x);
    } else {
      if p + SizeText(x) == q + SizeText(y) {
        SplitAt(p, SizeText(x), q, SizeText(y));
        assert x == NumberOf(SizeText(x)) == NumberOf(SizeText(y)) == y;
      }
      assert |p + "1"| != |q| && |q + "1"| != |p|;
    }
  }

  /** Barcodes of one season are unambiguous between style numbers of one length, whatever the size texts. */
  lemma SameLengthIsUnambiguous(season: string, s: string, t: string, x: string, y: string)
    requires Numeric(season) && |s| == |t|
    ensures Build(season, "", s, x) == Build(season, "", t, y) <==> s == t && x == y
  {
    var p := if season == "AW26" then "3" else "";
    assert Build(season, "", s, x) == p + s + x && Build(season, "", t, y) == p + t + y;
    if p + s + x == p + t + y {
      SplitAt(p + s, x, p + t, y);
      SplitAt(p, s, p, t);
    }
  }

  /**
   Two documented barcodes of one numeric season are equal exactly when style and size are
   the same, or one style is the other with a 1 appended and takes over the 1 of size 13 or
   14. Among style numbers this needs a 7-digit and an 8-digit one.
   */
  lemma BuiltAlikeExactly(season: string, s: string, x: nat, t: string, y: nat)
    requires Numeric(season) && StyleNumber(s) && StyleNumber(t) && 3 <= x <= 14 && 3 <= y <= 14
    ensures Build(season, "", s, SizeText(x)) == Build(season, "", t, SizeText(y)) <==>
              || (s == t && x == y)
              || (|s| == 7 && |t| == 8 && Shifted(s, x, t, y))
              || (|s| == 8 && |t| == 7 && Shifted(t, y, s, x))
  {
    var p := if season == "AW26" then "3" else "";
    assert Build(season, "", s, SizeText(x)) == p + (s + SizeText(x));
    assert Build(season, "", t, SizeText(y)) == p + (t + SizeText(y));
    if Build(season, "", s, SizeText(x)) == Build(season, "", t, SizeText(y)) {
      SplitAt(p, s + SizeText(x), p, t + SizeText(y));
    }
    AlikeExactly(s, x, t, y);
  }

  /** Such a pair for every 7-digit style, in both seasons and both sizes. */
  lemma LengthsAreAmbiguous(season: string, s: string, x: nat)
    requires Numeric(season) && StyleNumber(s) && |s| == 7 && 13 <= x <= 14
    ensures StyleNumber(s + "1")
    ensures Build(season, "", s, SizeText(x)) == Build(season, "", s + "1", SizeText(x - 10))
  {
    BuiltAlikeExactly(season, s, x, s + "1", x - 10);
  }

  /** What a numeric barcode has before its size. */
  function Prefix(season: string, style: string): string {
    if season == "AW26" then "3" + style else style
  }

  lemma NumericBarcode(r: Record)
    requires Resolved(r) && r.size != "" && Numeric(r.season)
    ensures 3 <= NumberOf(r.size) <= 14 && r.barcode == Prefix(r.season, r.style) + SizeText(NumberOf(r.size))
    ensures r.barcode != "" && IsDigit(r.barcode[0])
  {
    var prefix := Prefix(r.season, r.style);
    NumericSizeIsItsText(r.season, r.style, r.barcode);
    assert r.barcode == prefix + r.barcode[|prefix|..];
    assert r.style[0] in r.style && r.barcode[0] == prefix[0];
  }

  lemma LetteredBarcode(r: Record)
    requires Resolved(r) && r.size != "" && r.season == "AW25"
    ensures r.barcode != "" && IsUpper(r.barcode[0])
    ensures var k := DigitsEnd(r.barcode, 5);
            5 < k < |r.barcode| && r.style == r.barcode[5..k] && r.size == r.barcode[k + 1..|r.barcode| - 1]
  {
    var k := DigitsEnd(r.barcode, 5);
    var tail := r.barcode[k + 1..];
    assert tail[..|tail| - 1] == r.barcode[k + 1..|r.barcode| - 1];
  }

  /** Both barcodes are correct, and they are the same although style or season differ. */
  predicate Confusable(a: Record, b: Record) {
    && Numeric(a.season) && Numeric(b.season) && AllDigits(a.size) && AllDigits(b.size)
    && var p, q, x, y := Prefix(a.season, a.style), Prefix(b.season, b.style), NumberOf(a.size), NumberOf(b.size);
       (p == q && x == y && a.season != b.season) || Shifted(p, x, q, y) || Shifted(q, y, p, x)
  }

  lemma NumericAlike(a: Record, b: Record)
    requires Resolved(a) && Resolved(b) && a.size != "" && b.size != "" && Numeric(a.season) && Numeric(b.season)
    ensures a.barcode == b.barcode <==>
              Alike(Prefix(a.season, a.style), NumberOf(a.size), Prefix(b.season, b.style), NumberOf(b.size))
  {
    NumericBarcode(a);
    NumericBarcode(b);
    AlikeExactly(Prefix(a.season, a.style), NumberOf(a.size), Prefix(b.season, b.style), NumberOf(b.size));
  }

  lemma SamePrefixSameKey(a: Record, b: Record)
    requires Resolved(a) && Resolved(b) && a.size != "" && b.size != "" && Numeric(a.season) && Numeric(b.season)
    ensures Key(a) == Key(b) <==>
              a.season == b.season && Prefix(a.season, a.style) == Prefix(b.season, b.style)
              && NumberOf(a.size) == NumberOf(b.size)
  {
    NumericSizeIsItsText(a.season, a.style, a.barcode);
    NumericSizeIsItsText(b.season, b.style, b.barcode);
    if Key(a) == Key(b) {
      KeyIsInjective(a, b);
    }
    if a.season == b.season && Prefix(a.season, a.style) == Prefix(b.season, b.style) {
      assert a.season == "AW26" ==> ("3" + a.style)[1..] == a.style && ("3" + b.style)[1..] == b.style;
    }
  }

  /** Two resolved records share a barcode under different keys exactly when they are confusable. */
  lemma ConfusableExactly(a: Record, b: Record)
    requires Resolved(a) && Resolved(b) && a.size != "" && b.size != ""
    ensures a.barcode == b.barcode && Key(a) != Key(b) <==> Confusable(a, b)
  {
    if Numeric(a.season) && Numeric(b.season) {
      NumericAlike(a, b);
      SamePrefixSameKey(a, b);
    } else {
      if Numeric(a.season) { NumericBarcode(a); } else { LetteredBarcode(a); }
      if Numeric(b.season) { NumericBarcode(b); } else { LetteredBarcode(b); }
    }
  }

  /** Two rows share a barcode, and at least the first one's size is unresolved. */
  predicate UnresolvedClash(a: Record, b: Record) {
    a.size == "" && a.barcode == b.barcode && Key(a) != Key(b)
  }

  /**
   An ownership conflict is reported exactly when two correct barcodes are confusable or a
   row without size shares its barcode with a row under another key.
   */
  lemma OwnershipConflictExactly(rows: seq<Row>, c: Columns)
    ensures var records := Records(rows, c);
            AnyClash(Holders(records)) <==>
              || (exists a, b :: a in records && b in records && a.size != "" && b.size != "" && Confusable(a, b))
              || (exists a, b :: a in records && b in records && UnresolvedClash(a, b))
  {
    var records := Records(rows, c);
    RecordsResolved(rows, c);
    if i, j :| 0 <= i < j < |records| && Clash(Holders(records)[i], Holders(records)[j]) {
      var a, b := records[i], records[j];
      if a.size != "" && b.size != "" {
        ConfusableExactly(a, b);
      } else {
        assert UnresolvedClash(a, b) || UnresolvedClash(b, a);
      }
    }
    if a, b :| a in records && b in records && a.size != "" && b.size != "" && Confusable(a, b) {
      ConfusableExactly(a, b);
      SharedBarcodeClashes(records, a, b);
    }
    if a, b :| a in records && b in records && UnresolvedClash(a, b) {
      SharedBarcodeClashes(records, a, b);
    }
  }

  lemma SharedBarcodeClashes(records: seq<Record>, a: Record, b: Record)
    requires a in records && b in records && a.barcode == b.barcode && Key(a) != Key(b)
    ensures AnyClash(Holders(records))
  {
    var i :| 0 <= i < |records| && records[i] == a;
    var j :| 0 <= j < |records| && records[j] == b;
    assert Clash(Holders(records)[i], Holders(records)[j]) && Clash(Holders(records)[j], Holders(records)[i]);
  }
}
