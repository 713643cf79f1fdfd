/**
  `ImageFont`: a bitmap font whose glyphs are the files `charNN.png` of a
  directory, `NN` being the decimal code point.  `load` scans the listing
  twice: once for the smallest and largest code point, once to put each
  glyph into a table indexed from the smallest.  A character without a glyph
  is drawn as a 10 x 10 placeholder.

  A directory is given as the sequence of its files in listing order, each
  with its name and the image `ImageIcon` would load from it; an image is
  reduced to its width and height.  Drawing returns where each glyph goes
  instead of painting it.
*/
module ImageFont {
  import opened JavaLang

  // Anchor flags.  They are Java `int`s; only their low bits are ever set.
  const HCenter: bv32 := 1
  const VCenter: bv32 := 2
  const Left: bv32 := 4
  const Right: bv32 := 8
  const Top: bv32 := 16
  const Bottom: bv32 := 32
  /** The anchor of the overloads that take none: (x, y) is the bottom-left corner. */
  const DefaultAnchor: bv32 := Left | Bottom

  /** An image, as far as the font looks at it. */
  datatype Image = Image(width: int, height: int)

  /** The red square drawn for characters without a glyph. */
  const InvalidCharacter := Image(10, 10)

  /** A directory entry: its name and the image stored in it. */
  datatype FontFile = FontFile(name: string, image: Image)

  /** One `g.drawImage(getImage(ch), x, y, null)` call. */
  datatype Placed = Placed(ch: Char16, x: int, y: int)

  // ---------------------------------------------------------------------
  // getUnicodeValue
  // ---------------------------------------------------------------------

  /** `name.startsWith("char") && name.endsWith(".png")`. */
  predicate IsGlyphName(name: string)
  {
    |name| >= 4 && name[..4] == "char" && name[|name| - 4..] == ".png"
  }

  /** The prefix and the suffix never overlap, so the text between them exists. */
  lemma GlyphNameIsLong(name: string)
    requires IsGlyphName(name)
    ensures |name| >= 8
  {
    var k := |name| - 4;
    assert name[k] == name[|name| - 4..][0] == '.';
    assert forall i :: 0 <= i < 4 ==> name[i] == "char"[i];
  }

  /** The text between `char` and `.png`, which `getUnicodeValue` hands to `parseInt`. */
  function GlyphNumber(name: string): (digits: string)
    requires IsGlyphName(name)
    ensures name == "char" + digits + ".png"
  {
    GlyphNameIsLong(name);
    var digits := name[4..|name| - 4];
    assert name == name[..4] + digits + name[|name| - 4..];
    digits
  }

  /**
    `getUnicodeValue(file)`: -1 for a file that is not named `char*.png`
    (ignoring case), otherwise `Integer.parseInt` of the text in between.
  */
  function UnicodeValue(fileName: string): (r: ParsedInt)
    ensures !IsGlyphName(ToLowerCase(fileName)) ==> r == Parsed(-1)
    ensures IsGlyphName(ToLowerCase(fileName)) ==> r == ParseInt(GlyphNumber(ToLowerCase(fileName)))
    ensures r.NumberFormatException? ==> IsGlyphName(ToLowerCase(fileName))
  {
    var name := ToLowerCase(fileName);
    if IsGlyphName(name) then
      ParseInt(GlyphNumber(name))
    else
      Parsed(-1)
  }

  /** A lower-case name `char` + digits + `.png` gives `parseInt` of the digits. */
  lemma GlyphValueOf(name: string, digits: string)
    requires name == "char" + digits + ".png" && ToLowerCase(name) == name
    ensures UnicodeValue(name) == ParseInt(digits)
  {
    assert name[..4] == "char" && name[|name| - 4..] == ".png";
    assert name[4..|name| - 4] == digits;
  }

  /** Leading zeros are read as a decimal number. */
  lemma LeadingZerosAreIgnored()
    ensures UnicodeValue("char0065.png") == Parsed(65)
  {
    var name := "char0065.png";
    assert forall i :: 0 <= i < |name| ==> LowerChar(name[i]) == name[i];
    GlyphValueOf(name, "0065");
    assert "0065"[..3] == "006" && "006"[..2] == "00" && "00"[..1] == "0" && "0"[..0] == "";
  }

  /** A leading `+` is accepted, and the name may be in upper case. */
  lemma PlusSignUpperCase()
    ensures UnicodeValue("CHAR+7.PNG") == Parsed(7)
  {
    var name := "char+7.png";
    assert ToLowerCase("CHAR+7.PNG") == name;
    assert forall i :: 0 <= i < |name| ==> LowerChar(name[i]) == name[i];
    GlyphValueOf(name, "+7");
    assert "+7"[1..] == "7" && "7"[..0] == "";
  }

  /** `char-1.png` parses to -1, the value `load` takes for "not a glyph". */
  lemma MinusOneIsNoGlyph()
    ensures UnicodeValue("char-1.png") == Parsed(-1)
  {
    var name := "char-1.png";
    assert forall i :: 0 <= i < |name| ==> LowerChar(name[i]) == name[i];
    GlyphValueOf(name, "-1");
    assert "-1"[1..] == "1" && "1"[..0] == "";
  }

  /** Letters between `char` and `.png` make `parseInt` throw. */
  lemma LettersThrow()
    ensures UnicodeValue("charab.png") == NumberFormatException
  {
    var name := "charab.png";
    assert forall i :: 0 <= i < |name| ==> LowerChar(name[i]) == name[i];
    GlyphValueOf(name, "ab");
    assert !IsDigit("ab"[0]);
  }

  /** The file `"char" + n + ".png"` holds the glyph of code point `n`, for every `int` n. */
  lemma GlyphFileRoundTrip(n: Int32)
    ensures UnicodeValue("char" + IntToString(n) + ".png") == Parsed(n)
  {
    var digits := IntToString(n);
    var name := "char" + digits + ".png";
    IntToStringIsLower(n);
    assert ToLowerCase(name) == name;
    assert name[..4] == "char";
    assert name[|name| - 4..] == ".png";
    assert name[4..|name| - 4] == digits;
    ParseIntOfToString(n);
  }

  /** A decimal numeral is left alone by `toLowerCase`. */
  lemma IntToStringIsLower(n: int)
    ensures ToLowerCase(IntToString(n)) == IntToString(n)
  {
    var s := IntToString(n);
    if n < 0 {
      NatToDecimalValue(-n);
      assert forall i :: 1 <= i < |s| ==> s[i] == NatToDecimal(-n)[i - 1];
    } else {
      NatToDecimalValue(n);
    }
  }

  /** The name is matched without regard to the case of its letters. */
  lemma UnicodeValueIgnoresCase(fileName: string)
    ensures UnicodeValue(fileName) == UnicodeValue(ToLowerCase(fileName))
  {
    assert ToLowerCase(ToLowerCase(fileName)) == ToLowerCase(fileName);
  }

  /** `"char.png"` has an empty number, which `parseInt` rejects. */
  lemma EmptyNumberThrows()
    ensures UnicodeValue("char.png") == NumberFormatException
  {
    assert ToLowerCase("char.png") == "char.png";
    assert "char.png"[4..4] == "";
  }

  // ---------------------------------------------------------------------
  // load
  // ---------------------------------------------------------------------

  /** What `load` learns from one file: `getUnicodeValue` of its name, and its image. */
  datatype Entry = Entry(value: ParsedInt, image: Image)

  /** The listing as `load` sees it, file by file. */
  function Entries(files: seq<FontFile>): (entries: seq<Entry>)
    ensures |entries| == |files|
    ensures forall i :: 0 <= i < |files| ==> entries[i] == Entry(UnicodeValue(files[i].name), files[i].image)
  {
    seq(|files|, i requires 0 <= i < |files| => Entry(UnicodeValue(files[i].name), files[i].image))
  }

  /** A file that `load` takes as a glyph: a parseable name whose value is not -1. */
  predicate IsGlyph(f: Entry)
  {
    f.value.Parsed? && f.value.value != -1
  }

  function CodePoint(f: Entry): int
    requires IsGlyph(f)
  {
    f.value.value
  }

  /** No name makes `parseInt` throw. */
  predicate AllParse(entries: seq<Entry>)
  {
    forall i :: 0 <= i < |entries| ==> entries[i].value.Parsed?
  }

  /** Every glyph's code point is a `char`, so the `(char)` casts of `load` lose nothing. */
  predicate InCharRange(entries: seq<Entry>)
  {
    forall i :: 0 <= i < |entries| && IsGlyph(entries[i]) ==> 0 <= CodePoint(entries[i]) <= 0xFFFF
  }

  /** The outcome of the first loop: its final `minChar` and `maxChar`, or the exception. */
  datatype Scan = Range(minChar: Char16, maxChar: Char16) | ScanThrew

  /** First loop of `load` over the entries before the end of `entries`. */
  function ScanCodePoints(entries: seq<Entry>): Scan
    decreases |entries|
  {
    if |entries| == 0 then Range(0xFFFF, 0)
    else
      match ScanCodePoints(entries[..|entries| - 1])
      case ScanThrew => ScanThrew
      case Range(lo, hi) =>
        match entries[|entries| - 1].value
        case NumberFormatException => ScanThrew
        case Parsed(v) =>
          if v == -1 then Range(lo, hi)
          else Range(ToChar(if lo <= v then lo else v), ToChar(if hi >= v then hi else v))
  }

  /** The first loop throws exactly when some name does not parse. */
  lemma {:induction false} ScanThrowsIff(entries: seq<Entry>)
    ensures ScanCodePoints(entries) == ScanThrew <==> !AllParse(entries)
    decreases |entries|
  {
    if |entries| > 0 {
      var front := entries[..|entries| - 1];
      ScanThrowsIff(front);
      assert forall i :: 0 <= i < |front| ==> front[i] == entries[i];
    }
  }

  function Min(a: int, b: int): int { if a <= b then a else b }
  function Max(a: int, b: int): int { if a >= b then a else b }

  /** One step of the first loop, when no name throws and no code point wraps. */
  lemma ScanStep(entries: seq<Entry>)
    requires |entries| > 0 && AllParse(entries) && InCharRange(entries)
    ensures AllParse(entries[..|entries| - 1]) && InCharRange(entries[..|entries| - 1])
    ensures ScanCodePoints(entries[..|entries| - 1]).Range? && ScanCodePoints(entries).Range?
    ensures var r0, r, f := ScanCodePoints(entries[..|entries| - 1]), ScanCodePoints(entries), entries[|entries| - 1];
      if IsGlyph(f) then r == Range(Min(r0.minChar, CodePoint(f)), Max(r0.maxChar, CodePoint(f))) else r == r0
  {
    var front := entries[..|entries| - 1];
    assert forall i :: 0 <= i < |front| ==> front[i] == entries[i];
    ScanThrowsIff(front);
  }

  /** Without wrap-around every glyph lies between the bounds the first loop finds. */
  lemma {:induction false} ScanBoundsGlyphs(entries: seq<Entry>)
    requires AllParse(entries) && InCharRange(entries)
    ensures ScanCodePoints(entries).Range?
    ensures var r := ScanCodePoints(entries);
      forall i :: 0 <= i < |entries| && IsGlyph(entries[i]) ==> r.minChar <= CodePoint(entries[i]) <= r.maxChar
    decreases |entries|
  {
    ScanThrowsIff(entries);
    if |entries| > 0 {
      var front := entries[..|entries| - 1];
      ScanStep(entries);
      ScanBoundsGlyphs(front);
      assert forall i :: 0 <= i < |front| ==> front[i] == entries[i];
    }
  }

  /** Without wrap-around both bounds are code points of glyphs, when there is a glyph at all. */
  lemma {:induction false} ScanAttainsBounds(entries: seq<Entry>, k: int)
    requires AllParse(entries) && InCharRange(entries)
    requires 0 <= k < |entries| && IsGlyph(entries[k])
    ensures ScanCodePoints(entries).Range?
    ensures exists i :: 0 <= i < |entries| && IsGlyph(entries[i]) && CodePoint(entries[i]) == ScanCodePoints(entries).minChar
    ensures exists j :: 0 <= j < |entries| && IsGlyph(entries[j]) && CodePoint(entries[j]) == ScanCodePoints(entries).maxChar
    decreases |entries|
  {
    var n := |entries| - 1;
    var front := entries[..n];
    ScanStep(entries);
    assert forall i :: 0 <= i < |front| ==> front[i] == entries[i];
    var r0 := ScanCodePoints(front);
    var r := ScanCodePoints(entries);
    if k' :| 0 <= k' < n && IsGlyph(front[k']) {
      ScanAttainsBounds(front, k');
      var i :| 0 <= i < n && IsGlyph(front[i]) && CodePoint(front[i]) == r0.minChar;
      var j :| 0 <= j < n && IsGlyph(front[j]) && CodePoint(front[j]) == r0.maxChar;
      if r.minChar == r0.minChar {
        assert CodePoint(entries[i]) == r.minChar;
      } else {
        assert CodePoint(entries[n]) == r.minChar;
      }
      if r.maxChar == r0.maxChar {
        assert CodePoint(entries[j]) == r.maxChar;
      } else {
        assert CodePoint(entries[n]) == r.maxChar;
      }
    } else {
      assert k == n;
      ScanWithoutGlyphs(front);
      assert CodePoint(entries[n]) == r.minChar == r.maxChar;
    }
  }

  /**
    Without the char-range condition the bounds still come from the listing:
    each is its initial value or the `(char)` cast of some glyph's code point.
  */
  lemma {:induction false} ScanBoundsWrapped(entries: seq<Entry>)
    requires AllParse(entries)
    ensures ScanCodePoints(entries).Range?
    ensures var r := ScanCodePoints(entries);
      r.minChar == 0xFFFF || exists i :: 0 <= i < |entries| && IsGlyph(entries[i]) && r.minChar == ToChar(CodePoint(entries[i]))
    ensures var r := ScanCodePoints(entries);
      r.maxChar == 0 || exists j :: 0 <= j < |entries| && IsGlyph(entries[j]) && r.maxChar == ToChar(CodePoint(entries[j]))
    decreases |entries|
  {
    ScanThrowsIff(entries);
    if |entries| > 0 {
      var n := |entries| - 1;
      var front := entries[..n];
      assert forall i :: 0 <= i < |front| ==> front[i] == entries[i];
      ScanBoundsWrapped(front);
      var r0 := ScanCodePoints(front);
      var r := ScanCodePoints(entries);
      var f := entries[n];
      if IsGlyph(f) {
        var v := CodePoint(f);
        if r0.minChar > v {
          assert r.minChar == ToChar(CodePoint(entries[n]));
        } else if r0.minChar != 0xFFFF {
          var i :| 0 <= i < n && IsGlyph(front[i]) && r0.minChar == ToChar(CodePoint(front[i]));
          assert r.minChar == ToChar(CodePoint(entries[i]));
        }
        if r0.maxChar < v {
          assert r.maxChar == ToChar(CodePoint(entries[n]));
        } else if r0.maxChar != 0 {
          var j :| 0 <= j < n && IsGlyph(front[j]) && r0.maxChar == ToChar(CodePoint(front[j]));
          assert r.maxChar == ToChar(CodePoint(entries[j]));
        }
      } else {
        if r0.minChar != 0xFFFF {
          var i :| 0 <= i < n && IsGlyph(front[i]) && r0.minChar == ToChar(CodePoint(front[i]));
          assert r.minChar == ToChar(CodePoint(entries[i]));
        }
        if r0.maxChar != 0 {
          var j :| 0 <= j < n && IsGlyph(front[j]) && r0.maxChar == ToChar(CodePoint(front[j]));
          assert r.maxChar == ToChar(CodePoint(entries[j]));
        }
      }
    }
  }

  /**
    When every glyph has the same code point v, in the char range or not, the
    first loop ends with its initial values or with the `(char)` casts of
    `min(MAX_VALUE, v)` and `max(MIN_VALUE, v)`.
  */
  lemma {:induction false} ScanOneCodePoint(entries: seq<Entry>, v: int)
    requires AllParse(entries)
    requires forall i :: 0 <= i < |entries| && IsGlyph(entries[i]) ==> CodePoint(entries[i]) == v
    ensures ScanCodePoints(entries) == Range(0xFFFF, 0) ||
            ScanCodePoints(entries) == Range(ToChar(Min(0xFFFF, v)), ToChar(Max(0, v)))
    decreases |entries|
  {
    if |entries| > 0 {
      var front := entries[..|entries| - 1];
      assert forall i :: 0 <= i < |front| ==> front[i] == entries[i];
      ScanOneCodePoint(front, v);
    }
  }

  /** With no glyph at all the first loop ends with its initial values. */
  lemma {:induction false} ScanWithoutGlyphs(entries: seq<Entry>)
    requires AllParse(entries)
    requires forall i :: 0 <= i < |entries| ==> !IsGlyph(entries[i])
    ensures ScanCodePoints(entries) == Range(0xFFFF, 0)
    decreases |entries|
  {
    if |entries| > 0 {
      var front := entries[..|entries| - 1];
      assert forall i :: 0 <= i < |front| ==> front[i] == entries[i];
      ScanWithoutGlyphs(front);
    }
  }

  /** Why `load` may stop short: the `parseInt` exception or an index outside the table. */
  datatype LoadError = NumberFormat | IndexOutOfBounds

  /** The table the second loop has built (as far as it got) and what it threw, if anything. */
  datatype Filled = Filled(table: seq<Option<Image>>, thrown: Option<LoadError>)

  /** Second loop of `load` over `entries`, writing into a fresh table of the given length. */
  function FillTable(length: nat, firstChar: int, entries: seq<Entry>): (r: Filled)
    ensures |r.table| == length
    decreases |entries|
  {
    if |entries| == 0 then Filled(seq(length, _ => None), None)
    else
      var before := FillTable(length, firstChar, entries[..|entries| - 1]);
      if before.thrown.Some? then before
      else
        var f := entries[|entries| - 1];
        match f.value
        case NumberFormatException => Filled(before.table, Some(NumberFormat))
        case Parsed(v) =>
          if v == -1 then before
          else
            var index := v - firstChar;
            if 0 <= index < length then Filled(before.table[index := Some(f.image)], None)
            else Filled(before.table, Some(IndexOutOfBounds))
  }

  /**
    `unicodeValue - firstChar` is an `int` subtraction in Java and may wrap;
    the wrapped index is inside a table of at most 65536 slots exactly when
    the exact difference is, so the second loop can use the exact one.
  */
  lemma IndexWrapAgrees(v: Int32, firstChar: Char16, length: nat)
    requires length <= 0x1_0000
    ensures 0 <= ToInt(v - firstChar) < length <==> 0 <= v - firstChar < length
  {
    var d := v - firstChar;
    if d < MinInt32 {
      ToIntNear(d);
    }
  }

  /** The independent reading of the table: the image of the last glyph listed for `c`. */
  function LastImageFor(entries: seq<Entry>, c: int): Option<Image>
    decreases |entries|
  {
    if |entries| == 0 then None
    else
      var f := entries[|entries| - 1];
      if IsGlyph(f) && CodePoint(f) == c then Some(f.image)
      else LastImageFor(entries[..|entries| - 1], c)
  }

  /** A code point with no glyph file has no image. */
  lemma {:induction false} LastImageForAbsent(entries: seq<Entry>, c: int)
    requires forall i :: 0 <= i < |entries| && IsGlyph(entries[i]) ==> CodePoint(entries[i]) != c
    ensures LastImageFor(entries, c) == None
    decreases |entries|
  {
    if |entries| > 0 {
      var front := entries[..|entries| - 1];
      assert forall i :: 0 <= i < |front| ==> front[i] == entries[i];
      LastImageForAbsent(front, c);
    }
  }

  /**
    When every name parses and every glyph falls inside the table, the second
    loop throws nothing and slot k holds the last glyph listed for
    `firstChar + k`, or nothing.
  */
  lemma {:induction false} FillPlacesLastImage(length: nat, firstChar: int, entries: seq<Entry>)
    requires AllParse(entries)
    requires forall i :: 0 <= i < |entries| && IsGlyph(entries[i]) ==> 0 <= CodePoint(entries[i]) - firstChar < length
    ensures FillTable(length, firstChar, entries).thrown == None
    ensures forall k :: 0 <= k < length ==> FillTable(length, firstChar, entries).table[k] == LastImageFor(entries, firstChar + k)
    decreases |entries|
  {
    if |entries| > 0 {
      var front := entries[..|entries| - 1];
      assert forall i :: 0 <= i < |front| ==> front[i] == entries[i];
      FillPlacesLastImage(length, firstChar, front);
    }
  }

  /** Once the first loop has thrown, the rest of the listing is never looked at. */
  lemma {:induction false} PrefixScanThrew(entries: seq<Entry>, n: nat)
    requires n <= |entries| && ScanCodePoints(entries[..n]) == ScanThrew
    ensures ScanCodePoints(entries) == ScanThrew
    decreases |entries| - n
  {
    if n < |entries| {
      assert entries[..n + 1][..n] == entries[..n];
      PrefixScanThrew(entries, n + 1);
    } else {
      assert entries[..n] == entries;
    }
  }

  /** Once the second loop has thrown, the rest of the listing is never looked at. */
  lemma {:induction false} PrefixFillThrew(length: nat, firstChar: int, entries: seq<Entry>, n: nat)
    requires n <= |entries| && FillTable(length, firstChar, entries[..n]).thrown.Some?
    ensures FillTable(length, firstChar, entries) == FillTable(length, firstChar, entries[..n])
    decreases |entries| - n
  {
    if n < |entries| {
      assert entries[..n + 1][..n] == entries[..n];
      PrefixFillThrew(length, firstChar, entries, n + 1);
    } else {
      assert entries[..n] == entries;
    }
  }

  /** What `load(entries)` leaves behind: the new `firstChar` and table if it got that far, and its exception. */
  datatype LoadEffect = LoadEffect(table: Option<(Char16, seq<Option<Image>>)>, thrown: Option<LoadError>)

  function LoadEffectOf(entries: seq<Entry>): (e: LoadEffect)
    ensures e.table.Some? ==> ScanCodePoints(entries).Range? && |e.table.value.1| == ScanCodePoints(entries).maxChar - ScanCodePoints(entries).minChar + 1
  {
    match ScanCodePoints(entries)
    case ScanThrew => LoadEffect(None, Some(NumberFormat))
    case Range(lo, hi) =>
      if lo < hi then
        var filled := FillTable(hi - lo + 1, lo, entries);
        LoadEffect(Some((lo, filled.table)), filled.thrown)
      else
        LoadEffect(None, None)
  }

  /** A name that does not parse makes `load` throw before it touches the font. */
  lemma LoadThrowsOnBadName(entries: seq<Entry>)
    requires !AllParse(entries)
    ensures LoadEffectOf(entries) == LoadEffect(None, Some(NumberFormat))
  {
    ScanThrowsIff(entries);
  }

  /** Fewer than two distinct code points: `load` changes nothing. */
  lemma LoadNeedsTwoCodePoints(entries: seq<Entry>)
    requires AllParse(entries)
    requires forall i, j :: 0 <= i < |entries| && 0 <= j < |entries| && IsGlyph(entries[i]) && IsGlyph(entries[j]) ==>
               CodePoint(entries[i]) == CodePoint(entries[j])
    ensures LoadEffectOf(entries) == LoadEffect(None, None)
  {
    ScanThrowsIff(entries);
    if k :| 0 <= k < |entries| && IsGlyph(entries[k]) {
      ScanOneCodePoint(entries, CodePoint(entries[k]));
    } else {
      ScanWithoutGlyphs(entries);
    }
  }

  /**
    Two distinct code points, no bad name, no wrap-around: `load` throws
    nothing, `firstChar` is the least code point, the table runs up to the
    greatest, and each slot holds the last glyph listed for its character.
  */
  lemma LoadBuildsTable(entries: seq<Entry>, i: int, j: int)
    requires AllParse(entries) && InCharRange(entries)
    requires 0 <= i < |entries| && 0 <= j < |entries| && IsGlyph(entries[i]) && IsGlyph(entries[j])
    requires CodePoint(entries[i]) != CodePoint(entries[j])
    ensures var e := LoadEffectOf(entries);
      e.thrown == None && e.table.Some? &&
      (forall k :: 0 <= k < |entries| && IsGlyph(entries[k]) ==> e.table.value.0 <= CodePoint(entries[k]) < e.table.value.0 + |e.table.value.1|) &&
      (exists k :: 0 <= k < |entries| && IsGlyph(entries[k]) && CodePoint(entries[k]) == e.table.value.0) &&
      (exists k :: 0 <= k < |entries| && IsGlyph(entries[k]) && CodePoint(entries[k]) == e.table.value.0 + |e.table.value.1| - 1) &&
      (forall k :: 0 <= k < |e.table.value.1| ==> e.table.value.1[k] == LastImageFor(entries, e.table.value.0 + k))
  {
    ScanBoundsGlyphs(entries);
    ScanAttainsBounds(entries, i);
    var r := ScanCodePoints(entries);
    assert r.minChar < r.maxChar;
    FillPlacesLastImage(r.maxChar - r.minChar + 1, r.minChar, entries);
  }

  /** One round of the first loop: the range so far and the next file give the new range. */
  function ScanNext(r: Scan, f: Entry): Scan
  {
    match r
    case ScanThrew => ScanThrew
    case Range(lo, hi) =>
      match f.value
      case NumberFormatException => ScanThrew
      case Parsed(v) =>
        if v == -1 then Range(lo, hi)
        else Range(ToChar(if lo <= v then lo else v), ToChar(if hi >= v then hi else v))
  }

  lemma ScanPrefix(entries: seq<Entry>, i: int)
    requires 0 <= i < |entries|
    ensures ScanCodePoints(entries[..i + 1]) == ScanNext(ScanCodePoints(entries[..i]), entries[i])
  {
    assert entries[..i + 1][..i] == entries[..i];
  }

  /** One round of the second loop, once nothing has been thrown. */
  function FillNext(before: seq<Option<Image>>, firstChar: int, f: Entry): Filled
  {
    match f.value
    case NumberFormatException => Filled(before, Some(NumberFormat))
    case Parsed(v) =>
      if v == -1 then Filled(before, None)
      else
        var index := v - firstChar;
        if 0 <= index < |before| then Filled(before[index := Some(f.image)], None)
        else Filled(before, Some(IndexOutOfBounds))
  }

  lemma FillPrefix(length: nat, firstChar: int, entries: seq<Entry>, i: int)
    requires 0 <= i < |entries| && FillTable(length, firstChar, entries[..i]).thrown == None
    ensures FillTable(length, firstChar, entries[..i + 1]) == FillNext(FillTable(length, firstChar, entries[..i]).table, firstChar, entries[i])
  {
    assert entries[..i + 1][..i] == entries[..i];
  }

  /** The first loop of `load`: the least and greatest code point among the files. */
  method FindCodePointRange(files: seq<FontFile>) returns (scan: Scan)
    ensures scan == ScanCodePoints(Entries(files))
  {
    ghost var entries := Entries(files);
    var minChar: Char16 := 0xFFFF;
    var maxChar: Char16 := 0;
    for i := 0 to |files|
      invariant ScanCodePoints(entries[..i]) == Range(minChar, maxChar)
    {
      ScanPrefix(entries, i);
      var unicodeValue := UnicodeValue(files[i].name);
      assert unicodeValue == entries[i].value;
      if unicodeValue.NumberFormatException? {
        PrefixScanThrew(entries, i + 1);
        return ScanThrew;
      }
      if unicodeValue.value != -1 {
        minChar := ToChar(if minChar <= unicodeValue.value then minChar else unicodeValue.value);
        maxChar := ToChar(if maxChar >= unicodeValue.value then maxChar else unicodeValue.value);
      }
    }
    assert entries[..|entries|] == entries;
    scan := Range(minChar, maxChar);
  }

  /** The second loop of `load`: each glyph goes into slot `value - firstChar` of the fresh table. */
  method LoadGlyphs(files: seq<FontFile>, firstChar: Char16, characters: array<Option<Image>>) returns (thrown: Option<LoadError>)
    requires forall k :: 0 <= k < characters.Length ==> characters[k] == None
    modifies characters
    ensures characters[..] == FillTable(characters.Length, firstChar, Entries(files)).table
    ensures thrown == FillTable(characters.Length, firstChar, Entries(files)).thrown
  {
    ghost var entries := Entries(files);
    var length := characters.Length;
    assert characters[..] == FillTable(length, firstChar, []).table;
    for i := 0 to |files|
      invariant characters[..] == FillTable(length, firstChar, entries[..i]).table
      invariant FillTable(length, firstChar, entries[..i]).thrown == None
    {
      FillPrefix(length, firstChar, entries, i);
      var unicodeValue := UnicodeValue(files[i].name);
      assert unicodeValue == entries[i].value;
      if unicodeValue.NumberFormatException? {
        PrefixFillThrew(length, firstChar, entries, i + 1);
        return Some(NumberFormat);
      }
      if unicodeValue.value != -1 {
        var index := unicodeValue.value - firstChar;
        if !(0 <= index < length) {
          PrefixFillThrew(length, firstChar, entries, i + 1);
          return Some(IndexOutOfBounds);
        }
        characters[index] := Some(files[i].image);
      }
    }
    assert entries[..|entries|] == entries;
    thrown := None;
  }

  // ---------------------------------------------------------------------
  // getImage
  // ---------------------------------------------------------------------

  /** Slot `ch - firstChar` exists and is filled. */
  predicate HasGlyph(firstChar: int, table: seq<Option<Image>>, ch: Char16)
  {
    0 <= ch - firstChar < |table| && table[ch - firstChar].Some?
  }

  /** `getImage` on a table given as a value. */
  function Lookup(firstChar: int, table: seq<Option<Image>>, ch: Char16): (img: Image)
    ensures HasGlyph(firstChar, table, ch) ==> img == table[ch - firstChar].value
    ensures !HasGlyph(firstChar, table, ch) ==> img == InvalidCharacter
  {
    var index := ch - firstChar;
    if index < 0 || index >= |table| || table[index].None? then InvalidCharacter else table[index].value
  }

  /** After a successful `load`, every character shows its last listed glyph, and the placeholder otherwise. */
  lemma LookupAfterLoad(entries: seq<Entry>, i: int, j: int, ch: Char16)
    requires AllParse(entries) && InCharRange(entries)
    requires 0 <= i < |entries| && 0 <= j < |entries| && IsGlyph(entries[i]) && IsGlyph(entries[j])
    requires CodePoint(entries[i]) != CodePoint(entries[j])
    ensures LoadEffectOf(entries).table.Some?
    ensures var t := LoadEffectOf(entries).table.value;
      Lookup(t.0, t.1, ch) == match LastImageFor(entries, ch) case Some(img) => img case None => InvalidCharacter
  {
    LoadBuildsTable(entries, i, j);
    var t := LoadEffectOf(entries).table.value;
    if !(0 <= ch - t.0 < |t.1|) {
      LastImageForAbsent(entries, ch);
    }
  }

  /** The table of `new ImageFont()` is empty, so every character is the placeholder. */
  lemma EmptyTableIsAllPlaceholder(firstChar: int, ch: Char16)
    ensures Lookup(firstChar, [], ch) == InvalidCharacter && Lookup(firstChar, [], ch).width == 10
  {
  }

  // ---------------------------------------------------------------------
  // The font object
  // ---------------------------------------------------------------------

  /** `anchor &= ~HCENTER; anchor &= ~RIGHT;`: the horizontal flags cleared, as `drawString` does before drawing the characters. */
  function ClearHorizontal(anchor: bv32): (a: bv32)
    ensures a & HCenter == 0 && a & Right == 0
    ensures a & VCenter == anchor & VCenter && a & Bottom == anchor & Bottom
    ensures a & !(HCenter | Right) == anchor & !(HCenter | Right)
  {
    anchor & !HCenter & !Right
  }

  class Font {
    var firstChar: Char16
    /** null only while a font made from a path finds fewer than two code points. */
    var characters: array?<Option<Image>>

    /** `new ImageFont()`: no glyphs. */
    constructor ()
      ensures firstChar == 0 && characters != null && characters[..] == []
    {
      firstChar := 0;
      characters := new Option<Image>[0];
    }

    /** The fields of `new ImageFont(path)` before `load` runs. */
    constructor Unloaded()
      ensures firstChar == 0 && characters == null
    {
      firstChar := 0;
      characters := null;
    }

    /**
      `new ImageFont(path)`, with the directory listing standing for the path.
      An exception from `load` means no font is returned.
    */
    static method Open(path: Option<seq<FontFile>>) returns (font: Font?, thrown: Option<LoadError>)
      ensures path.None? ==> thrown == None
      ensures path.Some? ==> thrown == LoadEffectOf(Entries(path.value)).thrown
      ensures thrown.Some? <==> font == null
      ensures font != null ==> fresh(font)
      ensures font != null && (path.None? || LoadEffectOf(Entries(path.value)).table.None?) ==>
                font.firstChar == 0 && font.characters == null
      ensures font != null && path.Some? && LoadEffectOf(Entries(path.value)).table.Some? ==>
                font.firstChar == LoadEffectOf(Entries(path.value)).table.value.0 && font.characters != null &&
                font.characters[..] == LoadEffectOf(Entries(path.value)).table.value.1
    {
      var f := new Font.Unloaded();
      thrown := None;
      if path.Some? {
        thrown := f.Load(path.value);
      }
      font := if thrown.None? then f else null;
    }

    /** `load(path)`, run on the listing of the directory. */
    method Load(files: seq<FontFile>) returns (thrown: Option<LoadError>)
      modifies this
      ensures thrown == LoadEffectOf(Entries(files)).thrown
      ensures LoadEffectOf(Entries(files)).table.None? ==> firstChar == old(firstChar) && characters == old(characters)
      ensures LoadEffectOf(Entries(files)).table.Some? ==>
                firstChar == LoadEffectOf(Entries(files)).table.value.0 && characters != null && fresh(characters) &&
                characters[..] == LoadEffectOf(Entries(files)).table.value.1
    {
      ghost var entries := Entries(files);
      var scan := FindCodePointRange(files);
      if scan.ScanThrew? {
        return Some(NumberFormat);
      }
      thrown := None;
      if scan.minChar < scan.maxChar {
        firstChar := scan.minChar;
        var length := scan.maxChar - scan.minChar + 1;
        characters := new Option<Image>[length](_ => None);
        thrown := LoadGlyphs(files, firstChar, characters);
      }
    }

    function GetImage(ch: Char16): (img: Image)
      reads this, characters
      requires characters != null
      ensures img == Lookup(firstChar, characters[..], ch)
    {
      var index := ch - firstChar;
      if index < 0 || index >= characters.Length || characters[index].None? then InvalidCharacter
      else characters[index].value
    }

    function CharWidth(ch: Char16): (w: int)
      reads this, characters
      requires characters != null
      ensures !HasGlyph(firstChar, characters[..], ch) ==> w == 10
      ensures HasGlyph(firstChar, characters[..], ch) ==> w == characters[ch - firstChar].value.width
    {
      GetImage(ch).width
    }

    function CharHeight(ch: Char16): (h: int)
      reads this, characters
      requires characters != null
      ensures !HasGlyph(firstChar, characters[..], ch) ==> h == 10
      ensures HasGlyph(firstChar, characters[..], ch) ==> h == characters[ch - firstChar].value.height
    {
      GetImage(ch).height
    }

    /** The sum of the character widths of `s`. */
    function TextWidth(s: seq<Char16>): int
      reads this, characters
      requires characters != null
      decreases |s|
    {
      if |s| == 0 then 0 else TextWidth(s[..|s| - 1]) + CharWidth(s[|s| - 1])
    }

    /** Widths add up over concatenation. */
    lemma {:induction false} TextWidthAppend(s: seq<Char16>, t: seq<Char16>)
      requires characters != null
      ensures TextWidth(s + t) == TextWidth(s) + TextWidth(t)
      decreases |t|
    {
      if |t| > 0 {
        var t' := t[..|t| - 1];
        assert (s + t)[..|s + t| - 1] == s + t';
        TextWidthAppend(s, t');
      } else {
        assert s + t == s;
      }
    }

    /** A text with no glyphs is 10 pixels per character wide. */
    lemma {:induction false} TextWidthOfPlaceholders(s: seq<Char16>)
      requires characters != null
      requires forall i :: 0 <= i < |s| ==> !HasGlyph(firstChar, characters[..], s[i])
      ensures TextWidth(s) == 10 * |s|
      decreases |s|
    {
      if |s| > 0 {
        TextWidthOfPlaceholders(s[..|s| - 1]);
      }
    }

    /** `stringWidth(s)`. */
    method StringWidth(s: seq<Char16>) returns (width: int)
      requires characters != null
      ensures width == TextWidth(s)
      ensures |s| == 0 ==> width == 0
    {
      width := 0;
      for i := 0 to |s|
        invariant width == TextWidth(s[..i])
      {
        assert s[..i + 1][..i] == s[..i];
        width := width + CharWidth(s[i]);
      }
      assert s[..|s|] == s;
    }

    /**
      `drawChar(g, ch, x, y, anchor)`: (x, y) moves left by the whole or half
      width for RIGHT or HCENTER, and up by the whole or half height for
      BOTTOM or VCENTER; the centring flag wins over the edge flag.
    */
    function DrawChar(ch: Char16, x: int, y: int, anchor: bv32): (p: Placed)
      reads this, characters
      requires characters != null
      ensures p.ch == ch
      ensures anchor & HCenter != 0 ==> p.x == x - HalfTowardZero(CharWidth(ch))
      ensures anchor & HCenter == 0 && anchor & Right != 0 ==> p.x + CharWidth(ch) == x
      ensures anchor & HCenter == 0 && anchor & Right == 0 ==> p.x == x
      ensures anchor & VCenter != 0 ==> p.y == y - HalfTowardZero(CharHeight(ch))
      ensures anchor & VCenter == 0 && anchor & Bottom != 0 ==> p.y + CharHeight(ch) == y
      ensures anchor & VCenter == 0 && anchor & Bottom == 0 ==> p.y == y
    {
      var x' := if anchor & HCenter != 0 then x - HalfTowardZero(CharWidth(ch))
                else if anchor & Right != 0 then x - CharWidth(ch)
                else x;
      var y' := if anchor & VCenter != 0 then y - HalfTowardZero(CharHeight(ch))
                else if anchor & Bottom != 0 then y - CharHeight(ch)
                else y;
      Placed(ch, x', y')
    }

    /** `drawChar(g, ch, x, y)`: the glyph's bottom-left corner is at (x, y). */
    function DrawCharDefault(ch: Char16, x: int, y: int): (p: Placed)
      reads this, characters
      requires characters != null
      ensures p == Placed(ch, x, y - CharHeight(ch))
    {
      DrawChar(ch, x, y, DefaultAnchor)
    }

    /** The x at which `drawString` starts, before the first character. */
    function StartX(s: seq<Char16>, x: int, anchor: bv32): (start: int)
      reads this, characters
      requires characters != null
      ensures anchor & HCenter != 0 ==> start == x - HalfTowardZero(TextWidth(s))
      ensures anchor & HCenter == 0 && anchor & Right != 0 ==> start + TextWidth(s) == x
      ensures anchor & HCenter == 0 && anchor & Right == 0 ==> start == x
    {
      if anchor & HCenter != 0 then x - HalfTowardZero(TextWidth(s))
      else if anchor & Right != 0 then x - TextWidth(s)
      else x
    }

    /** The three cases of the start x, in the order `drawString` tests the flags. */
    lemma StartXCases(s: seq<Char16>, x: int, anchor: bv32)
      requires characters != null
      ensures StartX(s, x, anchor) == if anchor & HCenter != 0 then x - HalfTowardZero(TextWidth(s))
                                      else if anchor & Right != 0 then x - TextWidth(s)
                                      else x
    {
    }

    /** The characters of `s` drawn one after another from `start`, each advancing by its width. */
    function Placements(s: seq<Char16>, start: int, y: int, anchor: bv32): (ps: seq<Placed>)
      reads this, characters
      requires characters != null
      ensures |ps| == |s|
      decreases |s|
    {
      if |s| == 0 then []
      else
        var n := |s| - 1;
        Placements(s[..n], start, y, anchor) + [DrawChar(s[n], start + TextWidth(s[..n]), y, anchor)]
    }

    /** Drawing one more character appends it where the text drawn so far ends. */
    lemma PlacementsStep(s: seq<Char16>, start: int, y: int, anchor: bv32, i: int, left: int)
      requires characters != null
      requires 0 <= i < |s| && left == start + TextWidth(s[..i])
      ensures left + CharWidth(s[i]) == start + TextWidth(s[..i + 1])
      ensures Placements(s[..i + 1], start, y, anchor) == Placements(s[..i], start, y, anchor) + [DrawChar(s[i], left, y, anchor)]
    {
      assert s[..i + 1][..i] == s[..i];
    }

    /** Character i is drawn at the start plus the widths of the characters before it. */
    lemma {:induction false} PlacementAt(s: seq<Char16>, start: int, y: int, anchor: bv32, i: int)
      requires characters != null
      requires 0 <= i < |s|
      ensures Placements(s, start, y, anchor)[i] == DrawChar(s[i], start + TextWidth(s[..i]), y, anchor)
      decreases |s|
    {
      var n := |s| - 1;
      if i < n {
        PlacementAt(s[..n], start, y, anchor, i);
        assert s[..n][..i] == s[..i];
      }
    }

    /** Everything `drawString(g, s, x, y, anchor)` draws, in order. */
    function Layout(s: seq<Char16>, x: int, y: int, anchor: bv32): (ps: seq<Placed>)
      reads this, characters
      requires characters != null
      ensures |ps| == |s|
    {
      Placements(s, StartX(s, x, anchor), y, ClearHorizontal(anchor))
    }

    /**
      Character i is drawn at the anchored start plus the widths of the
      characters before it, and at the height `drawChar` alone would give it.
    */
    lemma LayoutAt(s: seq<Char16>, x: int, y: int, anchor: bv32, i: int)
      requires characters != null
      requires 0 <= i < |s|
      ensures Layout(s, x, y, anchor)[i] == Placed(s[i], StartX(s, x, anchor) + TextWidth(s[..i]), DrawChar(s[i], x, y, anchor).y)
    {
      PlacementAt(s, StartX(s, x, anchor), y, ClearHorizontal(anchor), i);
    }

    /** The characters abut: each starts where the previous one ends. */
    lemma LayoutAbuts(s: seq<Char16>, x: int, y: int, anchor: bv32, i: int)
      requires characters != null
      requires 0 <= i < |s| - 1
      ensures Layout(s, x, y, anchor)[i + 1].x == Layout(s, x, y, anchor)[i].x + CharWidth(s[i])
    {
      LayoutAt(s, x, y, anchor, i);
      LayoutAt(s, x, y, anchor, i + 1);
      assert s[..i + 1][..i] == s[..i];
    }

    /**
      The text spans the whole string width from its start: left-aligned at
      x, right-aligned so that it ends at x, or centred on x.
    */
    lemma LayoutSpan(s: seq<Char16>, x: int, y: int, anchor: bv32)
      requires characters != null
      requires |s| > 0
      ensures Layout(s, x, y, anchor)[0].x == StartX(s, x, anchor)
      ensures Layout(s, x, y, anchor)[|s| - 1].x + CharWidth(s[|s| - 1]) == StartX(s, x, anchor) + TextWidth(s)
    {
      LayoutAt(s, x, y, anchor, 0);
      LayoutAt(s, x, y, anchor, |s| - 1);
      assert s[..|s|] == s;
    }

    /** `drawString(g, s, x, y, anchor)`. */
    method DrawString(s: seq<Char16>, x: int, y: int, anchor: bv32) returns (placed: seq<Placed>)
      requires characters != null
      ensures placed == Layout(s, x, y, anchor)
    {
      var left := x;
      var flags := anchor;
      if flags & HCenter != 0 {
        var width := StringWidth(s);
        left := left - HalfTowardZero(width);
      } else if flags & Right != 0 {
        var width := StringWidth(s);
        left := left - width;
      }
      StartXCases(s, x, anchor);
      flags := ClearHorizontal(flags);
      ghost var start := left;
      ghost var cleared := ClearHorizontal(anchor);
      assert flags == cleared && start == StartX(s, x, anchor);
      placed := [];
      for i := 0 to |s|
        invariant placed == Placements(s[..i], start, y, flags)
        invariant left == start + TextWidth(s[..i])
      {
        PlacementsStep(s, start, y, flags, i, left);
        placed := placed + [DrawChar(s[i], left, y, flags)];
        left := left + CharWidth(s[i]);
      }
      assert s[..|s|] == s;
    }

    /** `drawString(g, s, x, y)`: the default anchor, so the text's bottom-left corner is at (x, y). */
    method DrawStringDefault(s: seq<Char16>, x: int, y: int) returns (placed: seq<Placed>)
      requires characters != null
      ensures placed == Layout(s, x, y, DefaultAnchor)
      ensures |s| > 0 ==> placed[0].x == x
      ensures forall i :: 0 <= i < |s| ==> placed[i].y + CharHeight(s[i]) == y
    {
      placed := DrawString(s, x, y, DefaultAnchor);
      forall i | 0 <= i < |s|
        ensures placed[i].y + CharHeight(s[i]) == y
      {
        LayoutAt(s, x, y, DefaultAnchor, i);
      }
      if |s| > 0 {
        LayoutSpan(s, x, y, DefaultAnchor);
      }
    }
  }
}
