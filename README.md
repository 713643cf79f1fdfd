# Game-framework core of "Developing Games in Java", modelled in Dafny

This project models five pieces of the book's game framework and proves what
they promise:

- `GameObject` (chapter 13), the base class of every game entity. It has a
  lifecycle state (idle, active, destroyed), a decaying noise timer, a spawn
  queue that is handed over and dropped on each read, a jumping flag, and
  the floor and ceiling heights recorded for it. It is a Dafny class whose
  methods update its fields under `modifies` frames (`game_object.dfy`).
- The integer half of `MoreMath` (chapter 16) (`more_math.dfy`):
  - the masked look-up of the 4096-entry sine table, and `cos` as a shifted
    look-up in the same table;
  - `sign`;
  - the `n & (n - 1)` power-of-two test;
  - the shift loop that counts one bits.
- `ImageFont` (chapter 17), a bitmap font read from files `charNN.png`
  (`image_font.dfy`). Its parts are the file-name parser, the two-pass
  `load`, the glyph table look-up, the string width loop, and the anchored
  drawing of characters and strings.
- `GrabScreen.darkenImage` (chapter 15), which halves the colour channels of
  every pixel of an image in place (`grab_screen.dfy`).
- The `Player` record of chapter 15's `GameState` (`game_state.dfy`). It
  covers the one-byte "encryption" of the lives count written by
  `writeObject` and undone by `readObject`, and the `toString` texts.

`java_lang.dfy` (module `JavaLang`) holds what the Java language and library
bring to these classes:

- the integer widths, with their narrowing casts written out as wrap-around
  (`ToByte`, `ToShort`, `ToInt`, `ToLong`, `ToChar`);
- bitwise AND on `int`;
- division by two rounding toward zero;
- `Integer.parseInt` and `Integer.toString`;
- ASCII `toLowerCase`.

Where the model follows an overflow, Java `int` arithmetic is written as
unbounded arithmetic followed by the cast. This covers the angle arithmetic
of `sin` and `cos`, the `(char)` casts of `load` and the noise countdown.
The pixel sums of `stringWidth` and `drawString` and the table index
`unicodeValue - firstChar` are unbounded integers here (see "## Left out").

Code that changes state stays imperative:

- `GameObject`, `Player` and `ImageFont` are classes with `modifies` and
  `reads` frames.
- `darkenImage` is a nested loop over an `array2`.
- `getBitCount`, `stringWidth`, `drawString` and both passes of `load` are
  loops.

Each of them is proved against a specification function, and the source's
promises are proved as lemmas about those functions.

## Model

| member | source | states |
|---|---|---|
| Game.GameObject.constructor | allsrc/ch13src/src/com/brackeen/javagamebook/game/GameObject.java:58-62 | a new object keeps its polygon group and starts idle (neither active nor destroyed), not jumping, with heights 0, no noise and no spawn list |
| Game.GameObject.SetFloorHeight | allsrc/ch13src/src/com/brackeen/javagamebook/game/GameObject.java:134-136 | `getFloorHeight` afterwards returns the height set; no other field changes |
| Game.GameObject.SetCeilHeight | allsrc/ch13src/src/com/brackeen/javagamebook/game/GameObject.java:143-145 | `getCeilHeight` afterwards returns the height set; no other field changes |
| Game.GameObject.GetFloorHeight | allsrc/ch13src/src/com/brackeen/javagamebook/game/GameObject.java:151-153 | the floor height last set (see `SetFloorHeight`) |
| Game.GameObject.GetCeilHeight | allsrc/ch13src/src/com/brackeen/javagamebook/game/GameObject.java:159-161 | the ceiling height last set (see `SetCeilHeight`) |
| Game.GameObject.SetState | allsrc/ch13src/src/com/brackeen/javagamebook/game/GameObject.java:168-170 | the state becomes the given value, unchecked; no other field changes |
| Game.GameObject.SetStateOf | allsrc/ch13src/src/com/brackeen/javagamebook/game/GameObject.java:179-181 | the other object's state becomes the value; the caller's own state is untouched unless it is that object |
| Game.GameObject.IsFlying | allsrc/ch13src/src/com/brackeen/javagamebook/game/GameObject.java:189-191 | a base object never flies |
| Game.GameObject.IsJumping | allsrc/ch13src/src/com/brackeen/javagamebook/game/GameObject.java:199-201 | the jumping flag last set (see `SetJumping`) |
| Game.GameObject.SetJumping | allsrc/ch13src/src/com/brackeen/javagamebook/game/GameObject.java:208-210 | `isJumping` returns the flag set; no other field changes |
| Game.GameObject.IsIdle | allsrc/ch13src/src/com/brackeen/javagamebook/game/GameObject.java:216-218 | the state is `STATE_IDLE` |
| Game.GameObject.IsActive | allsrc/ch13src/src/com/brackeen/javagamebook/game/GameObject.java:224-226 | the state is `STATE_ACTIVE` |
| Game.GameObject.IsDestroyed | allsrc/ch13src/src/com/brackeen/javagamebook/game/GameObject.java:232-234 | the state is `STATE_DESTROYED` |
| Game.GameObject.IsMakingNoise | allsrc/ch13src/src/com/brackeen/javagamebook/game/GameObject.java:240-242 | some noise time is left |
| Game.GameObject.MakeNoise | allsrc/ch13src/src/com/brackeen/javagamebook/game/GameObject.java:250-254 | the noise becomes the larger of the old and the new duration, so it never shrinks |
| Game.GameObject.AddSpawn | allsrc/ch13src/src/com/brackeen/javagamebook/game/GameObject.java:261-266 | the object, `null` included, is appended to the pending spawns; the list exists afterwards and holds exactly the old spawns followed by the new one |
| Game.GameObject.GetSpawns | allsrc/ch13src/src/com/brackeen/javagamebook/game/GameObject.java:274-278 | returns the pending spawns in order, or null when there are none, and leaves no spawns behind |
| Game.GameObject.Update | allsrc/ch13src/src/com/brackeen/javagamebook/game/GameObject.java:286-293 | a sounding noise runs down by the elapsed time in `long` arithmetic and a silent one is kept; it falls silent once the time reaches it; the polygon group gets the tick exactly when the object is active; state and spawns are unchanged |
| Game.GameObject.NotifyVisible | allsrc/ch13src/src/com/brackeen/javagamebook/game/GameObject.java:302-306 | an idle object that is seen becomes active; every other state is kept |
| Game.PolygonGroup.Update | allsrc/ch13src/src/com/brackeen/javagamebook/game/GameObject.java:291 | the forwarded `update(elapsedTime)` call is recorded, in order |
| MoreMath.TableConstants | allsrc/ch16src/src/com/brackeen/javagamebook/util/MoreMath.java:10-13 | the table has 4096 entries, the mask is 4095 and a quarter turn is 1024 |
| MoreMath.SinIndex | allsrc/ch16src/src/com/brackeen/javagamebook/util/MoreMath.java:45-47 | the slot `angle & 4095` always lies within the table |
| MoreMath.SinIndexIsMod | allsrc/ch16src/src/com/brackeen/javagamebook/util/MoreMath.java:45-47 | the slot read is `angle mod 4096`, negative angles included |
| MoreMath.CosIndex | allsrc/ch16src/src/com/brackeen/javagamebook/util/MoreMath.java:36-38 | the cosine slot always lies within the table |
| MoreMath.CosIndexIsMod | allsrc/ch16src/src/com/brackeen/javagamebook/util/MoreMath.java:36-38 | the cosine slot is `(1024 - angle) mod 4096`, also where `HALF_PI - angle` overflows |
| MoreMath.Sin | allsrc/ch16src/src/com/brackeen/javagamebook/util/MoreMath.java:45-47 | `sin(angle)` is the table entry at `angle mod 4096`, negative angles included |
| MoreMath.Cos | allsrc/ch16src/src/com/brackeen/javagamebook/util/MoreMath.java:36-38 | `cos(angle)` is the table entry at `(1024 - angle) mod 4096`, a quarter turn back from `sin` |
| MoreMath.SinPeriodic | allsrc/ch16src/src/com/brackeen/javagamebook/util/MoreMath.java:45-47 | `sin(a + 4096) == sin(a)` for every `int` a, with wrap-around |
| MoreMath.CosPeriodic | allsrc/ch16src/src/com/brackeen/javagamebook/util/MoreMath.java:36-38 | `cos(a + 4096) == cos(a)` for every `int` a, with wrap-around |
| MoreMath.Sign | allsrc/ch16src/src/com/brackeen/javagamebook/util/MoreMath.java:63-83 | 1 exactly for positive, -1 exactly for negative and 0 exactly for zero `short`, `int` and `long` values |
| MoreMath.IsPowerOfTwo | allsrc/ch16src/src/com/brackeen/javagamebook/util/MoreMath.java:139-141 | the bit test `n & (n - 1) == 0` in `int` arithmetic; its meaning is stated by `IsPowerOfTwoMeaning` |
| MoreMath.IsPowerOfTwoMeaning | allsrc/ch16src/src/com/brackeen/javagamebook/util/MoreMath.java:139-141 | the test holds exactly for the positive powers of two, for 0, and for `Integer.MIN_VALUE` |
| MoreMath.PowerOfTwoHasOneBit | allsrc/ch16src/src/com/brackeen/javagamebook/util/MoreMath.java:139-154 | for positive n the test holds exactly when n has one bit set |
| MoreMath.GetBitCount | allsrc/ch16src/src/com/brackeen/javagamebook/util/MoreMath.java:147-154 | for non-negative n, the number of one bits among the 31 value bits of n; 0 for negative n; always within [0, 31] |
| GrabScreen.ShiftRightSigned | allsrc/ch15src/src/GrabScreen.java:80 | `>>` on an `int` shifts the low 31 bits right and keeps the sign bit |
| GrabScreen.Darken | allsrc/ch15src/src/GrabScreen.java:79-81 | a darkened pixel is at most 0x7F7F7F |
| GrabScreen.DarkenHalvesChannels | allsrc/ch15src/src/GrabScreen.java:80-81 | red, green and blue each become half their old value (rounded down), and alpha becomes 0 |
| GrabScreen.DarkenedChannelsBounded | allsrc/ch15src/src/GrabScreen.java:81 | every darkened channel is at most 127 |
| GrabScreen.DarkenIgnoresShiftKind | allsrc/ch15src/src/GrabScreen.java:80-81 | an unsigned shift would give the same pixel |
| GrabScreen.OnlyBlackIsFixed | allsrc/ch15src/src/GrabScreen.java:80-81 | darkening twice changes the pixel again, unless it is already black |
| GrabScreen.DarkenImage | allsrc/ch15src/src/GrabScreen.java:73-84 | every pixel of the width x height image becomes the darkened old pixel; the dimensions do not change |
| GameState.Encrypt | allsrc/ch15src/src/GameState.java:42-45 | the byte written is the low 8 bits of `-livesLeft` |
| GameState.Decrypt | allsrc/ch15src/src/GameState.java:47-50 | the count read back is minus the signed byte, so it lies in [-127, 128] and is congruent to minus the byte |
| GameState.RoundTrip | allsrc/ch15src/src/GameState.java:42-50 | reading back what was written restores the count exactly when it lies in [-127, 128] |
| GameState.RoundTripFromStream | allsrc/ch15src/src/GameState.java:42-50 | writing back what was read restores every byte |
| GameState.MinusOneTwentyEightComesBackPositive | allsrc/ch15src/src/GameState.java:44-49 | -128 is written as 0x80 and read back as 128 |
| GameState.SavedGameKeepsThreeLives | allsrc/ch15src/src/GameState.java:5 | the `new Player(3)` of a saved game keeps its 3 lives through the codec |
| GameState.Player.constructor | allsrc/ch15src/src/GameState.java:38-40 | stores `lives` narrowed to 16 bits |
| GameState.Player.WriteObject | allsrc/ch15src/src/GameState.java:42-45 | writes the encrypted byte and leaves the player unchanged |
| GameState.Player.ReadObject | allsrc/ch15src/src/GameState.java:47-50 | sets `livesLeft` to the decryption of the byte read |
| GameState.Player.ToString | allsrc/ch15src/src/GameState.java:52-55 | the text is exactly `Player[` + `Integer.toString(livesLeft)` + `]`, and the numeral between the brackets parses back to `livesLeft` |
| GameState.GameStateToString | allsrc/ch15src/src/GameState.java:28-31 | the text is `GameState[ ` + the player's text + ` ]` |
| JavaLang.ToByte | allsrc/ch15src/src/GameState.java:49 | `readByte` reads a byte as signed: the one `byte` congruent to its argument modulo 2^8, and the identity on `byte` values |
| JavaLang.ToInt | allsrc/ch16src/src/com/brackeen/javagamebook/util/MoreMath.java:37 | `int` arithmetic wraps: the one `int` congruent to the exact value modulo 2^32, and the identity on `int` values |
| JavaLang.ToLong | allsrc/ch13src/src/com/brackeen/javagamebook/game/GameObject.java:288 | `long` arithmetic wraps: the one `long` congruent to the exact value modulo 2^64, and the identity on `long` values |
| JavaLang.And32 | allsrc/ch16src/src/com/brackeen/javagamebook/util/MoreMath.java:46 | `&` on two `int`s, bit by bit on their two's-complement patterns; `SinIndexIsMod`, `IsPowerOfTwoMeaning` and `GetBitCount` state what it computes here |
| JavaLang.ToLowerCase | allsrc/ch17src/src/com/brackeen/javagamebook/graphics/ImageFont.java:107 | `toLowerCase` keeps the length and lower-cases each ASCII capital, leaving every other character alone |
| JavaLang.ToShort | allsrc/ch15src/src/GameState.java:39 | the `(short)` cast agrees with its argument modulo 2^16, and is the identity on `short` values |
| JavaLang.ToChar | allsrc/ch17src/src/com/brackeen/javagamebook/graphics/ImageFont.java:81-82 | the `(char)` cast agrees with its argument modulo 2^16, and is the identity on `char` values |
| JavaLang.ParseInt | allsrc/ch17src/src/com/brackeen/javagamebook/graphics/ImageFont.java:111 | `Integer.parseInt` succeeds exactly on an optional `+` or `-` followed by one or more decimal digits whose signed value fits in an `int`, and then gives that signed value; everything else, the empty text included, throws |
| JavaLang.IntToString | allsrc/ch15src/src/GameState.java:54 | `"" + n` is the canonical decimal numeral: digits without a leading zero (except `0` itself), preceded by `-` exactly when n is negative; `ParseIntOfToString` reads it back to n |
| JavaLang.ParseIntOfToString | allsrc/ch15src/src/GameState.java:54 | the decimal text of every `int` parses back to it |
| JavaLang.HalfTowardZero | allsrc/ch17src/src/com/brackeen/javagamebook/graphics/ImageFont.java:178 | `w / 2` rounds toward zero: twice the result is within one of w, on the side of zero |
| ImageFont.IsGlyphName | allsrc/ch17src/src/com/brackeen/javagamebook/graphics/ImageFont.java:108 | `name.startsWith("char") && name.endsWith(".png")` |
| ImageFont.GlyphNameIsLong | allsrc/ch17src/src/com/brackeen/javagamebook/graphics/ImageFont.java:108-110 | a name that starts with `char` and ends with `.png` has at least 8 characters, so the `substring` between them is always valid |
| ImageFont.GlyphNumber | allsrc/ch17src/src/com/brackeen/javagamebook/graphics/ImageFont.java:108-110 | the text between `char` and `.png`: the name is exactly `char`, that text and `.png` |
| ImageFont.UnicodeValue | allsrc/ch17src/src/com/brackeen/javagamebook/graphics/ImageFont.java:104-114 | a name not of the form `char*.png` (in any case) gives -1; a name of that form gives `parseInt` of the text between, so throws exactly when that text is not an `int` numeral |
| ImageFont.GlyphValueOf | allsrc/ch17src/src/com/brackeen/javagamebook/graphics/ImageFont.java:104-114 | a lower-case name `char` + t + `.png` gives `parseInt(t)` |
| ImageFont.LeadingZerosAreIgnored | allsrc/ch17src/src/com/brackeen/javagamebook/graphics/ImageFont.java:104-114 | `char0065.png` gives 65 |
| ImageFont.PlusSignUpperCase | allsrc/ch17src/src/com/brackeen/javagamebook/graphics/ImageFont.java:104-114 | `CHAR+7.PNG` gives 7 |
| ImageFont.MinusOneIsNoGlyph | allsrc/ch17src/src/com/brackeen/javagamebook/graphics/ImageFont.java:104-114 | `char-1.png` gives -1, the value `load` skips |
| ImageFont.LettersThrow | allsrc/ch17src/src/com/brackeen/javagamebook/graphics/ImageFont.java:104-114 | `charab.png` throws `NumberFormatException` |
| ImageFont.GlyphFileRoundTrip | allsrc/ch17src/src/com/brackeen/javagamebook/graphics/ImageFont.java:104-114 | the file named `char` + n + `.png` gives n, for every `int` n |
| ImageFont.UnicodeValueIgnoresCase | allsrc/ch17src/src/com/brackeen/javagamebook/graphics/ImageFont.java:107 | a name and its lower-case form give the same value |
| ImageFont.EmptyNumberThrows | allsrc/ch17src/src/com/brackeen/javagamebook/graphics/ImageFont.java:109-111 | `char.png` throws `NumberFormatException` |
| ImageFont.ScanCodePoints | allsrc/ch17src/src/com/brackeen/javagamebook/graphics/ImageFont.java:76-84 | the first loop as a function of the listing: starts at `MAX_VALUE`, `MIN_VALUE`, skips -1, and takes the `(char)` cast of the new minimum and maximum |
| ImageFont.ScanThrowsIff | allsrc/ch17src/src/com/brackeen/javagamebook/graphics/ImageFont.java:76-84 | the first pass throws exactly when some file name does not parse |
| ImageFont.ScanBoundsGlyphs | allsrc/ch17src/src/com/brackeen/javagamebook/graphics/ImageFont.java:76-84 | without wrap-around, every glyph's code point lies between the `minChar` and `maxChar` found |
| ImageFont.ScanAttainsBounds | allsrc/ch17src/src/com/brackeen/javagamebook/graphics/ImageFont.java:76-84 | when there is a glyph and every glyph code point is a `char` (`InCharRange`), `minChar` and `maxChar` are code points of glyphs |
| ImageFont.ScanBoundsWrapped | allsrc/ch17src/src/com/brackeen/javagamebook/graphics/ImageFont.java:76-84 | for any listing that parses, `minChar` is `MAX_VALUE` or the `(char)` cast of some glyph's code point, and `maxChar` is `MIN_VALUE` or such a cast |
| ImageFont.ScanOneCodePoint | allsrc/ch17src/src/com/brackeen/javagamebook/graphics/ImageFont.java:76-84 | when all glyphs share one code point v, the pass ends at its initial values or at the casts of `min(MAX_VALUE, v)` and `max(MIN_VALUE, v)` |
| ImageFont.ScanWithoutGlyphs | allsrc/ch17src/src/com/brackeen/javagamebook/graphics/ImageFont.java:76-84 | with no glyph the pass ends at `MAX_VALUE` and `MIN_VALUE` |
| ImageFont.FindCodePointRange | allsrc/ch17src/src/com/brackeen/javagamebook/graphics/ImageFont.java:76-84 | the first loop of `load` computes the scan specification `ScanCodePoints` |
| ImageFont.FillTable | allsrc/ch17src/src/com/brackeen/javagamebook/graphics/ImageFont.java:89-97 | the table keeps the length it was allocated with |
| ImageFont.IndexWrapAgrees | allsrc/ch17src/src/com/brackeen/javagamebook/graphics/ImageFont.java:93 | the wrapped `int` index `unicodeValue - firstChar` lies inside a table of at most 65536 slots exactly when the exact difference does |
| ImageFont.FillPlacesLastImage | allsrc/ch17src/src/com/brackeen/javagamebook/graphics/ImageFont.java:90-97 | when every glyph falls inside the table, the pass throws nothing and slot k holds the last glyph listed for `firstChar + k`, or nothing |
| ImageFont.LoadGlyphs | allsrc/ch17src/src/com/brackeen/javagamebook/graphics/ImageFont.java:90-97 | the second loop of `load` builds the table of the fill specification `FillTable` in place and throws what it throws |
| ImageFont.LoadEffectOf | allsrc/ch17src/src/com/brackeen/javagamebook/graphics/ImageFont.java:87-89 | a new table has length `maxChar - minChar + 1` |
| ImageFont.LoadThrowsOnBadName | allsrc/ch17src/src/com/brackeen/javagamebook/graphics/ImageFont.java:76-84 | a bad number in any name throws before the font is touched |
| ImageFont.LoadNeedsTwoCodePoints | allsrc/ch17src/src/com/brackeen/javagamebook/graphics/ImageFont.java:87-99 | when every name parses and there are fewer than two distinct code points, in the `char` range or not, `load` throws nothing and changes nothing |
| ImageFont.LoadBuildsTable | allsrc/ch17src/src/com/brackeen/javagamebook/graphics/ImageFont.java:76-97 | with two distinct code points, no bad name and no wrap-around: nothing is thrown, `firstChar` is the least code point, the table ends at the greatest, every glyph is in bounds, and each slot holds the last glyph listed for it |
| ImageFont.Lookup | allsrc/ch17src/src/com/brackeen/javagamebook/graphics/ImageFont.java:122-132 | a filled slot gives its image; an index below 0, past the end or at an empty slot gives the placeholder |
| ImageFont.LookupAfterLoad | allsrc/ch17src/src/com/brackeen/javagamebook/graphics/ImageFont.java:76-132 | after a successful `load`, each character shows the last glyph listed for it, and the placeholder when there is none |
| ImageFont.EmptyTableIsAllPlaceholder | allsrc/ch17src/src/com/brackeen/javagamebook/graphics/ImageFont.java:34-38 | the empty table of `new ImageFont()` maps every character to the 10-wide placeholder |
| ImageFont.ClearHorizontal | allsrc/ch17src/src/com/brackeen/javagamebook/graphics/ImageFont.java:184-185 | HCENTER and RIGHT are cleared and every other bit (LEFT, TOP, VCENTER, BOTTOM and the rest) is kept |
| ImageFont.Font.constructor | allsrc/ch17src/src/com/brackeen/javagamebook/graphics/ImageFont.java:34-38 | a font with `firstChar` 0 and an empty table |
| ImageFont.Font.Unloaded | allsrc/ch17src/src/com/brackeen/javagamebook/graphics/ImageFont.java:45-48 | the fields before `load` runs: `firstChar` 0 and no table |
| ImageFont.Font.Open | allsrc/ch17src/src/com/brackeen/javagamebook/graphics/ImageFont.java:45-57 | a null path gives a font without a table; otherwise the font holds what `load` left, or there is no font when `load` threw |
| ImageFont.Font.Load | allsrc/ch17src/src/com/brackeen/javagamebook/graphics/ImageFont.java:69-101 | throws what `LoadEffectOf` gives for the listing; when it gets to allocate, `firstChar` and a fresh table hold what the passes computed; otherwise the fields are unchanged |
| ImageFont.Font.GetImage | allsrc/ch17src/src/com/brackeen/javagamebook/graphics/ImageFont.java:122-132 | reading the array agrees with `Lookup` on its contents |
| ImageFont.Font.CharWidth | allsrc/ch17src/src/com/brackeen/javagamebook/graphics/ImageFont.java:150-152 | the glyph's width, or 10 for a character without a glyph |
| ImageFont.Font.CharHeight | allsrc/ch17src/src/com/brackeen/javagamebook/graphics/ImageFont.java:158-160 | the glyph's height, or 10 for a character without a glyph |
| ImageFont.Font.TextWidth | allsrc/ch17src/src/com/brackeen/javagamebook/graphics/ImageFont.java:138-144 | the sum of `charWidth` over the characters; `StringWidth` computes it |
| ImageFont.Font.TextWidthAppend | allsrc/ch17src/src/com/brackeen/javagamebook/graphics/ImageFont.java:138-144 | the width of a concatenation is the sum of the widths |
| ImageFont.Font.TextWidthOfPlaceholders | allsrc/ch17src/src/com/brackeen/javagamebook/graphics/ImageFont.java:138-160 | a text without glyphs is 10 pixels per character wide |
| ImageFont.Font.StringWidth | allsrc/ch17src/src/com/brackeen/javagamebook/graphics/ImageFont.java:138-144 | the loop returns the sum of the character widths, and 0 for the empty string |
| ImageFont.Font.DrawChar | allsrc/ch17src/src/com/brackeen/javagamebook/graphics/ImageFont.java:206-223 | HCENTER moves x left by half the width, else RIGHT puts the right edge at x; VCENTER moves y up by half the height, else BOTTOM puts the bottom edge at y; otherwise (x, y) is kept |
| ImageFont.Font.DrawCharDefault | allsrc/ch17src/src/com/brackeen/javagamebook/graphics/ImageFont.java:198-200 | with `LEFT | BOTTOM` the glyph's bottom-left corner is at (x, y) |
| ImageFont.Font.StartX | allsrc/ch17src/src/com/brackeen/javagamebook/graphics/ImageFont.java:177-182 | HCENTER starts half the string width left of x, else RIGHT makes the string end at x, otherwise it starts at x |
| ImageFont.Font.Placements | allsrc/ch17src/src/com/brackeen/javagamebook/graphics/ImageFont.java:188-191 | one placement per character |
| ImageFont.Font.PlacementAt | allsrc/ch17src/src/com/brackeen/javagamebook/graphics/ImageFont.java:188-191 | character i is drawn at the start plus the widths of the characters before it |
| ImageFont.Font.Layout | allsrc/ch17src/src/com/brackeen/javagamebook/graphics/ImageFont.java:174-192 | one `drawChar` per character |
| ImageFont.Font.LayoutAt | allsrc/ch17src/src/com/brackeen/javagamebook/graphics/ImageFont.java:174-192 | character i is drawn at the anchored start plus the widths before it, at the height `drawChar` gives it alone |
| ImageFont.Font.LayoutAbuts | allsrc/ch17src/src/com/brackeen/javagamebook/graphics/ImageFont.java:188-191 | each character starts where the previous one ends |
| ImageFont.Font.LayoutSpan | allsrc/ch17src/src/com/brackeen/javagamebook/graphics/ImageFont.java:177-191 | the first character starts at the anchored start and the last ends one string width later |
| ImageFont.Font.DrawString | allsrc/ch17src/src/com/brackeen/javagamebook/graphics/ImageFont.java:174-192 | draws exactly the layout: each character once, in order, at its position |
| ImageFont.Font.DrawStringDefault | allsrc/ch17src/src/com/brackeen/javagamebook/graphics/ImageFont.java:166-168 | with `LEFT | BOTTOM` the text starts at x and every glyph's bottom edge is at y |

## Left out

- The `GameObject` accessors that forward to the 3D library are not modelled: `getLocation`, `getX/Y/Z`, `getTransform`, `getPolygonGroup`, `getName` and `getBounds`. The polygon group is reduced to a log of the `update` calls it receives.
- The `GameObject` collision hooks (`notifyObjectCollision`, `notifyFloorCollision`, `notifyCeilingCollision`, `notifyWallCollision`) are empty and change nothing, so they are not modelled.
- `GameObject` floor and ceiling heights are Java `float`s that are only stored and returned; they are `real`s here.
- `Game.GameObject.Update` requires a polygon group when the object is active. The Java code throws `NullPointerException` there instead.
- The state is not checked against the three constants, in the code or in the model. A noise decays only while it is positive, so a finished noise can stay negative.
- The `MoreMath` parts built on floating point are not modelled: the values of the sine table (`Math.sin`), `angleConvert`, `ceil`, `floor`, and `sign(float)` / `sign(double)`. The table is an arbitrary sequence of 4096 reals.
- `MoreMath.Sign` takes a `long`; the `short` and `int` overloads widen to it without loss.
- `ImageFont` file handling is not modelled: the directory listing (`File.listFiles`) becomes a sequence of `FontFile`s in listing order, and `ImageIcon` loading becomes the image stored with each file. A path that is not a directory (where `listFiles` returns null) is not modelled.
- `ImageFont` drawing through `Graphics` is not modelled: `drawChar` and `drawString` return the `(char, x, y)` of each `drawImage` call instead of painting.
- `ImageFont.Font.Open` models an exception from `load` as no font being returned.
- `ImageFont.Font.TextWidth`, `ImageFont.Font.StringWidth`, `ImageFont.Font.DrawChar`, `ImageFont.Font.StartX` and `ImageFont.Font.Layout`: x, y and widths are unbounded integers, so the 32-bit wrap of Java `int` sums far beyond any screen is not modelled.
- `ImageFont.LoadBuildsTable`, `ImageFont.LookupAfterLoad`, `ImageFont.ScanAttainsBounds` and `ImageFont.ScanBoundsGlyphs` assume every code point found is a `char`. A negative number in a name, or one above 65535, wraps in the `(char)` casts. The model computes that wrap and the `IndexOutOfBounds` it leads to. For wrapped code points it proves what the bounds can be (`ScanBoundsWrapped`), what a single code point gives (`ScanOneCodePoint`) and that one code point leaves the font untouched (`LoadNeedsTwoCodePoints`), but not which table results.
- `ImageFont.FillTable` computes the index `unicodeValue - firstChar` without the `int` wrap. Nothing is lost: `IndexWrapAgrees` proves the wrapped index is out of bounds exactly when the exact one is.
- ScanAttainsBounds: holds only when every glyph's code point is a `char` (`InCharRange`). A lone `char70000.png` ends the pass at `minChar` 65535, no glyph's code point. Without that condition, `ScanBoundsWrapped` states what the bounds are.
- `ImageFont.UnicodeValue` and `JavaLang.ParseInt`: `toLowerCase` maps only the ASCII capitals, and `parseInt` reads only ASCII digits. Java also lower-cases and parses other Unicode letters and digits.
- `ImageFont.Font.GetImage` and the members that call it require a table. A font built from a path that held fewer than two distinct code points has none, and Java throws `NullPointerException` there.
- The rest of `GrabScreen` is not modelled: the `Robot` capture, JPEG writing, thumbnail scaling and the window. `getRGB` / `setRGB` are taken to store the packed colour unchanged; the colour-model conversion of a `BufferedImage` is not modelled.
- `GameState` serialization is not modelled: the object streams, `main`'s file I/O, and the `println` messages of `writeObject` and `readObject`. Only the byte each writes or reads is modelled.
