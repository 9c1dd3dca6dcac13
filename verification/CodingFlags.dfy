/** The bit-field structs of Source/GSCodingFlags.h, each declared once for machines that
    allocate fields from the top bit down and once for those that allocate from the bottom
    up, and the words they share a union with. */
module CodingFlags {

  datatype Field = F(name: string, width: nat)

  /** The declarations for big-endian and for little-endian machines. */
  datatype Layouts = Layouts(high: seq<Field>, low: seq<Field>)

  function Pow(n: nat): (p: nat)
    ensures p > 0
  {
    if n == 0 then 1 else 2 * Pow(n - 1)
  }

  function Width(fields: seq<Field>): nat {
    if fields == [] then 0 else fields[0].width + Width(fields[1..])
  }

  /** The values fit their fields. */
  predicate Fits(fields: seq<Field>, values: seq<nat>) {
    |values| == |fields| && forall i :: 0 <= i < |fields| ==> values[i] < Pow(fields[i].width)
  }

  /** The word, when the first field takes the top bits. */
  function PackHigh(fields: seq<Field>, values: seq<nat>): nat
    requires |values| == |fields|
  {
    if fields == [] then 0 else values[0] * Pow(Width(fields[1..])) + PackHigh(fields[1..], values[1..])
  }

  /** The word, when the first field takes the bottom bits. */
  function PackLow(fields: seq<Field>, values: seq<nat>): nat
    requires |values| == |fields|
  {
    if fields == [] then 0 else values[0] + Pow(fields[0].width) * PackLow(fields[1..], values[1..])
  }

  function Quotient(word: nat, k: nat): nat
    requires k > 0
  {
    word / k
  }

  function Remainder(word: nat, k: nat): nat
    requires k > 0
  {
    word % k
  }

  function UnpackLow(fields: seq<Field>, word: nat): (values: seq<nat>)
    ensures |values| == |fields|
  {
    if fields == [] then []
    else [Remainder(word, Pow(fields[0].width))] + UnpackLow(fields[1..], Quotient(word, Pow(fields[0].width)))
  }

  function Reverse<T>(s: seq<T>): (r: seq<T>)
    ensures |r| == |s|
  {
    seq(|s|, i requires 0 <= i < |s| => s[|s| - 1 - i])
  }

  /** Where field `i` starts, counted from the bottom bit. */
  function StartHigh(fields: seq<Field>, i: nat): nat
    requires i < |fields|
  {
    Width(fields[i + 1..])
  }

  function StartLow(fields: seq<Field>, i: nat): nat
    requires i < |fields|
  {
    Width(fields[..i])
  }

  // ---- the two allocations agree on mirrored declarations

  lemma {:induction false} WidthAppend(a: seq<Field>, b: seq<Field>)
    ensures Width(a + b) == Width(a) + Width(b)
    decreases |a|
  {
    if a == [] {
      assert a + b == b;
    } else {
      assert (a + b)[1..] == a[1..] + b;
      WidthAppend(a[1..], b);
    }
  }

  lemma {:induction false} WidthReverse(fields: seq<Field>)
    ensures Width(Reverse(fields)) == Width(fields)
    decreases |fields|
  {
    if fields != [] {
      assert Reverse(fields) == Reverse(fields[1..]) + [fields[0]];
      WidthAppend(Reverse(fields[1..]), [fields[0]]);
      WidthReverse(fields[1..]);
      assert [fields[0]][1..] == [] && Width([fields[0]]) == fields[0].width;
    }
  }

  /** Every field starts at the same bit under both allocations. */
  lemma SamePosition(fields: seq<Field>, i: nat)
    requires i < |fields|
    ensures StartLow(Reverse(fields), |fields| - 1 - i) == StartHigh(fields, i)
    ensures Reverse(fields)[|fields| - 1 - i] == fields[i]
  {
    assert Reverse(fields)[..|fields| - 1 - i] == Reverse(fields[i + 1..]);
    WidthReverse(fields[i + 1..]);
  }

  lemma Associate(a: nat, b: nat, c: nat)
    ensures a * (b * c) == (a * b) * c
  {}

  lemma {:induction false} PowAdd(m: nat, n: nat)
    ensures Pow(m + n) == Pow(m) * Pow(n)
    decreases m
  {
    if m > 0 {
      PowAdd(m - 1, n);
      Associate(2, Pow(m - 1), Pow(n));
    }
  }

  lemma {:induction false} PackLowSnoc(fields: seq<Field>, f: Field, values: seq<nat>, x: nat)
    requires |values| == |fields|
    ensures PackLow(fields + [f], values + [x]) == PackLow(fields, values) + Pow(Width(fields)) * x
    decreases |fields|
  {
    if fields == [] {
      assert ([f])[1..] == [] && ([x])[1..] == [] && fields + [f] == [f] && values + [x] == [x];
      assert PackLow([f], [x]) == x + Pow(f.width) * PackLow([], []);
    } else {
      assert (fields + [f])[1..] == fields[1..] + [f] && (values + [x])[1..] == values[1..] + [x];
      PackLowSnoc(fields[1..], f, values[1..], x);
      PowAdd(fields[0].width, Width(fields[1..]));
      Distribute(Pow(fields[0].width), PackLow(fields[1..], values[1..]), Pow(Width(fields[1..])), x);
    }
  }

  lemma Distribute(k: nat, a: nat, b: nat, c: nat)
    ensures k * (a + b * c) == k * a + (k * b) * c
  {}

  /** A field list packed from the top is the reversed list packed from the bottom: the word
      does not depend on the machine. */
  lemma {:induction false} LayoutIndependent(fields: seq<Field>, values: seq<nat>)
    requires |values| == |fields|
    ensures PackLow(Reverse(fields), Reverse(values)) == PackHigh(fields, values)
    decreases |fields|
  {
    hide Pow;
    hide Width;
    if fields != [] {
      assert Reverse(fields) == Reverse(fields[1..]) + [fields[0]];
      assert Reverse(values) == Reverse(values[1..]) + [values[0]];
      PackLowSnoc(Reverse(fields[1..]), fields[0], Reverse(values[1..]), values[0]);
      LayoutIndependent(fields[1..], values[1..]);
      WidthReverse(fields[1..]);
    }
  }

  // ---- packing and unpacking

  lemma Product(k: nat, a: nat, b: nat)
    ensures a <= b ==> k * a <= k * b
    ensures k * (a + 1) == k * a + k
  {}

  lemma DivMod(a: nat, b: nat, k: nat)
    requires a < k
    ensures Remainder(a + k * b, k) == a && Quotient(a + k * b, k) == b
  {
    var q, r := (a + k * b) / k, (a + k * b) % k;
    assert k * q + r == a + k * b;
    Product(k, b, q);
    Product(k, q, b);
    Product(k, b + 1, q);
    Product(k, q + 1, b);
  }

  lemma Division(word: nat, k: nat)
    requires k > 0
    ensures word == Remainder(word, k) + k * Quotient(word, k) && Remainder(word, k) < k
  {}

  /** Unpacking what was packed gives the values back. */
  lemma {:induction false} UnpackPack(fields: seq<Field>, values: seq<nat>)
    requires Fits(fields, values)
    ensures UnpackLow(fields, PackLow(fields, values)) == values
    decreases |fields|
  {
    if fields != [] {
      DivMod(values[0], PackLow(fields[1..], values[1..]), Pow(fields[0].width));
      UnpackPack(fields[1..], values[1..]);
    }
  }

  /** Packing what was unpacked gives the word back, if the fields cover it. */
  lemma {:induction false} PackUnpack(fields: seq<Field>, word: nat)
    requires word < Pow(Width(fields))
    ensures Fits(fields, UnpackLow(fields, word)) && PackLow(fields, UnpackLow(fields, word)) == word
    decreases |fields|
  {
    hide Quotient;
    hide Remainder;
    if fields != [] {
      var k := Pow(fields[0].width);
      PowAdd(fields[0].width, Width(fields[1..]));
      QuotientBound(word, k, Pow(Width(fields[1..])));
      Division(word, k);
      PackUnpack(fields[1..], Quotient(word, k));
    }
  }

  lemma QuotientBound(word: nat, k: nat, n: nat)
    requires k > 0 && word < k * n
    ensures Quotient(word, k) < n
  {
    Division(word, k);
    Product(k, n, Quotient(word, k));
  }

  /** Field `i` reads as the bits from where it starts. */
  lemma {:induction false} FieldBits(fields: seq<Field>, word: nat, i: nat)
    requires i < |fields|
    ensures UnpackLow(fields, word)[i] == Remainder(Quotient(word, Pow(StartLow(fields, i))), Pow(fields[i].width))
    decreases i
  {
    if i == 0 {
      assert fields[..0] == [] && word / 1 == word;
    } else {
      FieldBits(fields[1..], Quotient(word, Pow(fields[0].width)), i - 1);
      assert fields[..i] == [fields[0]] + fields[1..][..i - 1];
      assert fields[..i][1..] == fields[1..][..i - 1];
      PowAdd(fields[0].width, StartLow(fields[1..], i - 1));
      DivDiv(word, Pow(fields[0].width), Pow(StartLow(fields[1..], i - 1)));
    }
  }

  lemma DivDiv(word: nat, a: nat, b: nat)
    requires a > 0 && b > 0
    ensures a * b > 0 && Quotient(Quotient(word, a), b) == Quotient(word, a * b)
  {
    hide Quotient;
    hide Remainder;
    var q, r := Quotient(word, a), Remainder(word, a);
    var p, s := Quotient(q, b), Remainder(q, b);
    Division(word, a);
    Division(q, b);
    Regroup(r, a, s, b, p);
    Below(r, a, s, b);
    DivMod(r + a * s, p, a * b);
  }

  lemma Regroup(r: nat, a: nat, s: nat, b: nat, p: nat)
    ensures r + a * (s + b * p) == (r + a * s) + (a * b) * p
  {}

  lemma Below(r: nat, a: nat, s: nat, b: nat)
    requires r < a && s < b
    ensures r + a * s < a * b
  {
    Product(a, s, b);
    Product(a, s + 1, b);
  }

  // ---- the eight structs

  predicate Mirrored(l: Layouts) {
    l.low == Reverse(l.high) && Width(l.high) == 32
  }

  /** For a struct with mirrored declarations the union's word holds the same values on both
      kinds of machine, every word is the packing of some values, and of one choice only. */
  lemma UnionIsPortable(l: Layouts, values: seq<nat>, word: nat)
    requires Mirrored(l) && Fits(l.high, values) && word < Pow(32)
    ensures |l.low| == |l.high|
    ensures PackLow(l.low, Reverse(values)) == PackHigh(l.high, values)
    ensures UnpackLow(l.low, PackHigh(l.high, values)) == Reverse(values)
    ensures PackLow(l.low, UnpackLow(l.low, word)) == word
  {
    hide Pow;
    hide Width;
    hide PackLow;
    hide PackHigh;
    hide UnpackLow;
    LayoutIndependent(l.high, values);
    UnpackPack(l.low, Reverse(values));
    WidthReverse(l.high);
    PackUnpack(l.low, word);
  }

  /** The width of the first `n` fields. */
  function WidthTo(fields: seq<Field>, n: nat): nat
    requires n <= |fields|
    decreases n
  {
    if n == 0 then 0 else WidthTo(fields, n - 1) + fields[n - 1].width
  }

  lemma {:induction false} WidthIs(fields: seq<Field>, n: nat)
    requires n <= |fields|
    ensures Width(fields[..n]) == WidthTo(fields, n)
    decreases n
  {
    if n > 0 {
      assert fields[..n] == fields[..n - 1] + [fields[n - 1]];
      WidthIs(fields, n - 1);
      WidthAppend(fields[..n - 1], [fields[n - 1]]);
      assert [fields[n - 1]][1..] == [] && Width([fields[n - 1]]) == fields[n - 1].width;
    }
  }

  lemma WidthAll(fields: seq<Field>)
    ensures Width(fields) == WidthTo(fields, |fields|)
  {
    WidthIs(fields, |fields|);
    assert fields[..|fields|] == fields;
  }

  predicate MirroredPart(l: Layouts, width: nat) {
    l.low == Reverse(l.high) && Width(l.high) == width
  }

  /** The declarations of `x` and then, on a big-endian machine, those of `y`. */
  function Join(x: Layouts, y: Layouts): Layouts {
    Layouts(x.high + y.high, y.low + x.low)
  }

  lemma JoinMirrored(x: Layouts, m: nat, y: Layouts, n: nat)
    requires MirroredPart(x, m) && MirroredPart(y, n)
    ensures MirroredPart(Join(x, y), m + n)
  {
    WidthAppend(x.high, y.high);
    assert Reverse(x.high + y.high) == Reverse(y.high) + Reverse(x.high);
  }

  lemma PartIsWhole(l: Layouts)
    requires MirroredPart(l, 32)
    ensures Mirrored(l)
  {}

  /** GSCellFlags, declarations 1 to 6 of 28 */
  const CELL_PART_1 := Layouts(
    [
      F("state", 1), F("highlighted", 1), F("disabled", 1), F("editable", 1), F("type", 2), F("vCentered", 1)
    ],
    [
      F("vCentered", 1), F("type", 2), F("editable", 1), F("disabled", 1), F("highlighted", 1), F("state", 1)
    ])

  /** GSCellFlags, declarations 7 to 12 of 28 */
  const CELL_PART_2 := Layouts(
    [
      F("hCentered", 1), F("bordered", 1), F("bezeled", 1), F("selectable", 1), F("scrollable", 1),
      F("continuous", 1)
    ],
    [
      F("continuous", 1), F("scrollable", 1), F("selectable", 1), F("bezeled", 1), F("bordered", 1),
      F("hCentered", 1)
    ])

  /** GSCellFlags, declarations 13 to 18 of 28 */
  const CELL_PART_3 := Layouts(
    [
      F("actOnMouseDown", 1), F("isLeaf", 1), F("invalidObjectValue", 1), F("invalidFont", 1),
      F("lineBreakMode", 3), F("weakTargetHelperFlag", 1)
    ],
    [
      F("weakTargetHelperFlag", 1), F("lineBreakMode", 3), F("invalidFont", 1), F("invalidObjectValue", 1),
      F("isLeaf", 1), F("actOnMouseDown", 1)
    ])

  /** GSCellFlags, declarations 19 to 23 of 28 */
  const CELL_PART_4 := Layouts(
    [
      F("allowsAppearanceEffects", 1), F("singleLineMode", 1), F("actOnMouseDragged", 1), F("isLoaded", 1),
      F("truncateLastLine", 1)
    ],
    [
      F("truncateLastLine", 1), F("isLoaded", 1), F("actOnMouseDragged", 1), F("singleLineMode", 1),
      F("allowsAppearanceEffects", 1)
    ])

  /** GSCellFlags, declarations 24 to 28 of 28 */
  const CELL_PART_5 := Layouts(
    [
      F("dontActOnMouseUp", 1), F("isWhite", 1), F("useUserKeyEquivalent", 1), F("showsFirstResponder", 1),
      F("focusRingType", 2)
    ],
    [
      F("focusRingType", 2), F("showsFirstResponder", 1), F("useUserKeyEquivalent", 1), F("isWhite", 1),
      F("dontActOnMouseUp", 1)
    ])

  const CELL := Join(Join(Join(Join(CELL_PART_1, CELL_PART_2), CELL_PART_3), CELL_PART_4), CELL_PART_5)

  /** GSCellFlags2, declarations 1 to 6 of 16 */
  const CELL2_PART_1 := Layouts(
    [
      F("unused1", 1), F("allowsEditingTextAttributes", 1), F("importsGraphics", 1), F("alignment", 3),
      F("refusesFirstResponder", 1), F("allowsMixedState", 1)
    ],
    [
      F("allowsMixedState", 1), F("refusesFirstResponder", 1), F("alignment", 3), F("importsGraphics", 1),
      F("allowsEditingTextAttributes", 1), F("unused1", 1)
    ])

  /** GSCellFlags2, declarations 7 to 11 of 16 */
  const CELL2_PART_2 := Layouts(
    [
      F("unused2", 1), F("sendsActionOnEndEditing", 1), F("unused3", 2), F("controlSize", 3), F("unused4", 4)
    ],
    [
      F("unused4", 4), F("controlSize", 3), F("unused3", 2), F("sendsActionOnEndEditing", 1), F("unused2", 1)
    ])

  /** GSCellFlags2, declarations 12 to 16 of 16 */
  const CELL2_PART_3 := Layouts(
    [
      F("doesNotAllowUndo", 1), F("lineBreakMode", 3), F("unused5", 1), F("controlTint", 3), F("unused6", 5)
    ],
    [
      F("unused6", 5), F("controlTint", 3), F("unused5", 1), F("lineBreakMode", 3), F("doesNotAllowUndo", 1)
    ])

  const CELL2 := Join(Join(CELL2_PART_1, CELL2_PART_2), CELL2_PART_3)

  /** GSButtonCellFlags, declarations 1 to 6 of 22 */
  const BUTTON_CELL_PART_1 := Layouts(
    [
      F("isPushin", 1), F("changeContents", 1), F("changeBackground", 1), F("changeGray", 1),
      F("highlightByContents", 1), F("highlightByBackground", 1)
    ],
    [
      F("highlightByBackground", 1), F("highlightByContents", 1), F("changeGray", 1), F("changeBackground", 1),
      F("changeContents", 1), F("isPushin", 1)
    ])

  /** GSButtonCellFlags, declarations 7 to 12 of 22 */
  const BUTTON_CELL_PART_2 := Layouts(
    [
      F("highlightByGray", 1), F("drawing", 1), F("isBordered", 1), F("imageDoesOverlap", 1),
      F("isHorizontal", 1), F("isBottomOrLeft", 1)
    ],
    [
      F("isBottomOrLeft", 1), F("isHorizontal", 1), F("imageDoesOverlap", 1), F("isBordered", 1),
      F("drawing", 1), F("highlightByGray", 1)
    ])

  /** GSButtonCellFlags, declarations 13 to 17 of 22 */
  const BUTTON_CELL_PART_3 := Layouts(
    [
      F("isImageAndText", 1), F("isImageSizeDiff", 1), F("hasKeyEquiv", 1), F("lastState", 1),
      F("isTransparent", 1)
    ],
    [
      F("isTransparent", 1), F("lastState", 1), F("hasKeyEquiv", 1), F("isImageSizeDiff", 1),
      F("isImageAndText", 1)
    ])

  /** GSButtonCellFlags, declarations 18 to 22 of 22 */
  const BUTTON_CELL_PART_4 := Layouts(
    [
      F("inset", 2), F("doesNotDimImage", 1), F("gradient", 3), F("useButtonImageSource", 1), F("unused2", 8)
    ],
    [
      F("unused2", 8), F("useButtonImageSource", 1), F("gradient", 3), F("doesNotDimImage", 1), F("inset", 2)
    ])

  const BUTTON_CELL := Join(Join(Join(BUTTON_CELL_PART_1, BUTTON_CELL_PART_2), BUTTON_CELL_PART_3), BUTTON_CELL_PART_4)

  /** GSButtonCellFlags2 */
  const BUTTON_CELL2 := Layouts(
    [
      F("keyEquivalentModifierMask", 24), F("imageScaling", 2), F("bezelStyle2", 1), F("mouseInside", 1),
      F("showsBorderOnlyWhileMouseInside", 1), F("bezelStyle", 3)
    ],
    [
      F("bezelStyle", 3), F("showsBorderOnlyWhileMouseInside", 1), F("mouseInside", 1), F("bezelStyle2", 1),
      F("imageScaling", 2), F("keyEquivalentModifierMask", 24)
    ])

  /** GSvFlags, declarations 1 to 5 of 10 */
  const VIEW_PART_1 := Layouts(
    [
      F("isHidden", 1), F("unused1", 3), F("unused2", 4), F("unused3", 4), F("unused4", 4)
    ],
    [
      F("unused4", 4), F("unused3", 4), F("unused2", 4), F("unused1", 3), F("isHidden", 1)
    ])

  /** GSvFlags, declarations 6 to 10 of 10 */
  const VIEW_PART_2 := Layouts(
    [
      F("unused5", 4), F("unused6", 3), F("autoresizesSubviews", 1), F("unused7", 2), F("autoresizingMask", 6)
    ],
    [
      F("autoresizingMask", 6), F("unused7", 2), F("autoresizesSubviews", 1), F("unused6", 3), F("unused5", 4)
    ])

  const VIEW := Join(VIEW_PART_1, VIEW_PART_2)

  /** GSTabViewTypeFlags */
  const TAB_VIEW := Layouts(
    [
      F("reserved1", 1), F("controlTint", 3), F("controlSize", 2), F("reserved2", 18), F("tabPosition", 5),
      F("tabViewBorderType", 3)
    ],
    [
      F("tabViewBorderType", 3), F("tabPosition", 5), F("reserved2", 18), F("controlSize", 2),
      F("controlTint", 3), F("reserved1", 1)
    ])

  /** GSTableViewFlags, declarations 1 to 6 of 11 */
  const TABLE_VIEW_PART_1 := Layouts(
    [
      F("columnOrdering", 1), F("columnResizing", 1), F("drawsGrid", 1), F("emptySelection", 1),
      F("multipleSelection", 1), F("columnSelection", 1)
    ],
    [
      F("columnSelection", 1), F("multipleSelection", 1), F("emptySelection", 1), F("drawsGrid", 1),
      F("columnResizing", 1), F("columnOrdering", 1)
    ])

  /** GSTableViewFlags, declarations 7 to 11 of 11 */
  const TABLE_VIEW_PART_2 := Layouts(
    [
      F("unknown1", 1), F("columnAutosave", 1), F("alternatingRowBackgroundColors", 1), F("unknown2", 3),
      F("_unused", 20)
    ],
    [
      F("_unused", 20), F("unknown2", 3), F("alternatingRowBackgroundColors", 1), F("columnAutosave", 1),
      F("unknown1", 1)
    ])

  const TABLE_VIEW := Join(TABLE_VIEW_PART_1, TABLE_VIEW_PART_2)

  /** GSMatrixFlags, declarations 1 to 5 of 14 */
  const MATRIX_PART_1 := Layouts(
    [
      F("isHighlight", 1), F("isRadio", 1), F("isList", 1), F("allowsEmptySelection", 1), F("autoScroll", 1)
    ],
    [
      F("autoScroll", 1), F("allowsEmptySelection", 1), F("isList", 1), F("isRadio", 1), F("isHighlight", 1)
    ])

  /** GSMatrixFlags, declarations 6 to 10 of 14 */
  const MATRIX_PART_2 := Layouts(
    [
      F("selectionByRect", 1), F("drawCellBackground", 1), F("drawBackground", 1), F("autosizesCells", 1),
      F("drawingAncestor", 1)
    ],
    [
      F("drawingAncestor", 1), F("autosizesCells", 1), F("drawBackground", 1), F("drawCellBackground", 1),
      F("selectionByRect", 1)
    ])

  /** GSMatrixFlags, declarations 11 to 14 of 14 */
  const MATRIX_PART_3 := Layouts(
    [
      F("tabKeyTraversesCells", 1), F("tabKeyTraversesCellsExplicitly", 1), F("canSearchIncrementally", 1),
      F("unused", 19)
    ],
    [
      F("unused", 19), F("canSearchIncrementally", 1), F("tabKeyTraversesCellsExplicitly", 1),
      F("tabKeyTraversesCells", 1)
    ])

  const MATRIX := Join(Join(MATRIX_PART_1, MATRIX_PART_2), MATRIX_PART_3)

  lemma CellPart1Mirrored()
    ensures MirroredPart(CELL_PART_1, 7)
  {
    assert |CELL_PART_1.high| == 6 && WidthTo(CELL_PART_1.high, 6) == 7;
    WidthAll(CELL_PART_1.high);
  }

  lemma CellPart2Mirrored()
    ensures MirroredPart(CELL_PART_2, 6)
  {
    assert |CELL_PART_2.high| == 6 && WidthTo(CELL_PART_2.high, 6) == 6;
    WidthAll(CELL_PART_2.high);
  }

  lemma CellPart3Mirrored()
    ensures MirroredPart(CELL_PART_3, 8)
  {
    assert |CELL_PART_3.high| == 6 && WidthTo(CELL_PART_3.high, 6) == 8;
    WidthAll(CELL_PART_3.high);
  }

  lemma CellPart4Mirrored()
    ensures MirroredPart(CELL_PART_4, 5)
  {
    assert |CELL_PART_4.high| == 5 && WidthTo(CELL_PART_4.high, 5) == 5;
    WidthAll(CELL_PART_4.high);
  }

  lemma CellPart5Mirrored()
    ensures MirroredPart(CELL_PART_5, 6)
  {
    assert |CELL_PART_5.high| == 5 && WidthTo(CELL_PART_5.high, 5) == 6;
    WidthAll(CELL_PART_5.high);
  }

  lemma CellMirrored()
    ensures Mirrored(CELL)
  {
    hide Join;
    hide MirroredPart;
    CellPart1Mirrored();
    CellPart2Mirrored();
    CellPart3Mirrored();
    CellPart4Mirrored();
    CellPart5Mirrored();
    JoinMirrored(CELL_PART_1, 7, CELL_PART_2, 6);
    JoinMirrored(Join(CELL_PART_1, CELL_PART_2), 13, CELL_PART_3, 8);
    JoinMirrored(Join(Join(CELL_PART_1, CELL_PART_2), CELL_PART_3), 21, CELL_PART_4, 5);
    JoinMirrored(Join(Join(Join(CELL_PART_1, CELL_PART_2), CELL_PART_3), CELL_PART_4), 26, CELL_PART_5, 6);
    PartIsWhole(CELL);
  }

  lemma Cell2Part1Mirrored()
    ensures MirroredPart(CELL2_PART_1, 8)
  {
    assert |CELL2_PART_1.high| == 6 && WidthTo(CELL2_PART_1.high, 6) == 8;
    WidthAll(CELL2_PART_1.high);
  }

  lemma Cell2Part2Mirrored()
    ensures MirroredPart(CELL2_PART_2, 11)
  {
    assert |CELL2_PART_2.high| == 5 && WidthTo(CELL2_PART_2.high, 5) == 11;
    WidthAll(CELL2_PART_2.high);
  }

  lemma Cell2Part3Mirrored()
    ensures MirroredPart(CELL2_PART_3, 13)
  {
    assert |CELL2_PART_3.high| == 5 && WidthTo(CELL2_PART_3.high, 5) == 13;
    WidthAll(CELL2_PART_3.high);
  }

  lemma Cell2Mirrored()
    ensures Mirrored(CELL2)
  {
    hide Join;
    hide MirroredPart;
    Cell2Part1Mirrored();
    Cell2Part2Mirrored();
    Cell2Part3Mirrored();
    JoinMirrored(CELL2_PART_1, 8, CELL2_PART_2, 11);
    JoinMirrored(Join(CELL2_PART_1, CELL2_PART_2), 19, CELL2_PART_3, 13);
    PartIsWhole(CELL2);
  }

  lemma ButtonCellPart1Mirrored()
    ensures MirroredPart(BUTTON_CELL_PART_1, 6)
  {
    assert |BUTTON_CELL_PART_1.high| == 6 && WidthTo(BUTTON_CELL_PART_1.high, 6) == 6;
    WidthAll(BUTTON_CELL_PART_1.high);
  }

  lemma ButtonCellPart2Mirrored()
    ensures MirroredPart(BUTTON_CELL_PART_2, 6)
  {
    assert |BUTTON_CELL_PART_2.high| == 6 && WidthTo(BUTTON_CELL_PART_2.high, 6) == 6;
    WidthAll(BUTTON_CELL_PART_2.high);
  }

  lemma ButtonCellPart3Mirrored()
    ensures MirroredPart(BUTTON_CELL_PART_3, 5)
  {
    assert |BUTTON_CELL_PART_3.high| == 5 && WidthTo(BUTTON_CELL_PART_3.high, 5) == 5;
    WidthAll(BUTTON_CELL_PART_3.high);
  }

  lemma ButtonCellPart4Mirrored()
    ensures MirroredPart(BUTTON_CELL_PART_4, 15)
  {
    assert |BUTTON_CELL_PART_4.high| == 5 && WidthTo(BUTTON_CELL_PART_4.high, 5) == 15;
    WidthAll(BUTTON_CELL_PART_4.high);
  }

  lemma ButtonCellMirrored()
    ensures Mirrored(BUTTON_CELL)
  {
    hide Join;
    hide MirroredPart;
    ButtonCellPart1Mirrored();
    ButtonCellPart2Mirrored();
    ButtonCellPart3Mirrored();
    ButtonCellPart4Mirrored();
    JoinMirrored(BUTTON_CELL_PART_1, 6, BUTTON_CELL_PART_2, 6);
    JoinMirrored(Join(BUTTON_CELL_PART_1, BUTTON_CELL_PART_2), 12, BUTTON_CELL_PART_3, 5);
    JoinMirrored(Join(Join(BUTTON_CELL_PART_1, BUTTON_CELL_PART_2), BUTTON_CELL_PART_3), 17, BUTTON_CELL_PART_4, 15);
    PartIsWhole(BUTTON_CELL);
  }

  lemma ButtonCell2Mirrored()
    ensures Mirrored(BUTTON_CELL2)
  {
    assert |BUTTON_CELL2.high| == 6 && WidthTo(BUTTON_CELL2.high, 6) == 32;
    WidthAll(BUTTON_CELL2.high);
  }

  lemma ViewPart1Mirrored()
    ensures MirroredPart(VIEW_PART_1, 16)
  {
    assert |VIEW_PART_1.high| == 5 && WidthTo(VIEW_PART_1.high, 5) == 16;
    WidthAll(VIEW_PART_1.high);
  }

  lemma ViewPart2Mirrored()
    ensures MirroredPart(VIEW_PART_2, 16)
  {
    assert |VIEW_PART_2.high| == 5 && WidthTo(VIEW_PART_2.high, 5) == 16;
    WidthAll(VIEW_PART_2.high);
  }

  lemma ViewMirrored()
    ensures Mirrored(VIEW)
  {
    hide Join;
    hide MirroredPart;
    ViewPart1Mirrored();
    ViewPart2Mirrored();
    JoinMirrored(VIEW_PART_1, 16, VIEW_PART_2, 16);
    PartIsWhole(VIEW);
  }

  lemma TabViewMirrored()
    ensures Mirrored(TAB_VIEW)
  {
    assert |TAB_VIEW.high| == 6 && WidthTo(TAB_VIEW.high, 6) == 32;
    WidthAll(TAB_VIEW.high);
  }

  lemma TableViewPart1Mirrored()
    ensures MirroredPart(TABLE_VIEW_PART_1, 6)
  {
    assert |TABLE_VIEW_PART_1.high| == 6 && WidthTo(TABLE_VIEW_PART_1.high, 6) == 6;
    WidthAll(TABLE_VIEW_PART_1.high);
  }

  lemma TableViewPart2Mirrored()
    ensures MirroredPart(TABLE_VIEW_PART_2, 26)
  {
    assert |TABLE_VIEW_PART_2.high| == 5 && WidthTo(TABLE_VIEW_PART_2.high, 5) == 26;
    WidthAll(TABLE_VIEW_PART_2.high);
  }

  lemma TableViewMirrored()
    ensures Mirrored(TABLE_VIEW)
  {
    hide Join;
    hide MirroredPart;
    TableViewPart1Mirrored();
    TableViewPart2Mirrored();
    JoinMirrored(TABLE_VIEW_PART_1, 6, TABLE_VIEW_PART_2, 26);
    PartIsWhole(TABLE_VIEW);
  }

  lemma MatrixPart1Mirrored()
    ensures MirroredPart(MATRIX_PART_1, 5)
  {
    assert |MATRIX_PART_1.high| == 5 && WidthTo(MATRIX_PART_1.high, 5) == 5;
    WidthAll(MATRIX_PART_1.high);
  }

  lemma MatrixPart2Mirrored()
    ensures MirroredPart(MATRIX_PART_2, 5)
  {
    assert |MATRIX_PART_2.high| == 5 && WidthTo(MATRIX_PART_2.high, 5) == 5;
    WidthAll(MATRIX_PART_2.high);
  }

  lemma MatrixPart3Mirrored()
    ensures MirroredPart(MATRIX_PART_3, 22)
  {
    assert |MATRIX_PART_3.high| == 4 && WidthTo(MATRIX_PART_3.high, 4) == 22;
    WidthAll(MATRIX_PART_3.high);
  }

  lemma MatrixMirrored()
    ensures Mirrored(MATRIX)
  {
    hide Join;
    hide MirroredPart;
    MatrixPart1Mirrored();
    MatrixPart2Mirrored();
    MatrixPart3Mirrored();
    JoinMirrored(MATRIX_PART_1, 5, MATRIX_PART_2, 5);
    JoinMirrored(Join(MATRIX_PART_1, MATRIX_PART_2), 10, MATRIX_PART_3, 22);
    PartIsWhole(MATRIX);
  }
}
