/** The geometry values of `JavaGeomConverter` (AWT's `Point`) and
    `AndroidGeomConverter` (Android's `Point` and `Rect`), the JSON objects
    their serializers write, and the rule by which their readers turn the
    attributes of an object into coordinates: the first key that matches a
    name, ignoring case, takes its value; later attributes override earlier
    ones; a name no key matches is ignored; a coordinate never named stays
    0. */
module Geometry {
  import opened Java
  import opened DecimalText
  import JsonWriter

  /** `java.awt.Point` and `android.graphics.Point`: two `int`s. */
  datatype Point = Point(x: int, y: int)

  /** `android.graphics.Rect`: its four edges, as `int`s. */
  datatype Rect = Rect(left: int, top: int, right: int, bottom: int)

  predicate ValidPoint(p: Point) {
    IsInt(p.x) && IsInt(p.y)
  }

  predicate ValidRect(r: Rect) {
    IsInt(r.left) && IsInt(r.top) && IsInt(r.right) && IsInt(r.bottom)
  }

  // ---------------------------------------------------------------------
  // Width and height in int arithmetic

  /** An `int` congruent to `x` modulo 2^32 is what `x` wraps to. */
  lemma Int32Exact(x: int, y: int, c: int)
    requires IsInt(y) && x - y == c * 0x1_0000_0000
    ensures Int32(x) == y
  {
    DivModUnique(x - INT_MIN, 0x1_0000_0000, c, y - INT_MIN);
  }

  /** A wrapped value differs from the exact one by a multiple of 2^32. */
  lemma Int32Multiple(x: int) returns (c: int)
    ensures Int32(x) - x == c * 0x1_0000_0000
  {
    c := (Int32(x) - x) / 0x1_0000_0000;
  }

  /** `Rect.width()`: `right - left` in `int` arithmetic. */
  function Width(r: Rect): (w: int)
    ensures IsInt(w) && (IsInt(r.right - r.left) ==> w == r.right - r.left)
  {
    Int32(r.right - r.left)
  }

  /** `Rect.height()`: `bottom - top` in `int` arithmetic. */
  function Height(r: Rect): (h: int)
    ensures IsInt(h) && (IsInt(r.bottom - r.top) ==> h == r.bottom - r.top)
  {
    Int32(r.bottom - r.top)
  }

  /** Adding an `int` and taking the start away again, both in `int`
      arithmetic, gives the `int` back. */
  lemma SumThenDifference(a: int, d: int)
    requires IsInt(d)
    ensures Int32(Int32(a + d) - a) == d
  {
    var c := Int32Multiple(a + d);
    Int32Exact(Int32(a + d) - a, d, c);
  }

  /** Taking the difference to `b` and adding it to `a`, both in `int`
      arithmetic, gives `b` back. */
  lemma DifferenceThenSum(a: int, b: int)
    requires IsInt(b)
    ensures Int32(a + Int32(b - a)) == b
  {
    var c := Int32Multiple(b - a);
    Int32Exact(a + Int32(b - a), b, c);
  }

  /** `new Rect(x, y, x + width, y + height)`, the sums in `int` arithmetic.
      The width and the height of the result are the ones given, even where
      a sum wraps around. */
  function RectOf(x: int, y: int, width: int, height: int): (r: Rect)
    requires IsInt(x) && IsInt(y) && IsInt(width) && IsInt(height)
    ensures ValidRect(r) && r.left == x && r.top == y
    ensures Width(r) == width && Height(r) == height
  {
    SumThenDifference(x, width);
    SumThenDifference(y, height);
    Rect(x, y, Int32(x + width), Int32(y + height))
  }

  /** A rectangle is its corner, its width and its height. */
  lemma RectOfDimensions(r: Rect)
    requires ValidRect(r)
    ensures RectOf(r.left, r.top, Width(r), Height(r)) == r
  {
    DifferenceThenSum(r.left, r.right);
    DifferenceThenSum(r.top, r.bottom);
  }

  // ---------------------------------------------------------------------
  // Keys

  /** `Character.toLowerCase` of an ASCII letter; every other character
      is its own case. */
  function Lower(c: Char): (l: Char)
    ensures 'A' as int <= c <= 'Z' as int ==> l == c + 32
  {
    if 'A' as int <= c <= 'Z' as int then c + 32 else c
  }

  /** `a.equalsIgnoreCase(b)`: the same length, and at each position the
      same character or the same letter in the other case. */
  predicate EqualsIgnoreCase(a: seq<Char>, b: seq<Char>) {
    |a| == |b| && forall i | 0 <= i < |a| :: Lower(a[i]) == Lower(b[i])
  }

  /** No name matches two of the keys. */
  predicate Distinct(keys: seq<seq<Char>>) {
    forall i, j | 0 <= i < j < |keys| :: !EqualsIgnoreCase(keys[i], keys[j])
  }

  /** The keys of a point, in the order the readers test them. */
  const POINT_KEYS: seq<seq<Char>> := [Str("X"), Str("Y")]

  /** The keys of a rectangle, in the order the reader tests them. */
  const RECT_KEYS: seq<seq<Char>> := [Str("X"), Str("Y"), Str("Width"), Str("Height")]

  lemma KeysDistinct()
    ensures Distinct(POINT_KEYS) && Distinct(RECT_KEYS)
  {
    var x, y, w, h := Str("X"), Str("Y"), Str("Width"), Str("Height");
    assert Lower(x[0]) != Lower(y[0]);
    assert |x| != |w| && |x| != |h| && |y| != |w| && |y| != |h|;
    assert Lower(w[0]) != Lower(h[0]);
  }

  /** The values every coordinate starts from. */
  function Zeros(n: nat): (r: seq<int>)
    ensures |r| == n && forall i | 0 <= i < n :: r[i] == 0
  {
    seq(n, _ => 0)
  }

  /** The `if`/`else if` chain after an attribute is read: the first key
      that matches the name takes the value. With distinct keys, exactly
      the coordinates whose key matches the name change, and a name that
      matches no key changes nothing. */
  function Assign(keys: seq<seq<Char>>, vals: seq<int>, name: seq<Char>, value: int): (r: seq<int>)
    requires |vals| == |keys|
    ensures |r| == |keys|
    ensures Distinct(keys) ==> forall i | 0 <= i < |keys| ::
      r[i] == if EqualsIgnoreCase(keys[i], name) then value else vals[i]
    decreases |keys|
  {
    if keys == [] then []
    else if EqualsIgnoreCase(keys[0], name) then
      assert Distinct(keys) ==> forall i | 1 <= i < |keys| :: !EqualsIgnoreCase(keys[i], name) by {
        if Distinct(keys) {
          forall i | 1 <= i < |keys| ensures !EqualsIgnoreCase(keys[i], name) {
            assert !EqualsIgnoreCase(keys[0], keys[i]);
          }
        }
      }
      [value] + vals[1..]
    else
      assert Distinct(keys) ==> Distinct(keys[1..]) by {
        if Distinct(keys) {
          forall i, j | 0 <= i < j < |keys| - 1 ensures !EqualsIgnoreCase(keys[1..][i], keys[1..][j]) {
            assert !EqualsIgnoreCase(keys[i + 1], keys[j + 1]);
          }
        }
      }
      [vals[0]] + Assign(keys[1..], vals[1..], name, value)
  }

  // ---------------------------------------------------------------------
  // Attributes

  /** An attribute of a JSON object with an `int` value. */
  datatype Attribute = Attribute(name: seq<Char>, value: int)

  /** The values after the attributes `as` are read in order, starting
      from `vals`. */
  function Settle(keys: seq<seq<Char>>, vals: seq<int>, attrs: seq<Attribute>): (r: seq<int>)
    requires |vals| == |keys|
    ensures |r| == |keys|
    decreases |attrs|
  {
    if attrs == [] then vals
    else
      var a := attrs[|attrs| - 1];
      Assign(keys, Settle(keys, vals, attrs[..|attrs| - 1]), a.name, a.value)
  }

  /** The value of the last attribute whose name matches `key`, or `other`
      when none does. */
  function LastValue(attrs: seq<Attribute>, key: seq<Char>, other: int): int
    decreases |attrs|
  {
    if attrs == [] then other
    else if EqualsIgnoreCase(key, attrs[|attrs| - 1].name) then attrs[|attrs| - 1].value
    else LastValue(attrs[..|attrs| - 1], key, other)
  }

  /** Reading attributes in order leaves each coordinate at the value of
      the last attribute named after its key, ignoring case, and at its
      starting value when no attribute is. */
  lemma {:induction false} SettleLast(keys: seq<seq<Char>>, vals: seq<int>, attrs: seq<Attribute>)
    requires |vals| == |keys| && Distinct(keys)
    ensures forall i | 0 <= i < |keys| :: Settle(keys, vals, attrs)[i] == LastValue(attrs, keys[i], vals[i])
    decreases |attrs|
  {
    if attrs != [] {
      SettleLast(keys, vals, attrs[..|attrs| - 1]);
    }
  }

  /** A later attribute overrides an earlier one: the attribute at `i`
      decides `key` when it matches and no later attribute does. */
  lemma {:induction false} LastValueAt(attrs: seq<Attribute>, key: seq<Char>, other: int, i: int)
    requires 0 <= i < |attrs| && EqualsIgnoreCase(key, attrs[i].name)
    requires forall j | i < j < |attrs| :: !EqualsIgnoreCase(key, attrs[j].name)
    ensures LastValue(attrs, key, other) == attrs[i].value
    decreases |attrs|
  {
    if i < |attrs| - 1 {
      var init := attrs[..|attrs| - 1];
      assert forall j | i < j < |init| :: init[j] == attrs[j];
      LastValueAt(init, key, other, i);
    }
  }

  /** A key no attribute names keeps its starting value. */
  lemma {:induction false} LastValueNone(attrs: seq<Attribute>, key: seq<Char>, other: int)
    requires forall j | 0 <= j < |attrs| :: !EqualsIgnoreCase(key, attrs[j].name)
    ensures LastValue(attrs, key, other) == other
    decreases |attrs|
  {
    if attrs != [] {
      var init := attrs[..|attrs| - 1];
      assert forall j | 0 <= j < |init| :: init[j] == attrs[j];
      LastValueNone(init, key, other);
    }
  }

  /** An attribute the writer can write: a name `writeString` accepts and
      an `int`. */
  predicate WritableAttribute(a: Attribute) {
    JsonWriter.QuotedString(a.name).Ok? && IsInt(a.value)
  }

  predicate Writable(attrs: seq<Attribute>) {
    forall i | 0 <= i < |attrs| :: WritableAttribute(attrs[i])
  }

  /** `"name":value`. */
  function AttributeBytes(a: Attribute): (r: seq<Byte>)
    requires WritableAttribute(a)
    ensures |r| >= 1 && r[0] == QUOTE
  {
    JsonWriter.QuotedString(a.name).value + [COLON] + Decimal(a.value)
  }

  /** Each attribute as it is written. */
  function Encoded(attrs: seq<Attribute>): (r: seq<seq<Byte>>)
    requires Writable(attrs)
    ensures |r| == |attrs| && forall i | 0 <= i < |attrs| :: r[i] == AttributeBytes(attrs[i])
  {
    seq(|attrs|, i requires 0 <= i < |attrs| => AttributeBytes(attrs[i]))
  }

  /** The written attributes from `k` on, each after a comma. */
  function Tail(parts: seq<seq<Byte>>, k: nat): seq<Byte>
    decreases |parts| - k
  {
    if k >= |parts| then [] else [COMMA] + parts[k] + Tail(parts, k + 1)
  }

  /** Written attributes between braces, separated by commas. */
  function Braced(parts: seq<seq<Byte>>): (r: seq<Byte>)
    ensures |r| >= 2 && r[0] == OBJECT_START && r[|r| - 1] == OBJECT_END
  {
    if parts == [] then [OBJECT_START, OBJECT_END]
    else [OBJECT_START] + parts[0] + Tail(parts, 1) + [OBJECT_END]
  }

  /** A JSON object of `int` attributes without whitespace. */
  function ObjectBytes(attrs: seq<Attribute>): (r: seq<Byte>)
    requires Writable(attrs)
    ensures |r| >= 2 && r[0] == OBJECT_START && r[|r| - 1] == OBJECT_END
  {
    Braced(Encoded(attrs))
  }

  // ---------------------------------------------------------------------
  // What the serializers write

  /** The literals the serializers write before each value. */
  const OPEN_X: seq<Byte> := Ascii("{\"X\":")
  const COMMA_Y: seq<Byte> := Ascii(",\"Y\":")
  const COMMA_WIDTH: seq<Byte> := Ascii(",\"Width\":")
  const COMMA_HEIGHT: seq<Byte> := Ascii(",\"Height\":")

  /** `{"X":x,"Y":y}`. */
  function PointJson(p: Point): seq<Byte> {
    (OPEN_X + Decimal(p.x)) + (COMMA_Y + Decimal(p.y)) + [OBJECT_END]
  }

  /** `{"X":left,"Y":top,"Width":width,"Height":height}`. */
  function RectJson(r: Rect): seq<Byte> {
    (OPEN_X + Decimal(r.left)) + (COMMA_Y + Decimal(r.top))
      + (COMMA_WIDTH + Decimal(Width(r))) + (COMMA_HEIGHT + Decimal(Height(r))) + [OBJECT_END]
  }

  function PointAttributes(p: Point): seq<Attribute> {
    [Attribute(Str("X"), p.x), Attribute(Str("Y"), p.y)]
  }

  function RectAttributes(r: Rect): seq<Attribute> {
    [Attribute(Str("X"), r.left), Attribute(Str("Y"), r.top),
     Attribute(Str("Width"), Width(r)), Attribute(Str("Height"), Height(r))]
  }

  /** A name of plain printable ASCII characters is written between
      quotes as it is. */
  lemma QuotedKey(name: seq<Char>, bytes: seq<Byte>)
    requires |name| == |bytes| && forall i | 0 <= i < |name| :: name[i] == bytes[i]
    requires forall i | 0 <= i < |name| :: 32 <= name[i] < 0x7F && name[i] != QUOTE && name[i] != BACKSLASH
    ensures JsonWriter.QuotedString(name) == Ok([QUOTE] + bytes + [QUOTE])
  {
    JsonWriter.EscapedPlain(name, 0);
    assert name[0..] == name;
    assert JsonWriter.Escaped(name).value == bytes;
  }

  /** A literal such as `,"Y":` that the serializers write: a lead byte,
      then the key between quotes as `writeString` writes it, then the
      colon. */
  lemma Lead(text: string, lead: Byte, key: string)
    requires |text| == |key| + 4 && text[0] as int == lead
    requires forall i | 0 <= i < |text| :: text[i] as int < 128
    requires text[1] == '"' && text[|key| + 2] == '"' && text[|key| + 3] == ':'
    requires forall i | 0 <= i < |key| :: text[i + 2] == key[i] && 32 <= key[i] as int < 0x7F && key[i] != '"' && key[i] != '\\'
    ensures JsonWriter.QuotedString(Str(key)).Ok?
    ensures Ascii(text) == [lead] + JsonWriter.QuotedString(Str(key)).value + [COLON]
  {
    var bytes := Ascii(text)[2..|key| + 2];
    QuotedKey(Str(key), bytes);
    var b := [lead] + ([QUOTE] + bytes + [QUOTE]) + [COLON];
    assert forall i | 0 <= i < |text| :: Ascii(text)[i] == b[i];
  }

  /** The literal and the value after it: the lead byte, then the
      attribute as `"Y":value`. */
  lemma LeadAttribute(text: string, lead: Byte, key: string, v: int)
    requires |text| == |key| + 4 && text[0] as int == lead && IsInt(v)
    requires forall i | 0 <= i < |text| :: text[i] as int < 128
    requires text[1] == '"' && text[|key| + 2] == '"' && text[|key| + 3] == ':'
    requires forall i | 0 <= i < |key| :: text[i + 2] == key[i] && 32 <= key[i] as int < 0x7F && key[i] != '"' && key[i] != '\\'
    ensures WritableAttribute(Attribute(Str(key), v))
    ensures Ascii(text) + Decimal(v) == [lead] + AttributeBytes(Attribute(Str(key), v))
  {
    Lead(text, lead, key);
    Joined(Ascii(text), lead, Str(key), v);
  }

  /** The lead byte, the quoted name and the colon, then the value. */
  lemma Joined(t: seq<Byte>, lead: Byte, name: seq<Char>, v: int)
    requires IsInt(v) && JsonWriter.QuotedString(name).Ok?
    requires t == [lead] + JsonWriter.QuotedString(name).value + [COLON]
    ensures WritableAttribute(Attribute(name, v))
    ensures t + Decimal(v) == [lead] + AttributeBytes(Attribute(name, v))
  {
  }

  lemma OpenX(v: int)
    requires IsInt(v)
    ensures WritableAttribute(Attribute(Str("X"), v))
    ensures OPEN_X + Decimal(v) == [OBJECT_START] + AttributeBytes(Attribute(Str("X"), v))
  {
    LeadAttribute("{\"X\":", OBJECT_START, "X", v);
  }

  lemma CommaY(v: int)
    requires IsInt(v)
    ensures WritableAttribute(Attribute(Str("Y"), v))
    ensures COMMA_Y + Decimal(v) == [COMMA] + AttributeBytes(Attribute(Str("Y"), v))
  {
    LeadAttribute(",\"Y\":", COMMA, "Y", v);
  }

  lemma CommaWidth(v: int)
    requires IsInt(v)
    ensures WritableAttribute(Attribute(Str("Width"), v))
    ensures COMMA_WIDTH + Decimal(v) == [COMMA] + AttributeBytes(Attribute(Str("Width"), v))
  {
    LeadAttribute(",\"Width\":", COMMA, "Width", v);
  }

  lemma CommaHeight(v: int)
    requires IsInt(v)
    ensures WritableAttribute(Attribute(Str("Height"), v))
    ensures COMMA_HEIGHT + Decimal(v) == [COMMA] + AttributeBytes(Attribute(Str("Height"), v))
  {
    LeadAttribute(",\"Height\":", COMMA, "Height", v);
  }

  /** The point's text is the object of its two attributes. */
  lemma PointJsonIsObject(p: Point)
    requires ValidPoint(p)
    ensures Writable(PointAttributes(p)) && PointJson(p) == ObjectBytes(PointAttributes(p))
  {
    var attrs := PointAttributes(p);
    OpenX(p.x);
    CommaY(p.y);
    assert Writable(attrs) by {
      forall i | 0 <= i < 2 ensures WritableAttribute(attrs[i]) {
        assert i == 0 || i == 1;
      }
    }
    var parts := Encoded(attrs);
    assert Tail(parts, 2) == [];
    assert Braced(parts) == [OBJECT_START] + parts[0] + ([COMMA] + parts[1]) + [OBJECT_END];
  }

  /** The rectangle's text is the object of its four attributes. */
  lemma RectJsonIsObject(r: Rect)
    requires ValidRect(r)
    ensures Writable(RectAttributes(r)) && RectJson(r) == ObjectBytes(RectAttributes(r))
  {
    var attrs := RectAttributes(r);
    OpenX(r.left);
    CommaY(r.top);
    CommaWidth(Width(r));
    CommaHeight(Height(r));
    assert Writable(attrs) by {
      forall i | 0 <= i < 4 ensures WritableAttribute(attrs[i]) {
        assert i == 0 || i == 1 || i == 2 || i == 3;
      }
    }
    FourParts(Encoded(attrs));
  }

  /** Four written attributes between braces. */
  lemma FourParts(parts: seq<seq<Byte>>)
    requires |parts| == 4
    ensures Braced(parts) == ([OBJECT_START] + parts[0]) + ([COMMA] + parts[1]) + ([COMMA] + parts[2]) + ([COMMA] + parts[3]) + [OBJECT_END]
  {
    assert Tail(parts, 4) == [];
    assert Tail(parts, 3) == [COMMA] + parts[3];
    assert Tail(parts, 2) == [COMMA] + parts[2] + ([COMMA] + parts[3]);
  }
}
