/**
 * The `TextField` column of a tree row (src/Fields/TextField.php): fluent setters
 * that record the field's settings, and `render`, which turns one record into the
 * row's HTML text.
 *
 * Records are arrays (`map<string, Value>`); user closures are opaque handles
 * whose results come from a `Calls` value, and the escaping function `e()` is a
 * parameter. Strings are byte strings: one `char` per byte.
 */
module TextFields {
  import opened PhpValues

  /** An array record. */
  type Record = map<string, Value>

  /** `data_get($record, $key)` for a plain (dot-free) key: the entry, or null. */
  function DataGet(record: Record, key: string): (r: Value)
    ensures key in record ==> r == record[key]
    ensures key !in record ==> r == Null
  {
    if key in record then record[key] else Null
  }

  /** A user closure, known only by a handle. */
  datatype Closure = Closure(handle: nat)

  /** Filament's `FontWeight` enum. */
  datatype FontWeight = Thin | ExtraLight | Light | Normal | Medium | SemiBold | Bold | ExtraBold | Black

  /** The enum's backing `->value`. */
  function WeightValue(w: FontWeight): string
  {
    match w
    case Thin => "thin"
    case ExtraLight => "extralight"
    case Light => "light"
    case Normal => "normal"
    case Medium => "medium"
    case SemiBold => "semibold"
    case Bold => "bold"
    case ExtraBold => "extrabold"
    case Black => "black"
  }

  /** What a weight closure returns: a string, an enum case, or anything else. */
  datatype WeightResult = WeightText(text: string) | WeightEnum(w: FontWeight) | WeightOther

  /** What the user closures return for given arguments. */
  datatype Calls = Calls(
    format: (nat, Value, Record) -> Value,
    color: (nat, Value, Record) -> Value,
    weight: (nat, Record) -> WeightResult)

  /** `string|Closure|null $color`. */
  datatype ColorSetting = NoColor | ColorName(name: string) | ColorCallback(c: Closure)

  /** `string|FontWeight|Closure|null $weight`. */
  datatype WeightSetting = NoWeight | WeightName(name: string) | WeightCase(w: FontWeight) | WeightCallback(c: Closure)

  /** The field's settings at render time. */
  datatype Settings = Settings(
    name: string,
    color: ColorSetting,
    size: Option<string>,
    characterLimit: Option<int>,
    dimWhenField: Option<string>,
    dimWhenValue: Value,
    weight: WeightSetting,
    formatStateUsing: Option<Closure>)

  // ---------------------------------------------------------------------------
  // The lookup tables

  const SizeMap: map<string, string> := map[
    "xs" := "text-xs", "sm" := "text-sm", "base" := "text-base", "lg" := "text-lg", "xl" := "text-xl"]

  const ColorMap: map<string, string> := map[
    "gray" := "text-gray-600 dark:text-gray-400",
    "primary" := "text-primary-600 dark:text-primary-400",
    "success" := "text-success-600 dark:text-success-400",
    "warning" := "text-warning-600 dark:text-warning-400",
    "danger" := "text-danger-600 dark:text-danger-400",
    "info" := "text-info-600 dark:text-info-400"]

  const WeightMap: map<string, string> := map[
    "thin" := "font-thin", "extralight" := "font-extralight", "light" := "font-light",
    "normal" := "font-normal", "medium" := "font-medium", "semibold" := "font-semibold",
    "bold" := "font-bold", "extrabold" := "font-extrabold", "black" := "font-black"]

  const DimStyle: string := " style=\"opacity: 0.4;\""

  // ---------------------------------------------------------------------------
  // The steps of `render`

  /** `getFieldState` for an array record: the entry under the field's name. */
  function GetFieldState(s: Settings, record: Record): (r: Value)
    ensures s.name in record ==> r == record[s.name]
    ensures s.name !in record ==> r == Null
  {
    DataGet(record, s.name)
  }

  /** The formatter's result cast to string, or the state cast to string. */
  function Formatted(s: Settings, record: Record, calls: Calls): string
  {
    var state := GetFieldState(s, record);
    match s.formatStateUsing
    case Some(f) => StrCast(calls.format(f.handle, state, record))
    case None => StrCast(state)
  }

  /** `substr($s, 0, $length)`: a negative length leaves that many bytes off the end. */
  function Prefix(s: string, length: int): (r: string)
    ensures |r| <= |s| && r == s[..|r|]
    ensures length >= 0 ==> |r| == if length < |s| then length else |s|
  {
    if length >= 0 then (if length < |s| then s[..length] else s)
    else if |s| + length > 0 then s[..|s| + length] else ""
  }

  /** The character limit: a set, non-zero limit shorter than the text cuts it and appends `...`. */
  function Truncate(text: string, limit: Option<int>): (r: string)
    ensures r == text || (exists k :: 0 <= k <= |text| && r == text[..k] + "...")
    ensures limit.Some? && limit.value > 0 ==> |r| <= limit.value + 3
  {
    if limit.Some? && limit.value != 0 && |text| > limit.value then
      var p := Prefix(text, limit.value);
      assert p == text[..|p|];
      p + "..."
    else text
  }

  /** The size class: the table's entry for a set, known size, and `text-sm` otherwise. */
  function SizeClass(size: Option<string>): string
  {
    if size.Some? && Truthy(Str(size.value)) && size.value in SizeMap then SizeMap[size.value] else "text-sm"
  }

  predicate ColorIsSet(c: ColorSetting)
  {
    match c
    case NoColor => false
    case ColorName(n) => Truthy(Str(n))
    case ColorCallback(_) => true
  }

  /** `$colorMap[$color] ?? ''`: only a string key can match. */
  function ColorClass(s: Settings, record: Record, calls: Calls): string
  {
    var color := match s.color
      case ColorCallback(c) => calls.color(c.handle, GetFieldState(s, record), record)
      case ColorName(n) => Str(n)
      case NoColor => Null;
    if color.Str? && color.s in ColorMap then ColorMap[color.s] else ""
  }

  predicate WeightIsSet(w: WeightSetting)
  {
    match w
    case NoWeight => false
    case WeightName(n) => Truthy(Str(n))
    case _ => true
  }

  /** The weight, an enum case converted to its value, looked up in the weight table. */
  function WeightClass(s: Settings, record: Record, calls: Calls): string
  {
    var weight := match s.weight
      case WeightCallback(c) => calls.weight(c.handle, record)
      case WeightName(n) => WeightText(n)
      case WeightCase(w) => WeightEnum(w)
      case NoWeight => WeightOther;
    var key := match weight
      case WeightEnum(w) => Some(WeightValue(w))
      case WeightText(t) => Some(t)
      case WeightOther => None;
    if key.Some? && key.value in WeightMap then WeightMap[key.value] else ""
  }

  /** The `$classes` list before filtering. */
  function ClassList(s: Settings, record: Record, calls: Calls): seq<string>
  {
    [SizeClass(s.size)]
    + (if ColorIsSet(s.color) then [ColorClass(s, record, calls)] else [])
    + (if WeightIsSet(s.weight) then [WeightClass(s, record, calls)] else [])
  }

  /** `array_filter`: the truthy entries, in order. */
  function Filter(xs: seq<string>): seq<string>
  {
    if xs == [] then [] else (if Truthy(Str(xs[0])) then [xs[0]] else []) + Filter(xs[1..])
  }

  /** `implode($sep, $xs)`. */
  function Implode(sep: string, xs: seq<string>): string
  {
    if xs == [] then "" else if |xs| == 1 then xs[0] else xs[0] + sep + Implode(sep, xs[1..])
  }

  function ClassString(s: Settings, record: Record, calls: Calls): string
  {
    Implode(" ", Filter(ClassList(s, record, calls)))
  }

  /** Dimming: a dim field is set and the record's value there is identical (`===`) to the dim value. */
  predicate ShouldDim(s: Settings, record: Record)
  {
    s.dimWhenField.Some? && DataGet(record, s.dimWhenField.value) == s.dimWhenValue
  }

  /** The `<span>` wrapper. */
  function Span(classString: string, dimmed: bool, body: string): string
  {
    "<span class=\"" + classString + "\"" + (if dimmed then DimStyle else "") + ">" + body + "</span>"
  }

  /**
   * `render($record)` for an array record, with `e` the escaping function. The
   * output is always a `<span>` (the class list is never empty, so the bare-text
   * branch is never taken), wrapping the escaped, possibly truncated text, with
   * the opacity style exactly when the record's dim field value is identical to
   * the dim value.
   */
  function Render(s: Settings, record: Record, calls: Calls, e: string -> string): (r: string)
    ensures r == Span(ClassString(s, record, calls),
                      s.dimWhenField.Some? && DataGet(record, s.dimWhenField.value) == s.dimWhenValue,
                      e(Truncate(Formatted(s, record, calls), s.characterLimit)))
  {
    var text := Truncate(Formatted(s, record, calls), s.characterLimit);
    var classString := ClassString(s, record, calls);
    var dimmed := ShouldDim(s, record);
    ClassStringLeads(s, record, calls);
    if Truthy(Str(classString)) || dimmed then Span(classString, dimmed, e(text)) else e(text)
  }

  // ---------------------------------------------------------------------------
  // What `render` promises

  /** A set, positive limit shorter than the text keeps exactly its first `limit` bytes and adds `...`; otherwise the text is unchanged. */
  lemma TruncateSpec(text: string, limit: Option<int>)
    ensures limit.Some? && limit.value > 0 && |text| > limit.value ==> Truncate(text, limit) == text[..limit.value] + "..."
    ensures limit.None? || limit.value == 0 || |text| <= limit.value ==> Truncate(text, limit) == text
    ensures limit.Some? && limit.value < 0 ==>
      Truncate(text, limit) == (if |text| + limit.value > 0 then text[..|text| + limit.value] else "") + "..."
  {
  }

  /** Unset, falsy and unknown sizes give `text-sm`; the known sizes map one-to-one. */
  lemma SizeClassSpec(size: Option<string>, other: string)
    ensures size.None? || size.value !in SizeMap ==> SizeClass(size) == "text-sm"
    ensures size.Some? && size.value in SizeMap ==> SizeClass(size) == SizeMap[size.value]
    ensures size.Some? && size.value in SizeMap && other in SizeMap && other != size.value ==>
      SizeClass(size) != SizeClass(Some(other))
    ensures SizeClass(size) in SizeMap.Values
  {
    if size.Some? && size.value in SizeMap {
      assert !("" in SizeMap) && !("0" in SizeMap);
    }
    assert SizeMap["sm"] == "text-sm";
  }

  /** Every class a table yields is usable (not empty, not `"0"`). */
  lemma ClassesTruthy(size: Option<string>)
    ensures Truthy(Str(SizeClass(size))) && |SizeClass(size)| >= 7 && SizeClass(size)[..5] == "text-"
  {
  }

  /** Every enum case has a weight class: its value is a key of the weight table. */
  lemma EveryFontWeightKnown(w: FontWeight)
    ensures WeightValue(w) in WeightMap && WeightMap[WeightValue(w)] == "font-" + WeightValue(w)
    ensures Truthy(Str(WeightValue(w)))
  {
  }

  /** A weight given as an enum case renders as its string value would. */
  lemma EnumWeightAsString(s: Settings, w: FontWeight, record: Record, calls: Calls, e: string -> string)
    ensures Render(s.(weight := WeightCase(w)), record, calls, e) == Render(s.(weight := WeightName(WeightValue(w))), record, calls, e)
  {
    EveryFontWeightKnown(w);
    assert ClassList(s.(weight := WeightCase(w)), record, calls) == ClassList(s.(weight := WeightName(WeightValue(w))), record, calls);
  }

  lemma {:induction false} FilterAppend(a: seq<string>, b: seq<string>)
    ensures Filter(a + b) == Filter(a) + Filter(b)
    decreases a
  {
    if a != [] {
      assert (a + b)[0] == a[0] && (a + b)[1..] == a[1..] + b;
      FilterAppend(a[1..], b);
    } else {
      assert a + b == b;
    }
  }

  /** An empty class in the list is dropped by the filter. */
  lemma FilterSkipsEmpty(head: string, c: seq<string>, w: seq<string>)
    requires c == [] || c == [""]
    ensures Filter([head] + c + w) == Filter([head] + w)
  {
    FilterAppend([head] + c, w);
    FilterAppend([head], c);
    FilterAppend([head], w);
    assert Filter(c) == [] by {
      if c != [] {
        assert c[1..] == [];
      }
    }
    assert Filter([head]) + [] == Filter([head]);
  }

  /** The class string and the text decide the output. */
  lemma RenderDependsOn(s: Settings, t: Settings, record: Record, calls: Calls, e: string -> string)
    requires ClassString(s, record, calls) == ClassString(t, record, calls)
    requires s.name == t.name && s.formatStateUsing == t.formatStateUsing && s.characterLimit == t.characterLimit
    requires s.dimWhenField == t.dimWhenField && s.dimWhenValue == t.dimWhenValue
    ensures Render(s, record, calls, e) == Render(t, record, calls, e)
  {
    assert Formatted(s, record, calls) == Formatted(t, record, calls);
    assert ShouldDim(s, record) == ShouldDim(t, record);
  }

  /** An unknown colour adds an empty class, which is filtered out: the output is as if no colour were set. */
  lemma UnknownColorLikeNone(s: Settings, record: Record, calls: Calls, e: string -> string)
    requires ColorClass(s, record, calls) == ""
    ensures Render(s, record, calls, e) == Render(s.(color := NoColor), record, calls, e)
  {
    var t := s.(color := NoColor);
    var w := if WeightIsSet(s.weight) then [WeightClass(s, record, calls)] else [];
    var c := if ColorIsSet(s.color) then [ColorClass(s, record, calls)] else [];
    assert WeightClass(t, record, calls) == WeightClass(s, record, calls);
    assert ClassList(s, record, calls) == [SizeClass(s.size)] + c + w;
    assert ClassList(t, record, calls) == [SizeClass(s.size)] + w;
    FilterSkipsEmpty(SizeClass(s.size), c, w);
    RenderDependsOn(s, t, record, calls, e);
  }

  /** An unknown weight adds an empty class, which is filtered out: the output is as if no weight were set. */
  lemma UnknownWeightLikeNone(s: Settings, record: Record, calls: Calls, e: string -> string)
    requires WeightClass(s, record, calls) == ""
    ensures Render(s, record, calls, e) == Render(s.(weight := NoWeight), record, calls, e)
  {
    var t := s.(weight := NoWeight);
    var c := if ColorIsSet(s.color) then [ColorClass(s, record, calls)] else [];
    var w := if WeightIsSet(s.weight) then [WeightClass(s, record, calls)] else [];
    assert ColorClass(t, record, calls) == ColorClass(s, record, calls);
    assert ClassList(s, record, calls) == [SizeClass(s.size)] + c + w;
    assert ClassList(t, record, calls) == [SizeClass(s.size)] + c;
    FilterAppend([SizeClass(s.size)] + c, w);
    assert Filter(w) == [];
    assert [SizeClass(s.size)] + c + [] == [SizeClass(s.size)] + c;
    RenderDependsOn(s, t, record, calls, e);
  }

  lemma ImplodeStartsWith(sep: string, xs: seq<string>)
    requires xs != []
    ensures |Implode(sep, xs)| >= |xs[0]| && Implode(sep, xs)[..|xs[0]|] == xs[0]
  {
  }

  /** The class list starts with the size class, so it is never empty nor `"0"`. */
  lemma ClassStringLeads(s: Settings, record: Record, calls: Calls)
    ensures ClassString(s, record, calls)[..|SizeClass(s.size)|] == SizeClass(s.size)
    ensures Truthy(Str(ClassString(s, record, calls)))
  {
    ClassesTruthy(s.size);
    var xs := ClassList(s, record, calls);
    assert xs[0] == SizeClass(s.size) && xs == [xs[0]] + xs[1..];
    FilterAppend([xs[0]], xs[1..]);
    var f := Filter(xs);
    assert f[0] == SizeClass(s.size);
    ImplodeStartsWith(" ", f);
    var c := ClassString(s, record, calls);
    assert c[..1] == SizeClass(s.size)[..1];
    assert c != "" && c != "0";
  }

  /** Without a formatter the text is the state cast to string; with one, the formatter's result cast to string. */
  lemma FormattedSpec(s: Settings, record: Record, calls: Calls)
    ensures s.formatStateUsing.None? ==> Formatted(s, record, calls) == StrCast(DataGet(record, s.name))
    ensures s.formatStateUsing.Some? ==>
      Formatted(s, record, calls) == StrCast(calls.format(s.formatStateUsing.value.handle, DataGet(record, s.name), record))
  {
  }

  // ---------------------------------------------------------------------------
  // The field object and its fluent setters

  const DefaultActiveField: string := "is_active"

  class TextField {
    var name: string
    var color: ColorSetting
    var size: Option<string>
    var characterLimit: Option<int>
    var dimWhenField: Option<string>
    var dimWhenValue: Value
    var weight: WeightSetting
    var formatStateUsing: Option<Closure>

    /** `TextField::make($name)`: every setting unset. */
    constructor (fieldName: string)
      ensures Snapshot() == Settings(fieldName, NoColor, None, None, None, Null, NoWeight, None)
    {
      name := fieldName;
      color := NoColor;
      size := None;
      characterLimit := None;
      dimWhenField := None;
      dimWhenValue := Null;
      weight := NoWeight;
      formatStateUsing := None;
    }

    /** The settings `render` reads. */
    function Snapshot(): Settings
      reads this
    {
      Settings(name, color, size, characterLimit, dimWhenField, dimWhenValue, weight, formatStateUsing)
    }

    method Color(c: ColorSetting) returns (self: TextField)
      requires c != NoColor
      modifies this`color
      ensures self == this && color == c
    {
      color := c;
      self := this;
    }

    method Size(s: string) returns (self: TextField)
      modifies this`size
      ensures self == this && size == Some(s)
    {
      size := Some(s);
      self := this;
    }

    method Limit(limit: int) returns (self: TextField)
      modifies this`characterLimit
      ensures self == this && characterLimit == Some(limit)
    {
      characterLimit := Some(limit);
      self := this;
    }

    method Weight(w: WeightSetting) returns (self: TextField)
      requires w != NoWeight
      modifies this`weight
      ensures self == this && weight == w
    {
      weight := w;
      self := this;
    }

    /** `dimWhen($field, $value = false)`; `None` stands for the omitted value. */
    method DimWhen(field: string, value: Option<Value>) returns (self: TextField)
      modifies this`dimWhenField, this`dimWhenValue
      ensures self == this && dimWhenField == Some(field)
      ensures value.Some? ==> dimWhenValue == value.value
      ensures value.None? ==> dimWhenValue == Bool(false)
    {
      dimWhenField := Some(field);
      dimWhenValue := if value.Some? then value.value else Bool(false);
      self := this;
    }

    /**
     * `dimWhenInactive($field = 'is_active')`: the same settings as `dimWhen($field, false)`;
     * `None` stands for the omitted argument.
     */
    method DimWhenInactive(field: Option<string>) returns (self: TextField)
      modifies this`dimWhenField, this`dimWhenValue
      ensures self == this && dimWhenValue == Bool(false)
      ensures field.Some? ==> dimWhenField == field
      ensures field.None? ==> dimWhenField == Some(DefaultActiveField)
    {
      var f := if field.Some? then field.value else DefaultActiveField;
      self := DimWhen(f, Some(Bool(false)));
    }

    method FormatStateUsing(callback: Closure) returns (self: TextField)
      modifies this`formatStateUsing
      ensures self == this && formatStateUsing == Some(callback)
    {
      formatStateUsing := Some(callback);
      self := this;
    }
  }
}
