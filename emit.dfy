/**
 * `build_designation_block` and the per-row pieces of `generate_fsh`: cell
 * lookup, blank tests, the three line formats and the order of the
 * designation slots.
 */
module Emit {
  import opened Wrappers
  import opened Text
  import opened Escape
  import opened ExtraLangs

  /** One spreadsheet row: column name to cell, `None` for a NaN or missing cell. */
  type Row = map<string, Option<string>>

  /** Which columns play which role; ru, en and la may be unbound. */
  datatype Bindings = Bindings(code: string, display: string, ru: Option<string>, en: Option<string>, la: Option<string>)

  /** One designation to try: its language tag, its column and whether it is the `[0]` one. */
  datatype Slot = Slot(tag: string, column: Option<string>, first: bool)

  /** `row.get(col, None)`. */
  function Cell(row: Row, col: string): Option<string> {
    if col in row then row[col] else None
  }

  /** A value that admission and emission treat as "no data": missing, or whitespace only. */
  predicate IsBlank(v: Option<string>) {
    v.None? || Strip(v.value) == ""
  }

  /**
   * The guard of `build_designation_block`: the binding is set and not the
   * empty string, the row has that column, and its value is not blank.
   */
  predicate HasValue(row: Row, valueCol: Option<string>) {
    valueCol.Some? && valueCol.value != "" && valueCol.value in row && !IsBlank(row[valueCol.value])
  }

  /** The escaped, trimmed text a designation carries. */
  function DesignationValue(row: Row, valueCol: Option<string>): string
    requires HasValue(row, valueCol)
  {
    FshEscapeText(Strip(row[valueCol.value].value))
  }

  function HeaderLine(code: string, display: string): string {
    "* #" + code + " \"" + display + "\""
  }

  function LanguageLine(tag: string, first: bool): string {
    "  * ^designation[" + (if first then "0" else "+") + "].language = #" + tag
  }

  function ValueLine(value: string): string {
    "  * ^designation[=].value = \"" + value + "\""
  }

  /** The lines one slot contributes to a block. */
  function DesignationLines(row: Row, slot: Slot): seq<string> {
    if HasValue(row, slot.column) then
      [LanguageLine(slot.tag, slot.first), ValueLine(DesignationValue(row, slot.column))]
    else []
  }

  /** `build_designation_block(row, lang_code, value_col, is_first)`. */
  method BuildDesignationBlock(row: Row, langCode: string, valueCol: Option<string>, isFirst: bool)
    returns (lines: seq<string>)
    ensures lines == DesignationLines(row, Slot(langCode, valueCol, isFirst))
  {
    lines := [];
    if valueCol.Some? && valueCol.value != "" && valueCol.value in row
       && row[valueCol.value].Some? && Strip(row[valueCol.value].value) != ""
    {
      var value := FshEscapeText(Strip(row[valueCol.value].value));
      if isFirst {
        lines := lines + [LanguageLine(langCode, true)];
      } else {
        lines := lines + [LanguageLine(langCode, false)];
      }
      lines := lines + [ValueLine(value)];
    }
  }

  /**
   * A slot yields nothing when its column is unset, empty, absent or blank,
   * and otherwise exactly its language line followed by its value line.
   */
  lemma DesignationLinesShape(row: Row, slot: Slot)
    ensures var lines := DesignationLines(row, slot);
      && (lines == [] <==> !HasValue(row, slot.column))
      && (|lines| == 0 || |lines| == 2)
      && (lines != [] ==>
            lines[0] == LanguageLine(slot.tag, slot.first)
            && lines[1] == ValueLine(DesignationValue(row, slot.column)))
  {
  }

  predicate IsFixedTag(t: string) {
    t == "ru" || t == "en" || t == "la"
  }

  /** ru first (the only slot that can carry `[0]`), then en, then la. */
  function FixedSlots(b: Bindings): seq<Slot> {
    [Slot("ru", b.ru, true), Slot("en", b.en, false), Slot("la", b.la, false)]
  }

  function SlotOf(e: LangEntry): Slot {
    Slot(e.tag, Some(e.column), false)
  }

  /** The extra languages in dictionary order, without ru, en and la. */
  function ExtraSlots(extra: seq<LangEntry>): seq<Slot> {
    if extra == [] then []
    else
      var e := extra[|extra| - 1];
      ExtraSlots(extra[..|extra| - 1]) + (if IsFixedTag(e.tag) then [] else [SlotOf(e)])
  }

  /** Every slot a row is tried against, in emission order. */
  function Slots(b: Bindings, extra: seq<LangEntry>): seq<Slot> {
    FixedSlots(b) + ExtraSlots(extra)
  }

  /** The designation lines of a row, slot after slot. */
  function Designations(row: Row, slots: seq<Slot>): seq<string> {
    if slots == [] then []
    else Designations(row, slots[..|slots| - 1]) + DesignationLines(row, slots[|slots| - 1])
  }

  /** The slots that actually produce lines for `row`. */
  function Filled(row: Row, slots: seq<Slot>): seq<Slot> {
    if slots == [] then []
    else
      var s := slots[|slots| - 1];
      Filled(row, slots[..|slots| - 1]) + (if HasValue(row, s.column) then [s] else [])
  }

  /** Where in `slots` the filled slots sit. */
  function FilledPositions(row: Row, slots: seq<Slot>): (ix: seq<nat>)
    ensures forall k :: 0 <= k < |ix| ==> ix[k] < |slots|
  {
    if slots == [] then []
    else
      var s := slots[|slots| - 1];
      FilledPositions(row, slots[..|slots| - 1]) + (if HasValue(row, s.column) then [|slots| - 1] else [])
  }

  /**
   * The filled slots are exactly the slots that have a value, kept in their
   * original order: they sit at strictly increasing positions of `slots`,
   * and a position is used exactly when its slot has a value.
   */
  lemma {:induction false} FilledSlots(row: Row, slots: seq<Slot>)
    ensures var f := Filled(row, slots); var ix := FilledPositions(row, slots);
      && |ix| == |f|
      && (forall k :: 0 <= k < |ix| ==> f[k] == slots[ix[k]])
      && (forall k, l :: 0 <= k < l < |ix| ==> ix[k] < ix[l])
      && (forall j :: 0 <= j < |slots| ==> (j in ix <==> HasValue(row, slots[j].column)))
    decreases |slots|
  {
    if slots != [] {
      FilledSlots(row, slots[..|slots| - 1]);
    }
  }

  /**
   * The lines of a row's designations: two per filled slot, the language
   * line (with `[0]` exactly for a `first` slot) and then the value line.
   */
  lemma {:induction false} DesignationsLayout(row: Row, slots: seq<Slot>)
    ensures var d := Designations(row, slots); var f := Filled(row, slots);
      && |d| == 2 * |f|
      && forall k :: 0 <= k < |f| ==>
           HasValue(row, f[k].column)
           && d[2 * k] == LanguageLine(f[k].tag, f[k].first)
           && d[2 * k + 1] == ValueLine(DesignationValue(row, f[k].column))
    decreases |slots|
  {
    if slots != [] {
      DesignationsLayout(row, slots[..|slots| - 1]);
    }
  }

  /** Where in the dictionary the extra slots come from. */
  function ExtraPositions(extra: seq<LangEntry>): (ix: seq<nat>)
    ensures forall k :: 0 <= k < |ix| ==> ix[k] < |extra|
  {
    if extra == [] then []
    else
      var e := extra[|extra| - 1];
      ExtraPositions(extra[..|extra| - 1]) + (if IsFixedTag(e.tag) then [] else [|extra| - 1])
  }

  /**
   * The extra slots: one per dictionary item whose tag is not ru, en or la,
   * in dictionary order, none of them `first`.
   */
  lemma {:induction false} ExtraSlotsFromDictionary(extra: seq<LangEntry>)
    ensures var x := ExtraSlots(extra); var ix := ExtraPositions(extra);
      && |ix| == |x|
      && (forall k :: 0 <= k < |ix| ==> x[k] == SlotOf(extra[ix[k]]) && !IsFixedTag(x[k].tag) && !x[k].first)
      && (forall k, l :: 0 <= k < l < |ix| ==> ix[k] < ix[l])
      && (forall j :: 0 <= j < |extra| ==> (j in ix <==> !IsFixedTag(extra[j].tag)))
    decreases |extra|
  {
    if extra != [] {
      ExtraSlotsFromDictionary(extra[..|extra| - 1]);
    }
  }

  /** The slot order: ru (the only `first` slot), en, la, then the extra slots. */
  lemma SlotOrder(b: Bindings, extra: seq<LangEntry>)
    ensures var s := Slots(b, extra);
      && |s| == 3 + |ExtraSlots(extra)|
      && s[0] == Slot("ru", b.ru, true) && s[1] == Slot("en", b.en, false) && s[2] == Slot("la", b.la, false)
      && (forall k :: 3 <= k < |s| ==> s[k] == ExtraSlots(extra)[k - 3] && !IsFixedTag(s[k].tag))
      && (forall k :: 0 < k < |s| ==> !s[k].first)
  {
    ExtraSlotsFromDictionary(extra);
  }

  /** A `[0]` language line. */
  predicate IsInitialLine(line: string) {
    StartsWith(line, "  * ^designation[0]")
  }

  function CountInitial(lines: seq<string>): nat {
    if lines == [] then 0
    else CountInitial(lines[..|lines| - 1]) + (if IsInitialLine(lines[|lines| - 1]) then 1 else 0)
  }

  lemma {:induction false} CountInitialAppend(a: seq<string>, b: seq<string>)
    ensures CountInitial(a + b) == CountInitial(a) + CountInitial(b)
    decreases |b|
  {
    if b == [] {
      assert a + b == a;
    } else {
      assert (a + b)[..|a + b| - 1] == a + b[..|b| - 1];
      CountInitialAppend(a, b[..|b| - 1]);
    }
  }

  lemma LineKinds(tag: string, value: string)
    ensures IsInitialLine(LanguageLine(tag, true))
    ensures !IsInitialLine(LanguageLine(tag, false))
    ensures !IsInitialLine(ValueLine(value))
  {
    assert LanguageLine(tag, true)[..19] == "  * ^designation[0]";
    assert LanguageLine(tag, false)[17] == '+';
    assert ValueLine(value)[17] == '=';
  }

  /** A header line starts with `*`, so it is never a `[0]` line. */
  lemma HeaderIsNotInitial(code: string, display: string)
    ensures !IsInitialLine(HeaderLine(code, display))
  {
    assert HeaderLine(code, display)[0] == '*';
  }

  /** A language line and its value line hold one `[0]` line exactly when the language line is a first one. */
  lemma PairInitialCount(tag: string, first: bool, value: string)
    ensures CountInitial([LanguageLine(tag, first), ValueLine(value)]) == if first then 1 else 0
  {
    var x := LanguageLine(tag, first);
    var y := ValueLine(value);
    LineKinds(tag, value);
    var none: seq<string> := [];
    assert [x][..0] == none;
    assert CountInitial([x]) == if first then 1 else 0;
    assert [x, y][..1] == [x];
    assert CountInitial([x, y]) == CountInitial([x]);
  }

  /** One slot yields a `[0]` line exactly when it is the first slot and has a value. */
  lemma SlotInitialCount(row: Row, s: Slot)
    ensures CountInitial(DesignationLines(row, s)) == if s.first && HasValue(row, s.column) then 1 else 0
  {
    if HasValue(row, s.column) {
      PairInitialCount(s.tag, s.first, DesignationValue(row, s.column));
    }
  }

  /**
   * When only the leading slot may be `first`, a `[0]` line appears exactly
   * once if that slot has a value, and never otherwise.
   */
  lemma {:induction false} InitialLineCount(row: Row, slots: seq<Slot>)
    requires forall k :: 0 < k < |slots| ==> !slots[k].first
    ensures CountInitial(Designations(row, slots))
         == if slots != [] && slots[0].first && HasValue(row, slots[0].column) then 1 else 0
    decreases |slots|
  {
    if slots != [] {
      var prefix := slots[..|slots| - 1];
      var s := slots[|slots| - 1];
      CountInitialAppend(Designations(row, prefix), DesignationLines(row, s));
      SlotInitialCount(row, s);
      if prefix != [] {
        assert forall k :: 0 < k < |prefix| ==> prefix[k] == slots[k];
        InitialLineCount(row, prefix);
        assert prefix[0] == slots[0];
      }
    }
  }
}
